/**
 Client records (support/export/client.c and support/include/exportfs.h).

 What is foreign to the program (name resolution, netmasks, wildcards and
 netgroups) is an arbitrary but fixed `Env`.
 */
module Clients {
  import opened Wrappers
  import opened CStrings

  const FQDN := 0
  const SUBNETWORK := 1
  const WILDCARD := 2
  const NETGROUP := 3
  const ANONYMOUS := 4
  const GSS := 5
  const MAXTYPES := 6

  /** Addresses a client record has room for. */
  const ADDRMAX := 16

  type Address = int

  datatype AddrInfo = AddrInfo(canonname: string, addrs: seq<Address>)

  /**
   `resolve` is host_addrinfo, `subnetValid` says whether init_subnetwork
   accepts an identifier, and `belongs` answers for subnetwork, wildcard and
   netgroup clients.
   */
  datatype Env = Env(
    resolve: string -> Option<AddrInfo>,
    subnetValid: string -> bool,
    belongs: (int, string, AddrInfo) -> bool)
  {
    /** A name that resolves has an address, and case does not matter in a network's name. */
    ghost predicate Sound() {
      && (forall h :: resolve(h).Some? ==> resolve(h).value.addrs != [])
      && (forall a, b :: SameName(a, b) ==> subnetValid(a) == subnetValid(b))
    }
  }

  /**
   An nfs_client.  Its name, type and addresses are settled when it is made: an
   FQDN client found by its address already has one, so client_lookup fills the
   address list only of a client it has just added.
   */
  class Client {
    const kind: int
    const hostname: string
    const addrs: seq<Address>
    var count: int
    var matchGen: nat
    var matched: bool

    constructor (kind: int, hostname: string, addrs: seq<Address>)
      ensures this.kind == kind && this.hostname == hostname && this.addrs == addrs
      ensures count == 0 && matchGen == 0 && !matched
    {
      this.kind, this.hostname, this.addrs := kind, hostname, addrs;
      count, matchGen, matched := 0, 0, false;
    }
  }

  // ----- identifiers -------------------------------------------------------

  function ScanType(ident: string): (t: int)
    ensures t == WILDCARD || t == SUBNETWORK || t == FQDN
  {
    if ident == "" then FQDN
    else if ident[0] in "*?[" then WILDCARD
    else if ident[0] == '/' then SUBNETWORK
    else if ident[0] == '\\' && 1 < |ident| then ScanType(ident[2..])
    else ScanType(ident[1..])
  }

  /** client_gettype (client.c:782-806). */
  function GetType(ident: string): (t: int)
    ensures 0 <= t < MAXTYPES
  {
    if ident == "" || ident == "*" then ANONYMOUS
    else if "gss/" <= ident then GSS
    else if ident[0] == '@' then NETGROUP
    else ScanType(ident)
  }

  function Fold(c: char): char { if 'A' <= c <= 'Z' then (c as int + 32) as char else c }

  /** strcasecmp(a, b) == 0. */
  predicate SameName(a: string, b: string) {
    |a| == |b| && forall i :: 0 <= i < |a| ==> Fold(a[i]) == Fold(b[i])
  }

  /** Two names are the same when they differ in the case of ASCII letters only. */
  lemma SameNameMeans(a: string, b: string)
    ensures SameName(a, b) <==> |a| == |b| && forall i :: 0 <= i < |a| ==> SameLetter(a[i], b[i])
  {
    forall x, y ensures Fold(x) == Fold(y) <==> SameLetter(x, y) { FoldIsCase(x, y); }
  }

  lemma FoldIsCase(x: char, y: char)
    ensures Fold(x) == Fold(y) <==> SameLetter(x, y)
  {
  }

  /** The first of the characters "*?[/" decides, and a network has the slash first. */
  ghost predicate DecidedAt(ident: string, i: nat) {
    i < |ident| && ident[i] in "*?[/" && forall j :: 0 <= j < i ==> ident[j] !in "*?[/"
  }

  lemma {:induction false} ScanTypeMeans(ident: string)
    requires '\\' !in ident
    ensures ScanType(ident) == WILDCARD <==> exists i: nat :: DecidedAt(ident, i) && ident[i] != '/'
    ensures ScanType(ident) == SUBNETWORK <==> exists i: nat :: DecidedAt(ident, i) && ident[i] == '/'
    ensures ScanType(ident) == FQDN <==> forall i :: 0 <= i < |ident| ==> ident[i] !in "*?[/"
  {
    if ident != "" {
      if ident[0] in "*?[/" {
        assert DecidedAt(ident, 0);
      } else {
        ScanTypeMeans(ident[1..]);
        DecidedBehind(ident);
      }
    }
  }

  lemma DecidedBehind(ident: string)
    requires ident != "" && ident[0] !in "*?[/"
    ensures forall i: nat :: DecidedAt(ident, i) ==> i > 0 && DecidedAt(ident[1..], i - 1)
    ensures forall i: nat :: DecidedAt(ident[1..], i) ==> DecidedAt(ident, i + 1) && ident[i + 1] == ident[1..][i]
    ensures (forall i :: 0 <= i < |ident| ==> ident[i] !in "*?[/") <==>
            forall i :: 0 <= i < |ident[1..]| ==> ident[1..][i] !in "*?[/"
  {
    assert forall i :: 0 < i < |ident| ==> ident[i] == ident[1..][i - 1];
    assert forall i :: 0 <= i < |ident[1..]| ==> ident[1..][i] == ident[i + 1];
  }

  /** What an identifier stands for, by its text alone, if nothing in it is escaped. */
  lemma TypeMeans(ident: string)
    requires '\\' !in ident
    ensures var t := GetType(ident);
            && (t == ANONYMOUS <==> ident == "" || ident == "*")
            && (t == GSS <==> 4 <= |ident| && ident[..4] == "gss/")
            && (t == NETGROUP <==> ident != "" && ident[0] == '@')
            && (t == FQDN ==> forall i :: 0 <= i < |ident| ==> ident[i] !in "*?[/")
            && (t == SUBNETWORK ==> exists i: nat :: DecidedAt(ident, i) && ident[i] == '/')
            && (t == WILDCARD ==> exists i: nat :: DecidedAt(ident, i) && ident[i] != '/')
  {
    ScanTypeMeans(ident);
  }

  /** A backslash takes its meaning from the character behind it. */
  lemma {:induction false} EscapedIsPlain(a: string, x: char, rest: string)
    requires forall i :: 0 <= i < |a| ==> a[i] !in "*?[/\\"
    ensures ScanType(a + ['\\', x] + rest) == ScanType(rest)
  {
    var s := a + ['\\', x] + rest;
    if a == "" {
      assert s[2..] == rest;
    } else {
      assert s[1..] == a[1..] + ['\\', x] + rest;
      EscapedIsPlain(a[1..], x, rest);
    }
  }

  // ----- matching an address -----------------------------------------------

  /** check_fqdn: the client and the caller share an address. */
  predicate SharesAddress(c: Client, ai: AddrInfo) {
    exists a :: a in ai.addrs && a in c.addrs
  }

  /** client_check (client.c:750-772). */
  predicate Check(env: Env, c: Client, ai: AddrInfo) {
    if c.kind == FQDN then SharesAddress(c, ai)
    else if c.kind == ANONYMOUS then true
    else if c.kind == SUBNETWORK || c.kind == WILDCARD || c.kind == NETGROUP then env.belongs(c.kind, c.hostname, ai)
    else false
  }

  /** Who a client stands for, by its type; a GSS client is for nobody's address. */
  lemma WhoMatches(env: Env, c: Client, ai: AddrInfo)
    ensures c.kind == FQDN ==> (Check(env, c, ai) <==> exists i, j ::
              0 <= i < |ai.addrs| && 0 <= j < |c.addrs| && ai.addrs[i] == c.addrs[j])
    ensures c.kind == ANONYMOUS ==> Check(env, c, ai)
    ensures c.kind == GSS ==> !Check(env, c, ai)
    ensures c.kind == SUBNETWORK ==> (Check(env, c, ai) <==> env.belongs(SUBNETWORK, c.hostname, ai))
    ensures c.kind == WILDCARD ==> (Check(env, c, ai) <==> env.belongs(WILDCARD, c.hostname, ai))
    ensures c.kind == NETGROUP ==> (Check(env, c, ai) <==> env.belongs(NETGROUP, c.hostname, ai))
  {
    if c.kind == FQDN && Check(env, c, ai) {
      var a :| a in ai.addrs && a in c.addrs;
      var i :| 0 <= i < |ai.addrs| && ai.addrs[i] == a;
      var j :| 0 <= j < |c.addrs| && c.addrs[j] == a;
    }
    forall i, j | 0 <= i < |ai.addrs| && 0 <= j < |c.addrs| && ai.addrs[i] == c.addrs[j] ensures SharesAddress(c, ai) {
      assert ai.addrs[i] in ai.addrs && ai.addrs[i] in c.addrs;
    }
  }

  // ----- looking a client up -----------------------------------------------

  /** What client_lookup finds in its lists: no answer from the resolver, nothing, or a client. */
  datatype Lookup = Unresolved | Missing(kind: int, name: string, addrs: seq<Address>) | Found(client: Client)

  function FirstByAddress(list: seq<Client>, ai: AddrInfo): (r: Option<Client>)
    ensures r.Some? ==> r.value in list && SharesAddress(r.value, ai)
    ensures r.None? ==> forall c :: c in list ==> !SharesAddress(c, ai)
  {
    if list == [] then None
    else if SharesAddress(list[0], ai) then Some(list[0])
    else FirstByAddress(list[1..], ai)
  }

  function FirstByName(list: seq<Client>, name: string): (r: Option<Client>)
    ensures r.Some? ==> r.value in list && SameName(name, r.value.hostname)
    ensures r.None? ==> forall c :: c in list ==> !SameName(name, c.hostname)
  {
    if list == [] then None
    else if SameName(name, list[0].hostname) then Some(list[0])
    else FirstByName(list[1..], name)
  }

  function Truncated(addrs: seq<Address>): seq<Address> {
    if |addrs| <= ADDRMAX then addrs else addrs[..ADDRMAX]
  }

  /** The search of client_lookup (client.c:268-314) through the client lists. */
  function Find(env: Env, lists: seq<seq<Client>>, hname: string, canonical: bool): (r: Lookup)
    requires |lists| == MAXTYPES
    ensures r.Found? ==> r.client in lists[GetType(hname)]
    ensures r.Missing? ==> r.kind == GetType(hname)
  {
    var kind := GetType(hname);
    if kind == FQDN && !canonical then
      match env.resolve(hname) {
        case None => Unresolved
        case Some(ai) =>
          match FirstByAddress(lists[kind], ai) {
            case Some(c) => Found(c)
            case None => Missing(kind, ai.canonname, Truncated(ai.addrs))
          }
      }
    else
      match FirstByName(lists[kind], hname) {
        case Some(c) => Found(c)
        case None => Missing(kind, hname, [])
      }
  }

  /** What is looked for, and what is to be made when it is missing. */
  lemma FindMeans(env: Env, lists: seq<seq<Client>>, hname: string, canonical: bool)
    requires |lists| == MAXTYPES
    ensures var kind, r := GetType(hname), Find(env, lists, hname, canonical);
            if kind == FQDN && !canonical then
              if env.resolve(hname).None? then r == Unresolved
              else
                var ai := env.resolve(hname).value;
                if exists c :: c in lists[FQDN] && SharesAddress(c, ai) then r.Found? && SharesAddress(r.client, ai)
                else
                  && r.Missing? && r.kind == FQDN && r.name == ai.canonname
                  && r.addrs <= ai.addrs && |r.addrs| == if |ai.addrs| < 16 then |ai.addrs| else 16
            else if exists c :: c in lists[kind] && SameName(hname, c.hostname)
            then r.Found? && SameName(hname, r.client.hostname)
            else r == Missing(kind, hname, [])
  {
  }

  /** A client appended to its list does not hide one that was found before. */
  lemma FindIsStable(env: Env, lists: seq<seq<Client>>, hname: string, canonical: bool, kind: int, c: Client)
    requires |lists| == MAXTYPES && 0 <= kind < MAXTYPES
    requires Find(env, lists, hname, canonical).Found?
    ensures Find(env, lists[kind := lists[kind] + [c]], hname, canonical) == Find(env, lists, hname, canonical)
  {
    var list := lists[GetType(hname)];
    if env.resolve(hname).Some? { AppendKeepsFirstByAddress(list, c, env.resolve(hname).value); }
    AppendKeepsFirstByName(list, c, hname);
  }

  lemma {:induction false} AppendKeepsFirstByAddress(list: seq<Client>, c: Client, ai: AddrInfo)
    ensures FirstByAddress(list, ai).Some? ==> FirstByAddress(list + [c], ai) == FirstByAddress(list, ai)
    ensures FirstByAddress(list, ai).None? && SharesAddress(c, ai) ==> FirstByAddress(list + [c], ai) == Some(c)
  {
    if list != [] {
      assert (list + [c])[1..] == list[1..] + [c];
      AppendKeepsFirstByAddress(list[1..], c, ai);
    }
  }

  lemma {:induction false} AppendKeepsFirstByName(list: seq<Client>, c: Client, name: string)
    ensures FirstByName(list, name).Some? ==> FirstByName(list + [c], name) == FirstByName(list, name)
    ensures FirstByName(list, name).None? && SameName(name, c.hostname) ==> FirstByName(list + [c], name) == Some(c)
  {
    if list != [] {
      assert (list + [c])[1..] == list[1..] + [c];
      AppendKeepsFirstByName(list[1..], c, name);
    }
  }

  /** The client that client_lookup adds for a missing name is the one the next lookup of that name finds. */
  lemma AddedIsFound(env: Env, lists: seq<seq<Client>>, hname: string, canonical: bool, c: Client)
    requires |lists| == MAXTYPES && env.Sound()
    requires Find(env, lists, hname, canonical).Missing?
    requires var m := Find(env, lists, hname, canonical); c.hostname == m.name && c.addrs == m.addrs
    ensures var kind := GetType(hname);
            Find(env, lists[kind := lists[kind] + [c]], hname, canonical) == Found(c)
  {
    var kind := GetType(hname);
    if kind == FQDN && !canonical {
      var ai := env.resolve(hname).value;
      var a := ai.addrs[0];
      assert c.addrs[0] == a;
      assert a in ai.addrs && a in c.addrs;
      AppendKeepsFirstByAddress(lists[kind], c, ai);
    } else {
      AppendKeepsFirstByName(lists[kind], c, hname);
    }
  }
}
