/**
 The in-memory export list and the client records it refers to
 (support/export/export.c, support/export/client.c): create, duplicate, look
 up and free.
 */
module Exports {
  import opened Wrappers
  import opened Clients
  import opened ExportTable

  /** One empty list for each client type. */
  function NoLists<T>(): seq<seq<T>> { [[], [], [], [], [], []] }

  /** How many entries of a list point to a client. */
  function Refs(list: seq<Export>, c: Client): nat {
    if list == [] then 0 else (if list[0].client == c then 1 else 0) + Refs(list[1..], c)
  }

  lemma {:induction false} RefsOfConcat(a: seq<Export>, b: seq<Export>, c: Client)
    ensures Refs(a + b, c) == Refs(a, c) + Refs(b, c)
  {
    if a == [] {
      assert a + b == b;
    } else {
      assert (a + b)[1..] == a[1..] + b;
      RefsOfConcat(a[1..], b, c);
    }
  }

  lemma RefsOfInserted(list: seq<Export>, k: nat, e: Export, c: Client)
    requires k <= |list|
    ensures Refs(Inserted(list, k, e), c) == Refs(list, c) + if e.client == c then 1 else 0
  {
    RefsOfConcat(list[..k], [e], c);
    RefsOfConcat(list[..k] + [e], list[k..], c);
    RefsOfConcat(list[..k], list[k..], c);
    assert list == list[..k] + list[k..];
  }

  lemma {:induction false} NoRefs(list: seq<Export>, c: Client)
    requires forall e :: e in list ==> e.client != c
    ensures Refs(list, c) == 0
  {
    if list != [] { NoRefs(list[1..], c); }
  }

  lemma InsertMembers(list: seq<Export>, k: nat, e: Export)
    requires k <= |list|
    ensures forall x :: x in Inserted(list, k, e) <==> x in list || x == e
  {
    assert list == list[..k] + list[k..];
  }

  /** No two entries are for the same client and path. */
  ghost predicate Unique(list: seq<Export>) {
    forall x, y :: x in list && y in list && x.client == y.client && x.ent.path == y.ent.path ==> x == y
  }

  lemma InsertKeepsUnique(list: seq<Export>, k: nat, e: Export)
    requires Unique(list) && k <= |list| && FirstEntry(list, e.client, e.ent.path).None?
    ensures Unique(Inserted(list, k, e))
  {
    InsertMembers(list, k, e);
  }

  /** The lists with the entry `e` put into the list of its client's type. */
  function Added(lists: seq<seq<Export>>, e: Export): seq<seq<Export>>
    requires |lists| == MAXTYPES && 0 <= e.client.kind < MAXTYPES
  {
    lists[e.client.kind := Place(lists[e.client.kind], e)]
  }

  function AddedClient(clients: seq<seq<Client>>, c: Client): seq<seq<Client>>
    requires |clients| == MAXTYPES && 0 <= c.kind < MAXTYPES
  {
    clients[c.kind := clients[c.kind] + [c]]
  }

  /** Entries sit in the list of their client's type, and their clients are known. */
  ghost predicate Typed(lists: seq<seq<Export>>, clients: seq<seq<Client>>) {
    && |lists| == MAXTYPES && |clients| == MAXTYPES
    && (forall t, e :: 0 <= t < MAXTYPES && e in lists[t] ==> e.client.kind == t && e.client in clients[t])
    && (forall t, c :: 0 <= t < MAXTYPES && c in clients[t] ==> c.kind == t)
  }

  ghost predicate AllUnique(lists: seq<seq<Export>>) { forall t :: 0 <= t < |lists| ==> Unique(lists[t]) }

  /** A key that is not there yet can be added; one that is there is then there twice. */
  lemma AddKeepsUniqueExactlyWhen(lists: seq<seq<Export>>, e: Export)
    requires |lists| == MAXTYPES && 0 <= e.client.kind < MAXTYPES && AllUnique(lists) && e !in lists[e.client.kind]
    ensures AllUnique(Added(lists, e)) <==> FirstEntry(lists[e.client.kind], e.client, e.ent.path).None?
  {
    var list := lists[e.client.kind];
    var k := Behind(list, Bucket(e));
    InsertMembers(list, k, e);
    var first := FirstEntry(list, e.client, e.ent.path);
    if first.None? {
      InsertKeepsUnique(list, k, e);
    } else {
      assert first.value in Place(list, e) && e in Place(list, e);
      assert !Unique(Added(lists, e)[e.client.kind]);
    }
  }

  lemma AddKeepsTyped(lists: seq<seq<Export>>, clients: seq<seq<Client>>, e: Export)
    requires Typed(lists, clients) && 0 <= e.client.kind < MAXTYPES && e.client in clients[e.client.kind]
    ensures Typed(Added(lists, e), clients)
    ensures forall t, x :: 0 <= t < MAXTYPES && x in Added(lists, e)[t] ==> x in lists[t] || x == e
    ensures forall c: Client :: 0 <= c.kind < MAXTYPES ==>
              Refs(Added(lists, e)[c.kind], c) == Refs(lists[c.kind], c) + if c == e.client then 1 else 0
  {
    var list := lists[e.client.kind];
    var k := Behind(list, Bucket(e));
    InsertMembers(list, k, e);
    forall c: Client | 0 <= c.kind < MAXTYPES
      ensures Refs(Added(lists, e)[c.kind], c) == Refs(lists[c.kind], c) + if c == e.client then 1 else 0
    {
      RefsOfInserted(list, k, e, c);
    }
  }

  lemma AddClientKeepsTyped(lists: seq<seq<Export>>, clients: seq<seq<Client>>, c: Client)
    requires Typed(lists, clients) && 0 <= c.kind < MAXTYPES && c !in clients[c.kind]
    ensures Typed(lists, AddedClient(clients, c)) && Refs(lists[c.kind], c) == 0
  {
    NoRefs(lists[c.kind], c);
  }

  /** What client_lookup answers, and what it does to the client lists. */
  ghost predicate LookedUp(env: Env, before: seq<seq<Client>>, after: seq<seq<Client>>, hname: string,
                           canonical: bool, c: Client?)
    requires |before| == MAXTYPES
  {
    match Find(env, before, hname, canonical)
    case Unresolved => c == null && after == before
    case Found(x) => c == x && after == before
    case Missing(kind, name, addrs) =>
      if kind == SUBNETWORK && !env.subnetValid(name) then c == null && after == before
      else c != null && c.kind == kind && c.hostname == name && c.addrs == addrs && after == AddedClient(before, c)
  }

  /** The lists hold no entry for the client this name finds and this path. */
  ghost predicate NoEntry(env: Env, lists: seq<seq<Export>>, clients: seq<seq<Client>>, hname: string,
                          path: string, canonical: bool)
    requires Typed(lists, clients)
  {
    match Find(env, clients, hname, canonical)
    case Found(c) => FirstEntry(lists[c.kind], c, path).None?
    case _ => true
  }

  lemma FoundHasNoEntry(env: Env, lists: seq<seq<Export>>, clients: seq<seq<Client>>, hname: string, path: string,
                        canonical: bool, c: Client)
    requires Typed(lists, clients) && NoEntry(env, lists, clients, hname, path, canonical)
    requires Find(env, clients, hname, canonical) == Found(c)
    ensures 0 <= c.kind < MAXTYPES && FirstEntry(lists[c.kind], c, path).None?
  {
  }

  /** Looking up the hostname an entry was created for still finds the entry's client. */
  ghost predicate Anchored(env: Env, clients: seq<seq<Client>>, e: Export)
    requires |clients| == MAXTYPES
  {
    Find(env, clients, e.ent.hostname, false) == Found(e.client)
  }

  ghost predicate AllAnchored(env: Env, lists: seq<seq<Export>>, clients: seq<seq<Client>>)
    requires |lists| == MAXTYPES && |clients| == MAXTYPES
  {
    forall t, e :: 0 <= t < MAXTYPES && e in lists[t] ==> Anchored(env, clients, e)
  }

  /** A host the table can have a client for: its name resolves, if that is asked for, or its network is valid. */
  predicate AcceptedAs(env: Env, hname: string, canonical: bool) {
    && (GetType(hname) == FQDN && !canonical ==> env.resolve(hname).Some?)
    && (GetType(hname) == SUBNETWORK ==> env.subnetValid(hname))
  }

  ghost predicate NetworksAreValid(env: Env, clients: seq<seq<Client>>) {
    |clients| == MAXTYPES && forall c :: c in clients[SUBNETWORK] ==> env.subnetValid(c.hostname)
  }

  /** client_lookup has an answer exactly for an accepted host. */
  lemma LookedUpExactlyWhenAccepted(env: Env, before: seq<seq<Client>>, after: seq<seq<Client>>, hname: string,
                                    canonical: bool, c: Client?)
    requires env.Sound() && NetworksAreValid(env, before) && LookedUp(env, before, after, hname, canonical, c)
    ensures c != null <==> AcceptedAs(env, hname, canonical)
  {
    hide GetType;
    var found := Find(env, before, hname, canonical);
    if GetType(hname) == SUBNETWORK && found.Found? {
      assert SameName(hname, found.client.hostname);
    }
  }

  /** Name resolution is fixed, so a client that was looked up is found again, and older ones stay found. */
  lemma LookupIsStable(env: Env, lists: seq<seq<Export>>, before: seq<seq<Client>>, after: seq<seq<Client>>,
                       hname: string, canonical: bool, c: Client?)
    requires env.Sound() && Typed(lists, before) && LookedUp(env, before, after, hname, canonical, c)
    ensures |after| == MAXTYPES
    ensures c != null ==> 0 <= c.kind < MAXTYPES
    ensures c != null ==> Find(env, after, hname, canonical) == Found(c)
    ensures c == null ==> !Find(env, after, hname, canonical).Found?
    ensures c != null && (after != before ==> c !in before[c.kind]) ==> forall path ::
              NoEntry(env, lists, before, hname, path, canonical) ==> FirstEntry(lists[c.kind], c, path).None?
    ensures AllAnchored(env, lists, before) ==> AllAnchored(env, lists, after)
  {
    if c != null && after != before {
      AddedIsFound(env, before, hname, canonical, c);
      if AllAnchored(env, lists, before) {
        forall t, e | 0 <= t < MAXTYPES && e in lists[t] ensures Anchored(env, after, e) {
          assert Anchored(env, before, e);
          FindIsStable(env, before, e.ent.hostname, false, c.kind, c);
        }
      }
    }
  }

  lemma AddKeepsAnchored(env: Env, lists: seq<seq<Export>>, clients: seq<seq<Client>>, e: Export)
    requires Typed(lists, clients) && 0 <= e.client.kind < MAXTYPES && Anchored(env, clients, e)
    ensures AllAnchored(env, lists, clients) ==> AllAnchored(env, Added(lists, e), clients)
  {
    InsertMembers(lists[e.client.kind], Behind(lists[e.client.kind], Bucket(e)), e);
  }

  lemma ClearKeepsTyped(lists: seq<seq<Export>>, clients: seq<seq<Client>>, t: int)
    requires Typed(lists, clients) && 0 <= t < MAXTYPES
    ensures |lists| == MAXTYPES && |clients| == MAXTYPES && Typed(lists[t := []], clients)
  {
  }

  /** export_check (export.c:383-390). */
  predicate Suits(env: Env, e: Export, ai: AddrInfo, path: string) { e.ent.path == path && Check(env, e.client, ai) }

  ghost predicate NoneSuits(env: Env, list: seq<Export>, ai: AddrInfo, path: string) {
    forall e :: e in list ==> !(e.ent.path == path && Check(env, e.client, ai))
  }

  /** lists[t][i] is the first entry that suits, in the order of client types and then of the list. */
  ghost predicate FirstSuiting(env: Env, lists: seq<seq<Export>>, ai: AddrInfo, path: string, t: int, i: int) {
    && 0 <= t < |lists| && 0 <= i < |lists[t]|
    && lists[t][i].ent.path == path && Check(env, lists[t][i].client, ai)
    && NoneSuits(env, lists[t][..i], ai, path)
    && forall u :: 0 <= u < t ==> NoneSuits(env, lists[u], ai, path)
  }

  /** exportlist and clientlist. */
  class ExportList {
    const env: Env
    const tables: seq<HashTable>
    var clients: seq<seq<Client>>
    ghost var lists: seq<seq<Export>>
    ghost var known: set<Client>

    ghost predicate Shape()
      reads this, tables
    {
      && |tables| == MAXTYPES && env.Sound()
      && Typed(lists, clients) && NetworksAreValid(env, clients)
      && (forall t :: 0 <= t < MAXTYPES ==> tables[t].kind == t && tables[t].list == lists[t])
      && (forall t, c :: 0 <= t < MAXTYPES && c in clients[t] ==> c in known)
      && (forall c :: c in known ==> 0 <= c.kind < MAXTYPES && c in clients[c.kind])
    }

    /** Every reference count is the number of listed exports that point to the client. */
    ghost predicate Counted()
      requires Shape()
      reads this, tables, known`count
    {
      forall c :: c in known ==> c.count == Refs(lists[c.kind], c)
    }

    ghost predicate Valid()
      reads this, tables, known`count
    {
      && Shape()
      && (forall t :: 0 <= t < MAXTYPES ==> tables[t].Valid())
      && Counted()
    }

    /** What the users of one list rely on. */
    lemma Facts(t: int)
      requires Valid() && 0 <= t < MAXTYPES
      ensures |lists| == MAXTYPES && |clients| == MAXTYPES && |tables| == MAXTYPES
      ensures tables[t].Valid() && tables[t].list == lists[t] && Distinct(lists[t])
      ensures forall e :: e in lists[t] ==> e.client.kind == t && e.client in known
    {
      tables[t].Walkable(0);
    }

    lemma KnownKind(c: Client)
      requires Valid() && c in known
      ensures 0 <= c.kind < MAXTYPES
    {
    }

    lemma IsTyped()
      requires Valid()
      ensures Typed(lists, clients)
    {
    }

    constructor (env: Env)
      requires env.Sound()
      ensures Valid() && this.env == env
      ensures lists == NoLists() && clients == NoLists()
      ensures fresh(tables) && known == {}
    {
      var fresh6 := NewTables();
      this.env := env;
      tables := fresh6;
      clients := NoLists();
      lists := NoLists();
      known := {};
    }

    static method NewTables() returns (ts: seq<HashTable>)
      ensures |ts| == MAXTYPES && fresh(ts)
      ensures forall i :: 0 <= i < MAXTYPES ==> ts[i].Valid() && ts[i].kind == i && ts[i].list == []
    {
      ts := [];
      for n := 0 to MAXTYPES
        invariant |ts| == n && fresh(ts)
        invariant forall i :: 0 <= i < n ==> ts[i].Valid() && ts[i].kind == i && ts[i].list == []
      {
        var t := new HashTable(n);
        ts := ts + [t];
      }
    }

    /** client_add of a client that was just made. */
    method AddClient(c: Client)
      requires Valid() && 0 <= c.kind < MAXTYPES && c !in known && c.count == 0
      requires c.kind == SUBNETWORK ==> env.subnetValid(c.hostname)
      modifies this`clients, this`known
      ensures Valid() && clients == AddedClient(old(clients), c) && known == old(known) + {c}
    {
      hide HashTable.Valid, Unique;
      AddClientKeepsTyped(lists, clients, c);
      clients := AddedClient(clients, c);
      known := known + {c};
    }

    /**
     client_lookup (client.c:268-314): the client the lists already hold, a new
     one, or none if the name does not resolve or is not a valid network.
     */
    method ClientLookup(hname: string, canonical: bool) returns (c: Client?)
      requires Valid()
      modifies this`clients, this`known
      ensures Valid() && LookedUp(env, old(clients), clients, hname, canonical, c)
      ensures c != null ==> c in known && c.kind == GetType(hname) && Find(env, clients, hname, canonical) == Found(c)
      ensures c == null ==> !Find(env, clients, hname, canonical).Found?
      ensures c != null <==> AcceptedAs(env, hname, canonical)
      ensures known == if c == null then old(known) else old(known) + {c}
      ensures c != null && c !in old(known) ==> fresh(c) && c.matchGen == 0
      ensures forall path :: c != null && NoEntry(env, lists, old(clients), hname, path, canonical) ==>
                NoEntry(env, lists, clients, hname, path, canonical)
      ensures AllAnchored(env, lists, old(clients)) ==> AllAnchored(env, lists, clients)
    {
      match Find(env, clients, hname, canonical)
      case Unresolved => c := null;
      case Found(x) => c := x;
      case Missing(kind, name, addrs) =>
        if kind == SUBNETWORK && !env.subnetValid(name) {
          c := null;
        } else {
          c := new Client(kind, name, addrs);
          AddClient(c);
        }
      LookupIsStable(env, lists, old(clients), clients, hname, canonical, c);
      LookedUpExactlyWhenAccepted(env, old(clients), clients, hname, canonical, c);
    }

    /** export_lookup (export.c:359-381): the first entry with that client and path. */
    method Lookup(hname: string, path: string, canonical: bool) returns (c: Client?, e: Option<Export>)
      requires Valid()
      modifies this`clients, this`known
      ensures Valid() && LookedUp(env, old(clients), clients, hname, canonical, c)
      ensures fresh(known - old(known)) && forall x :: x in known - old(known) ==> x.matchGen == 0
      ensures known == if c == null then old(known) else old(known) + {c}
      ensures c != null <==> AcceptedAs(env, hname, canonical)
      ensures c != null ==> c in known && Find(env, clients, hname, canonical) == Found(c)
      ensures e == if c == null then None else FirstEntry(lists[c.kind], c, path)
      ensures e.None? ==> NoEntry(env, lists, clients, hname, path, canonical)
      ensures AllAnchored(env, lists, old(clients)) ==> AllAnchored(env, lists, clients)
    {
      hide HashTable.Valid, Place, Refs, Unique;
      c := ClientLookup(hname, canonical);
      if c == null {
        e := None;
      } else {
        e := tables[c.kind].Lookup(c, path);
      }
    }

    /** export_init's reference and export_add: link an entry for a known client. */
    method Link(e: Export)
      requires Valid() && e.client in known && e !in lists[e.client.kind]
      modifies this`lists, tables, e.client`count
      ensures Valid() && lists == Added(old(lists), e)
    {
      e.client.count := e.client.count + 1;
      Insert(e);
    }

    /** export_add into the table of the client's type; the new reference has been counted. */
    method Insert(e: Export)
      requires Shape() && (forall t :: 0 <= t < MAXTYPES ==> tables[t].Valid())
      requires e.client in known && e !in lists[e.client.kind]
      requires forall c :: c in known ==> c.count == Refs(lists[c.kind], c) + if c == e.client then 1 else 0
      modifies this`lists, tables
      ensures Valid() && lists == Added(old(lists), e)
    {
      hide HashTable.Valid, Place, Refs, Unique;
      AddKeepsTyped(lists, clients, e);
      lists := Added(lists, e);
      AddToTable(e);
    }

    method AddToTable(e: Export)
      requires |tables| == MAXTYPES && 0 <= e.client.kind < MAXTYPES && e !in tables[e.client.kind].list
      requires forall t :: 0 <= t < MAXTYPES ==> tables[t].kind == t && tables[t].Valid()
      modifies tables
      ensures forall t :: 0 <= t < MAXTYPES ==> tables[t].Valid()
      ensures forall t :: 0 <= t < MAXTYPES ==>
                tables[t].list == if t == e.client.kind then Place(old(tables[t].list), e) else old(tables[t].list)
    {
      hide HashTable.Valid, Place;
      tables[e.client.kind].Add(e);
    }

    /**
     export_create (export.c:227-242).  It does not look for the key: keys stay
     unique when the caller did and found none.
     */
    method Create(ent: ExportEnt, canonical: bool) returns (e: Export?)
      requires Valid()
      modifies this`clients, this`known, this`lists, tables, known`count
      ensures Valid() && fresh(known - old(known)) && forall c :: c in known - old(known) ==> c.matchGen == 0
      ensures known == if e == null then old(known) else old(known) + {e.client}
      ensures LookedUp(env, old(clients), clients, ent.hostname, canonical, if e == null then null else e.client)
      ensures e != null <==> AcceptedAs(env, ent.hostname, canonical)
      ensures e == null ==> lists == old(lists)
      ensures e != null ==> fresh(e) && e.ent == ent && e.fsid == ent.fsid && e.client in known
                            && lists == Added(old(lists), e)
      ensures !canonical && AllAnchored(env, old(lists), old(clients)) ==> AllAnchored(env, lists, clients)
      ensures AllUnique(old(lists)) && NoEntry(env, old(lists), old(clients), ent.hostname, ent.path, canonical) ==>
                AllUnique(lists)
    {
      hide HashTable.Valid, Place, Refs, Unique, AllUnique, LookedUp, NoEntry, AllAnchored, Added;
      var c := ClientLookup(ent.hostname, canonical);
      if c == null {
        return null;
      }
      e := CreateFor(c, ent);
      if !canonical { AddKeepsAnchored(env, old(lists), clients, e); }
      if AllUnique(old(lists)) && NoEntry(env, old(lists), old(clients), ent.hostname, ent.path, canonical) {
        FoundHasNoEntry(env, old(lists), clients, ent.hostname, ent.path, canonical, c);
        AddKeepsUniqueExactlyWhen(old(lists), e);
      }
    }

    method CreateFor(c: Client, ent: ExportEnt) returns (e: Export)
      requires Valid() && c in known
      modifies this`lists, tables, c`count
      ensures Valid() && fresh(e) && e.client == c && e.ent == ent && e.fsid == ent.fsid && e !in old(lists)[c.kind]
      ensures lists == Added(old(lists), e)
    {
      e := new Export(c, ent);
      Link(e);
    }

    /**
     export_dup (export.c:267-293): the copy belongs to a new client that
     stands for the one host, and that client's verdict has not been cached.
     */
    method Dup(exp: Export, ai: AddrInfo) returns (e: Export)
      requires Valid()
      modifies this`clients, this`known, this`lists, tables
      ensures Valid() && fresh(e) && fresh(e.client) && known == old(known) + {e.client}
      ensures e.client.kind == FQDN && e.client.hostname == ai.canonname && e.client.addrs == Truncated(ai.addrs)
      ensures e.client.matchGen == 0 && e.client.count == 1
      ensures e.ent == exp.ent.(fsid := exp.fsid)
      ensures clients == AddedClient(old(clients), e.client) && lists == Added(old(lists), e)
      ensures AllUnique(old(lists)) ==> AllUnique(lists)
    {
      hide HashTable.Valid, Place, Unique, AllUnique;
      var c := new Client(FQDN, ai.canonname, Truncated(ai.addrs));
      AddClient(c);
      NoRefs(lists[FQDN], c);
      assert FirstEntry(lists[FQDN], c, exp.ent.path).None?;
      e := CreateFor(c, exp.ent.(fsid := exp.fsid));
      AddKeepsTyped(old(lists), clients, e);
      if AllUnique(old(lists)) { AddKeepsUniqueExactlyWhen(old(lists), e); }
    }

    /** The walk of export_find along one list. */
    method FindInTable(t: int, ai: AddrInfo, path: string) returns (r: Option<Export>)
      requires Valid() && 0 <= t < MAXTYPES
      ensures r.None? ==> NoneSuits(env, lists[t], ai, path)
      ensures r.Some? ==> exists i :: 0 <= i < |lists[t]| && lists[t][i] == r.value && Suits(env, r.value, ai, path)
                                      && NoneSuits(env, lists[t][..i], ai, path)
    {
      hide ExportList.Valid, HashTable.Valid, Distinct, Check;
      Facts(t);
      tables[t].Walkable(0);
      var exp := tables[t].head;
      ghost var i, list := 0, lists[t];
      while exp != null
        invariant 0 <= i <= |list| && exp == if i < |list| then list[i] else null
        invariant NoneSuits(env, list[..i], ai, path)
        decreases |list| - i
      {
        if Suits(env, exp, ai, path) {
          return Some(exp);
        }
        tables[t].Walkable(i);
        exp := tables[t].next[exp];
        assert list[..i + 1] == list[..i] + [list[i]];
        i := i + 1;
      }
      assert list[..i] == list;
      r := None;
    }

    /** The nested walk of export_find (export.c:337-345). */
    method FindSuiting(ai: AddrInfo, path: string) returns (r: Option<Export>, t: int, ghost i: int)
      requires Valid()
      ensures r.None? ==> forall u :: 0 <= u < MAXTYPES ==> NoneSuits(env, lists[u], ai, path)
      ensures r.Some? ==> FirstSuiting(env, lists, ai, path, t, i) && lists[t][i] == r.value
    {
      hide ExportList.Valid, NoneSuits, Check;
      Facts(0);
      r, t, i := None, 0, 0;
      while t < MAXTYPES
        invariant 0 <= t <= MAXTYPES && r.None?
        invariant forall u :: 0 <= u < t ==> NoneSuits(env, lists[u], ai, path)
      {
        r := FindInTable(t, ai, path);
        if r.Some? {
          i :| 0 <= i < |lists[t]| && lists[t][i] == r.value && Suits(env, r.value, ai, path)
               && NoneSuits(env, lists[t][..i], ai, path);
          return;
        }
        t := t + 1;
      }
    }

    /**
     export_find (export.c:331-348): the first entry that suits the path and the
     address, if it is for a single host; otherwise a copy of it for this host.
     */
    method ExportFind(ai: AddrInfo, path: string) returns (r: Option<Export>)
      requires Valid()
      modifies this`clients, this`known, this`lists, tables
      ensures Valid() && old(known) <= known && fresh(known - old(known))
      ensures forall c :: c in known - old(known) ==> c.matchGen == 0
      ensures r.None? <==> forall u :: 0 <= u < MAXTYPES ==> NoneSuits(env, old(lists)[u], ai, path)
      ensures r.Some? ==> r.value.ent.path == path && r.value.client.kind == FQDN
      ensures r.Some? && !fresh(r.value) ==>
                exists i :: FirstSuiting(env, old(lists), ai, path, FQDN, i) && r.value == old(lists)[FQDN][i]
      ensures r.Some? && fresh(r.value) ==>
                && fresh(r.value.client) && r.value.client.hostname == ai.canonname
                && r.value.client.addrs == Truncated(ai.addrs)
                && exists t, i :: FirstSuiting(env, old(lists), ai, path, t, i) && t != FQDN
                                  && r.value.ent == old(lists)[t][i].ent.(fsid := old(lists)[t][i].fsid)
      ensures lists == if r.Some? && fresh(r.value) then Added(old(lists), r.value) else old(lists)
      ensures clients == if r.Some? && fresh(r.value) then AddedClient(old(clients), r.value.client) else old(clients)
    {
      hide ExportList.Valid, HashTable.Valid, Place, Unique, AllUnique, FirstSuiting, NoneSuits;
      var t;
      ghost var i;
      r, t, i := FindSuiting(ai, path);
      if r.Some? {
        SuitingIs(ai, path, t, i);
        assert r.value == old(lists)[t][i] && !fresh(r.value);
      }
      if r.None? || t == FQDN {
        return;
      }
      var e := Dup(r.value, ai);
      r := Some(e);
    }

    lemma SuitingIs(ai: AddrInfo, path: string, t: int, i: int)
      requires Valid() && FirstSuiting(env, lists, ai, path, t, i)
      ensures 0 <= t < MAXTYPES == |lists| && 0 <= i < |lists[t]|
      ensures lists[t][i].ent.path == path && lists[t][i].client.kind == t && !NoneSuits(env, lists[t], ai, path)
    {
      hide HashTable.Valid;
      assert lists[t][i] in lists[t];
    }

    /** client_release (client.c:355-361); the source aborts when the count is not positive. */
    static method Release(c: Client)
      requires c.count > 0
      modifies c`count
      ensures c.count == old(c.count) - 1
    {
      c.count := c.count - 1;
    }

    /** Releasing every entry of one list takes exactly its references away. */
    method ReleaseTable(t: int)
      requires Shape() && 0 <= t < MAXTYPES && tables[t].Valid()
      requires forall c :: c in known && c.kind == t ==> c.count == Refs(lists[t], c)
      modifies known`count
      ensures forall c :: c in known ==> c.count == if c.kind == t then 0 else old(c.count)
    {
      var table := tables[t];
      var exp := table.head;
      ghost var i := 0;
      assert table.list[0..] == lists[t];
      while exp != null
        invariant 0 <= i <= |table.list|
        invariant exp == if i < |table.list| then table.list[i] else null
        invariant forall c :: c in known ==> c.count == if c.kind == t then Refs(table.list[i..], c) else old(c.count)
        decreases |table.list| - i
      {
        assert exp in lists[t];
        assert table.list[i..][1..] == table.list[i + 1..];
        Release(exp.client);
        exp := table.next[exp];
        i := i + 1;
      }
      assert table.list[i..] == [];
    }

    method FreeTable(t: int)
      requires Valid() && 0 <= t < MAXTYPES
      modifies this`lists, tables[t], known`count
      ensures Valid() && lists == old(lists)[t := []]
    {
      hide HashTable.Valid, Unique, Typed;
      ReleaseTable(t);
      ClearKeepsTyped(lists, clients, t);
      lists := lists[t := []];
      ClearTable(t);
    }

    method ClearTable(t: int)
      requires |tables| == MAXTYPES && 0 <= t < MAXTYPES
      requires forall u :: 0 <= u < MAXTYPES ==> tables[u].kind == u && tables[u].Valid()
      modifies tables[t]
      ensures forall u :: 0 <= u < MAXTYPES ==> tables[u].Valid()
      ensures forall u :: 0 <= u < MAXTYPES ==> tables[u].list == if u == t then [] else old(tables[u].list)
    {
      hide HashTable.Valid;
      tables[t].Clear();
    }

    /** export_freeall (export.c:396-415): no count ever goes below zero, and all of them end at zero. */
    method FreeAll()
      requires Valid()
      modifies this`lists, this`clients, this`known, tables, known`count
      ensures Valid() && known == {}
      ensures lists == NoLists() && clients == NoLists()
      ensures forall c :: c in old(known) ==> c.count == 0
    {
      hide HashTable.Valid, Typed, Refs;
      ReleaseAll();
      NoListsNoReferences();
      NoListsAreTyped();
      clients := NoLists();
      known := {};
    }

    lemma NoListsNoReferences()
      requires Valid() && lists == NoLists()
      ensures forall c :: c in known ==> c.count == 0
    {
      hide HashTable.Valid;
      assert forall c :: c in known ==> c.count == Refs(lists[c.kind], c);
    }

    lemma NoListsAreTyped()
      ensures Typed(NoLists(), NoLists())
    {
    }

    method ReleaseAll()
      requires Valid()
      modifies this`lists, tables, known`count
      ensures Valid() && lists == NoLists()
    {
      hide HashTable.Valid, Counted, Refs, Unique;
      for t := 0 to MAXTYPES
        invariant Valid() && |lists| == MAXTYPES && forall u :: 0 <= u < t ==> lists[u] == []
      {
        FreeTable(t);
      }
    }
  }
}
