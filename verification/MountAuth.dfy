/**
 Authenticating a MOUNT request (support/export/auth.c): clean the path, then
 search its ancestors from the longest down.
 */
module MountAuth {
  import opened Wrappers
  import opened CStrings
  import opened Clients
  import opened ClientNames
  import opened ExportTable
  import opened Exports
  import opened ExportLookup
  import opened Paths

  const MAXPATHLEN := 4096
  const IPPORT_RESERVED := 1024

  // ----- cleaning a path ---------------------------------------------------

  /** Only the last slash of a run is kept. */
  function Collapse(s: string): string {
    if s == "" then ""
    else if s[0] == '/' && 1 < |s| && s[1] == '/' then Collapse(s[1..])
    else [s[0]] + Collapse(s[1..])
  }

  /** Trailing slashes go, but never the first character. */
  function Strip(s: string): string {
    if 1 < |s| && s[|s| - 1] == '/' then Strip(s[..|s| - 1]) else s
  }

  function Cleaned(s: string): string { Strip(Collapse(s)) }

  lemma {:induction false} CollapseCleans(s: string)
    ensures NoDoubleSlash(Collapse(s)) && Components(Collapse(s)) == Components(s)
    ensures s != "" ==> Collapse(s) != "" && Collapse(s)[0] == s[0]
  {
    if s == "" {
    } else if s[0] == '/' && 1 < |s| && s[1] == '/' {
      CollapseCleans(s[1..]);
    } else {
      CollapseCleans(s[1..]);
      assert s == [s[0]] + s[1..];
      SameBehind(s[0], Collapse(s[1..]), s[1..]);
    }
  }

  /** A character in front of two paths that start alike and have the same components. */
  lemma {:induction false} SameBehind(c: char, a: string, b: string)
    requires Components(a) == Components(b) && (a == "" <==> b == "") && (a != "" ==> a[0] == b[0])
    ensures Components([c] + a) == Components([c] + b)
  {
    assert ([c] + a)[1..] == a && ([c] + b)[1..] == b;
    if c != '/' {
      FirstBehind(c, a);
      FirstBehind(c, b);
      if a != "" && a[0] != '/' {
        assert Components(a)[0] == First(a) && Components(a)[1..] == Components(a[|First(a)|..]);
        assert Components(b)[0] == First(b) && Components(b)[1..] == Components(b[|First(b)|..]);
      }
    }
  }

  lemma FirstBehind(c: char, a: string)
    requires c != '/'
    ensures First([c] + a) == [c] + First(a) && ([c] + a)[|First([c] + a)|..] == a[|First(a)|..]
  {
    assert ([c] + a)[1..] == a;
  }

  lemma {:induction false} StripCleans(s: string)
    requires s != "" && NoDoubleSlash(s)
    ensures Strip(s) != "" && Strip(s)[0] == s[0] && NoDoubleSlash(Strip(s))
    ensures 1 < |Strip(s)| ==> Strip(s)[|Strip(s)| - 1] != '/'
    ensures Components(Strip(s)) == Components(s)
    ensures |Strip(s)| <= |s| && Strip(s) == s[..|Strip(s)|]
  {
    if 1 < |s| && s[|s| - 1] == '/' {
      StripCleans(s[..|s| - 1]);
      assert s == s[..|s| - 1] + "/";
      TrailingSlash(s[..|s| - 1]);
    }
  }

  lemma TrailingSlash(s: string)
    ensures Components(s + "/") == Components(s)
  {
    ComponentsSplit(s, "/");
    assert "/"[1..] == "";
  }

  /** Cleaning an absolute path gives a clean path with the same components. */
  lemma {:induction false} CleanedIsClean(s: string)
    requires s != "" && s[0] == '/'
    ensures Clean(Cleaned(s)) && Components(Cleaned(s)) == Components(s)
  {
    CollapseCleans(s);
    StripCleans(Collapse(s));
  }

  /** auth_fixpath (auth.c:390-402): in place, on the first `n` characters of the buffer. */
  method FixPath(buf: array<char>, n: nat) returns (m: nat)
    requires n <= buf.Length
    modifies buf
    ensures m <= n && buf[..m] == Cleaned(old(buf[..n]))
  {
    m := CollapseInPlace(buf, n);
    ghost var s := buf[..m];
    while m > 1 && buf[m - 1] == '/'
      invariant m <= n && Strip(buf[..m]) == Strip(s)
    {
      assert buf[..m][..m - 1] == buf[..m - 1];
      m := m - 1;
    }
  }

  method CollapseInPlace(buf: array<char>, n: nat) returns (m: nat)
    requires n <= buf.Length
    modifies buf
    ensures m <= n && buf[..m] == Collapse(old(buf[..n]))
  {
    ghost var s := buf[..n];
    ghost var kept := "";
    m := 0;
    assert s[0..] == s;
    for sp := 0 to n
      invariant m <= sp && kept == buf[..m]
      invariant kept + Collapse(s[sp..]) == Collapse(s)
      invariant forall i :: sp <= i < n ==> buf[i] == s[i]
    {
      CollapseStep(s, sp, kept);
      if buf[sp] != '/' || sp + 1 == n || buf[sp + 1] != '/' {
        buf[m] := buf[sp];
        m := m + 1;
        kept := kept + [s[sp]];
      }
    }
    assert s[n..] == "" && kept + "" == kept;
  }

  lemma CollapseStep(s: string, sp: nat, kept: string)
    requires sp < |s|
    ensures kept + Collapse(s[sp..]) ==
              if s[sp] != '/' || sp + 1 == |s| || s[sp + 1] != '/' then kept + [s[sp]] + Collapse(s[sp + 1..])
              else kept + Collapse(s[sp + 1..])
  {
    assert s[sp..][1..] == s[sp + 1..];
  }

  // ----- the search --------------------------------------------------------

  /** The entry the MOUNT protocol may use for exactly this path: the first real one for the caller. */
  ghost predicate Usable(q: Query, e: Export, path: string) {
    e.ent.path == path && Verdict(q, e.client) && !e.ent.v4root
  }

  ghost function FirstUsable(q: Query, entries: seq<Export>, path: string): (r: Option<Export>)
    ensures r.Some? ==> r.value in entries && Usable(q, r.value, path)
    ensures r.None? ==> forall e :: e in entries ==> !Usable(q, e, path)
  {
    if entries == [] then None
    else
      var n := |entries| - 1;
      var r := FirstUsable(q, entries[..n], path);
      if r.Some? then r else if Usable(q, entries[n], path) then Some(entries[n]) else None
  }

  /** The ancestor of length `n` is usable, and no longer one is. */
  ghost predicate LongestUsable(q: Query, entries: seq<Export>, p: string, n: nat) {
    && AncestorLength(p, n) && FirstUsable(q, entries, p[..n]).Some?
    && forall k: nat :: n < k && AncestorLength(p, k) ==> FirstUsable(q, entries, p[..k]).None?
  }

  ghost predicate NoneUsable(q: Query, entries: seq<Export>, p: string) {
    forall k: nat :: AncestorLength(p, k) ==> FirstUsable(q, entries, p[..k]).None?
  }

  datatype AuthError = BadPath | UnknownHost | NotExported | IllegalPort

  datatype Outcome = Granted(exp: Export) | Refused(error: AuthError)

  /** auth_authenticate_newcache (auth.c:273-291): the walk outside a bracket, where no verdict is cached. */
  method Newcache(db: ExportList, cache: MatchCache, q: Query, path: string) returns (r: Option<Export>)
    requires db.Valid() && !cache.active
    modifies db.known`matchGen, db.known`matched
    ensures r == FirstUsable(q, Concat(db.lists), path)
    ensures forall c :: c in db.known ==> c.matchGen == old(c.matchGen) && c.matched == old(c.matched)
  {
    hide ExportList.Valid, HashTable.Valid, Unique, Distinct, Verdict;
    db.Facts(0);
    r := None;
    var t := 0;
    while r.None? && t < MAXTYPES
      invariant 0 <= t <= MAXTYPES && r == FirstUsable(q, Concat(db.lists[..t]), path)
      invariant forall c :: c in db.known ==> c.matchGen == old(c.matchGen) && c.matched == old(c.matched)
      decreases MAXTYPES - t
    {
      r := NewcacheTable(db, cache, q, path, t);
      UsableInConcat(q, Concat(db.lists[..t]), db.lists[t], path);
      ConcatStep(db.lists, t);
      t := t + 1;
    }
    UsableEarly(q, db.lists, t, path);
  }

  lemma {:induction false} UsableInConcat(q: Query, a: seq<Export>, b: seq<Export>, path: string)
    ensures FirstUsable(q, a + b, path) ==
              if FirstUsable(q, a, path).Some? then FirstUsable(q, a, path) else FirstUsable(q, b, path)
  {
    if b == [] {
      assert a + b == a;
    } else {
      var n := |b| - 1;
      assert (a + b)[..|a + b| - 1] == a + b[..n];
      UsableInConcat(q, a, b[..n], path);
    }
  }

  lemma {:induction false} UsableEarly(q: Query, lists: seq<seq<Export>>, t: nat, path: string)
    requires t <= |lists| && (FirstUsable(q, Concat(lists[..t]), path).Some? || t == |lists|)
    ensures FirstUsable(q, Concat(lists), path) == FirstUsable(q, Concat(lists[..t]), path)
    decreases |lists| - t
  {
    if t == |lists| {
      assert lists[..t] == lists;
    } else {
      ConcatStep(lists, t);
      UsableInConcat(q, Concat(lists[..t]), lists[t], path);
      UsableEarly(q, lists, t + 1, path);
    }
  }

  lemma EmptyUsable(q: Query, path: string)
    ensures FirstUsable(q, [], path) == None
  {
  }

  lemma UsableAt(q: Query, list: seq<Export>, i: nat, path: string)
    requires i < |list| && FirstUsable(q, list[..i], path).None?
    ensures Usable(q, list[i], path) ==> FirstUsable(q, list, path) == Some(list[i])
    ensures !Usable(q, list[i], path) ==> FirstUsable(q, list[..i + 1], path).None?
  {
    hide Usable;
    assert list[..i + 1][..i] == list[..i];
    assert list == list[..i + 1] + list[i + 1..];
    UsableInConcat(q, list[..i + 1], list[i + 1..], path);
  }

  method NewcacheTable(db: ExportList, cache: MatchCache, q: Query, path: string, t: int) returns (r: Option<Export>)
    requires db.Valid() && !cache.active && 0 <= t < MAXTYPES
    modifies db.known`matchGen, db.known`matched
    ensures r == FirstUsable(q, db.lists[t], path)
    ensures forall c :: c in db.known ==> c.matchGen == old(c.matchGen) && c.matched == old(c.matched)
  {
    hide ExportList.Valid, HashTable.Valid, Unique, Distinct, Verdict, FirstUsable;
    db.Facts(t);
    EmptyUsable(q, path);
    db.tables[t].Walkable(0);
    var exp := db.tables[t].head;
    ghost var i, list := 0, db.lists[t];
    while exp != null
      invariant 0 <= i <= |list| && exp == if i < |list| then list[i] else null
      invariant FirstUsable(q, list[..i], path).None?
      invariant forall c :: c in db.known ==> c.matchGen == old(c.matchGen) && c.matched == old(c.matched)
      decreases |list| - i
    {
      UsableAt(q, list, i, path);
      if exp.ent.path == path {
        var m := cache.ClientMatches(q, exp.client);
        if m && !exp.ent.v4root {
          return Some(exp);
        }
      }
      db.tables[t].Walkable(i);
      exp := db.tables[t].next[exp];
      i := i + 1;
    }
    assert list[..i] == list;
    r := None;
  }

  /** auth_authenticate_internal (auth.c:294-311): a matching entry whose port rule fails is refused outright. */
  method Internal(db: ExportList, cache: MatchCache, q: Query, who: Option<string>, port: nat,
                  path: string)
    returns (r: Outcome)
    requires db.Valid() && !cache.active && (who.Some? ==> who.value == q.dom)
    modifies db.known`matchGen, db.known`matched
    ensures forall c :: c in db.known ==> c.matchGen == old(c.matchGen) && c.matched == old(c.matched)
    ensures who.None? ==> r == Refused(UnknownHost)
    ensures who.Some? ==>
              match FirstUsable(q, Concat(db.lists), path)
              case None => r == Refused(NotExported)
              case Some(e) => r == if e.ent.insecurePort || port < 1024 then Granted(e) else Refused(IllegalPort)
  {
    hide ExportList.Valid, FirstUsable;
    if who.None? {
      return Refused(UnknownHost);
    }
    var e := Newcache(db, cache, q, path);
    if e.None? {
      return Refused(NotExported);
    }
    if !e.value.ent.insecurePort && port >= IPPORT_RESERVED {
      return Refused(IllegalPort);
    }
    r := Granted(e.value);
  }

  function Decide(e: Option<Export>, port: nat): Outcome {
    match e
    case None => Refused(NotExported)
    case Some(x) => if !x.ent.insecurePort && port >= IPPORT_RESERVED then Refused(IllegalPort) else Granted(x)
  }

  /** The position of the last slash of a path that starts with one (strrchr). */
  function LastSlash(p: string, n: nat): (k: nat)
    requires 0 < n <= |p| && p[0] == '/'
    ensures k < n && p[k] == '/' && forall i :: k < i < n ==> p[i] != '/'
  {
    if p[n - 1] == '/' then n - 1 else LastSlash(p, n - 1)
  }

  /** The longest usable ancestor decides, and there may be none. */
  ghost predicate Answered(q: Query, entries: seq<Export>, p: string, port: nat, r: Outcome) {
    if NoneUsable(q, entries, p) then r == Refused(NotExported)
    else exists n: nat :: LongestUsable(q, entries, p, n) && r == Decide(FirstUsable(q, entries, p[..n]), port)
  }

  /** There is only one longest usable ancestor, so there is only one answer. */
  lemma AnswerIsUnique(q: Query, entries: seq<Export>, p: string, port: nat, r: Outcome, r': Outcome)
    requires Answered(q, entries, p, port, r) && Answered(q, entries, p, port, r')
    ensures r == r'
  {
    hide FirstUsable;
    if !NoneUsable(q, entries, p) {
      var n: nat :| LongestUsable(q, entries, p, n) && r == Decide(FirstUsable(q, entries, p[..n]), port);
      var n': nat :| LongestUsable(q, entries, p, n') && r' == Decide(FirstUsable(q, entries, p[..n']), port);
      assert n == n';
    }
  }

  lemma LongestAnswers(q: Query, entries: seq<Export>, p: string, port: nat, n: nat)
    requires LongestUsable(q, entries, p, n)
    ensures Answered(q, entries, p, port, Decide(FirstUsable(q, entries, p[..n]), port))
  {
    hide FirstUsable;
  }

  /** A real entry for the caller, at the path or above it. */
  ghost predicate Serves(q: Query, e: Export, path: string) {
    !e.ent.v4root && Verdict(q, e.client) && Clean(e.ent.path) && Components(e.ent.path) <= Components(path)
  }

  /** entries[i] serves the path, and every other that does is above it or later for the same directory. */
  ghost predicate ServesNearest(q: Query, entries: seq<Export>, path: string, i: nat) {
    && i < |entries| && Serves(q, entries[i], path)
    && forall j :: 0 <= j < |entries| && Serves(q, entries[j], path) ==>
        || Components(entries[j].ent.path) < Components(entries[i].ent.path)
        || (entries[j].ent.path == entries[i].ent.path && i <= j)
  }

  /**
   What a request is answered: it is granted by the nearest entry if that takes
   any port or the port is reserved, refused for the port otherwise, and not
   exported if no entry serves the path.
   */
  ghost predicate Decided(q: Query, entries: seq<Export>, path: string, port: nat, r: Outcome) {
    && (r == Refused(NotExported) <==> forall e :: e in entries ==> !Serves(q, e, path))
    && (forall i: nat :: ServesNearest(q, entries, path, i) ==>
          r == if entries[i].ent.insecurePort || port < 1024 then Granted(entries[i]) else Refused(IllegalPort))
    && (r.Granted? || r == Refused(IllegalPort) ==> exists i: nat :: ServesNearest(q, entries, path, i))
    && (r.Granted? || r.error == NotExported || r.error == IllegalPort)
  }

  /** The entries that serve a clean path are those that are usable for one of the lengths it is cut at. */
  lemma ServesIsUsable(q: Query, e: Export, p: string)
    requires Clean(p)
    ensures Serves(q, e, p) <==> exists n: nat :: AncestorLength(p, n) && Usable(q, e, p[..n])
  {
    hide Verdict, Clean, Components;
    TriesExactlyTheAncestors(p, e.ent.path);
  }

  /** FirstUsable finds the first one. */
  lemma {:induction false} FirstUsableIsFirst(q: Query, entries: seq<Export>, path: string) returns (i: nat)
    requires FirstUsable(q, entries, path).Some?
    ensures i < |entries| && FirstUsable(q, entries, path) == Some(entries[i]) && Usable(q, entries[i], path)
    ensures forall j :: 0 <= j < i ==> !Usable(q, entries[j], path)
  {
    hide Usable;
    var n := |entries| - 1;
    if FirstUsable(q, entries[..n], path).Some? {
      i := FirstUsableIsFirst(q, entries[..n], path);
      assert forall j :: 0 <= j < n ==> entries[..n][j] == entries[j];
    } else {
      i := n;
      assert forall j :: 0 <= j < n ==> entries[j] == entries[..n][j] && entries[j] in entries[..n];
    }
  }

  /** The entry at the longest usable length is the nearest. */
  lemma LongestIsNearest(q: Query, entries: seq<Export>, p: string, n: nat) returns (i: nat)
    requires Clean(p) && LongestUsable(q, entries, p, n)
    ensures ServesNearest(q, entries, p, i) && FirstUsable(q, entries, p[..n]) == Some(entries[i])
  {
    hide Verdict, Clean, Components, FirstUsable, Serves, Usable;
    i := FirstUsableIsFirst(q, entries, p[..n]);
    ServesIsUsable(q, entries[i], p);
    forall j | 0 <= j < |entries| && Serves(q, entries[j], p)
      ensures Components(entries[j].ent.path) < Components(entries[i].ent.path)
              || (entries[j].ent.path == entries[i].ent.path && i <= j)
    {
      ServesIsUsable(q, entries[j], p);
      var k: nat :| AncestorLength(p, k) && Usable(q, entries[j], p[..k]);
      NotLonger(q, entries, p, n, i, j, k);
    }
  }

  lemma NotLonger(q: Query, entries: seq<Export>, p: string, n: nat, i: nat, j: nat, k: nat)
    requires Clean(p) && LongestUsable(q, entries, p, n) && AncestorLength(p, k)
    requires i < |entries| && j < |entries| && Usable(q, entries[i], p[..n]) && Usable(q, entries[j], p[..k])
    requires forall l :: 0 <= l < i ==> !Usable(q, entries[l], p[..n])
    ensures Components(entries[j].ent.path) < Components(entries[i].ent.path)
            || (entries[j].ent.path == entries[i].ent.path && i <= j)
  {
    hide Verdict, Clean, Components;
    assert k <= n by { assert entries[j] in entries; }
    if k < n {
      AncestorsGrow(p, k, n);
    }
  }

  /** A shorter cut of a clean path is an ancestor of a longer one. */
  lemma AncestorsGrow(p: string, k: nat, n: nat)
    requires Clean(p) && AncestorLength(p, k) && AncestorLength(p, n) && k < n
    ensures Components(p[..k]) < Components(p[..n])
  {
    hide Components, NoDoubleSlash;
    AncestorIsClean(p, n);
    AncestorIsClean(p, k);
    assert p[..n][..k] == p[..k] && AncestorLength(p[..n], k);
    AncestorsAreAncestors(p[..n], k);
    ShorterHasFewer(p[..k], p[..n]);
  }

  lemma NearestIsUnique(q: Query, entries: seq<Export>, path: string, i: nat, j: nat)
    requires ServesNearest(q, entries, path, i) && ServesNearest(q, entries, path, j)
    ensures i == j
  {
    hide Serves, Components;
  }

  /** The search's answer is the decision of the nearest entry. */
  lemma AnsweredIsDecided(q: Query, entries: seq<Export>, p: string, port: nat, r: Outcome)
    requires Clean(p) && Answered(q, entries, p, port, r)
    ensures Decided(q, entries, p, port, r)
  {
    hide FirstUsable, Serves, Clean, ServesNearest, Usable;
    if NoneUsable(q, entries, p) {
      forall e | e in entries ensures !Serves(q, e, p) { ServesIsUsable(q, e, p); }
      forall i: nat | ServesNearest(q, entries, p, i) ensures false { NearestServes(q, entries, p, i); }
    } else {
      var n: nat :| LongestUsable(q, entries, p, n) && r == Decide(FirstUsable(q, entries, p[..n]), port);
      var i := LongestIsNearest(q, entries, p, n);
      NearestServes(q, entries, p, i);
      forall j: nat | ServesNearest(q, entries, p, j) ensures j == i { NearestIsUnique(q, entries, p, i, j); }
    }
  }

  lemma NearestServes(q: Query, entries: seq<Export>, p: string, i: nat)
    requires ServesNearest(q, entries, p, i)
    ensures entries[i] in entries && Serves(q, entries[i], p)
  {
    hide Serves;
  }

  /** Every request has exactly one answer. */
  lemma DecisionIsUnique(q: Query, entries: seq<Export>, path: string, port: nat, r: Outcome, r': Outcome)
    ensures Decided(q, entries, path, port, r) && Decided(q, entries, path, port, r') ==> r == r'
  {
    hide Serves, ServesNearest;
  }

  /** The decision looks at the components of the path alone. */
  lemma DecidedByComponents(q: Query, entries: seq<Export>, p: string, path: string, port: nat, r: Outcome)
    requires Components(p) == Components(path) && Decided(q, entries, p, port, r)
    ensures Decided(q, entries, path, port, r)
  {
    hide Verdict, Clean, Components;
    assert forall e :: e in entries ==> Serves(q, e, path) == Serves(q, e, p);
    assert forall i: nat :: ServesNearest(q, entries, path, i) == ServesNearest(q, entries, p, i);
  }

  /** The loop of auth_authenticate (auth.c:338-348). */
  method Search(db: ExportList, cache: MatchCache, q: Query, who: Option<string>, port: nat,
                p: string)
    returns (r: Outcome)
    requires db.Valid() && !cache.active && (who.Some? ==> who.value == q.dom)
    requires p != "" && p[0] == '/'
    modifies db.known`matchGen, db.known`matched
    ensures forall c :: c in db.known ==> c.matchGen == old(c.matchGen) && c.matched == old(c.matched)
    ensures if who.None? then r == Refused(UnknownHost) else Answered(q, Concat(db.lists), p, port, r)
  {
    hide ExportList.Valid, FirstUsable, Concat;
    ghost var entries := Concat(db.lists);
    var n: nat, cut: nat := |p|, 0;
    while true
      invariant AncestorLength(p, n) && (cut == 1 ==> n == 1)
      invariant forall k: nat :: n < k && AncestorLength(p, k) ==> FirstUsable(q, entries, p[..k]).None?
      invariant forall c :: c in db.known ==> c.matchGen == old(c.matchGen) && c.matched == old(c.matched)
      decreases n, if cut == 1 then 0 else 1
    {
      r := Internal(db, cache, q, who, port, p[..n]);
      if r != Refused(NotExported) {
        if who.Some? { LongestAnswers(q, entries, p, port, n); }
        return;
      }
      if cut == 1 {
        return;
      }
      cut := LastSlash(p, n);
      if cut == 0 {
        cut := 1;
      }
      n := cut;
    }
  }

  // ----- the caller --------------------------------------------------------

  /** get_client_hostname (auth.c:137-153): a caller is known by address, or by the names of the clients it matches. */
  function CallerName(useIpaddr: bool, address: string, names: seq<string>): Option<string> {
    if useIpaddr then Some("$" + address)
    else
      match ComposedText(names)
      case None => None
      case Some(n) => Some(if n == "" then "DEFAULT" else n)
  }

  /** The question whether a client stands for the caller; path and same-directory answer play no part in it. */
  function CallerQuery(env: Env, dom: string, ai: AddrInfo): Query { Query(env, dom, "", ai, (_, _) => false) }

  /** A caller that matches a client has a name, which is the sorted list of the names it matches by. */
  lemma CallerNameMeans(env: Env, lists: seq<seq<Client>>, useIpaddr: bool, address: string, ai: AddrInfo)
    ensures var names := Matching(env, AllClients(lists), ai);
            var who := CallerName(useIpaddr, address, names);
            && (useIpaddr ==> who == Some("$" + address))
            && (!useIpaddr ==> (who.None? <==> forall c :: c in AllClients(lists) ==> !Check(env, c, ai)))
            && (!useIpaddr && names == [""] ==> who == Some("DEFAULT"))
            && (!useIpaddr && NameableClients(lists) && who.Some? ==> who == Some(Join(Sort(names), ',')))
  {
    hide Check;
    var names := Matching(env, AllClients(lists), ai);
    if names != [] { MatchingNames(env, AllClients(lists), ai, names[0]); }
    if names == [""] {
      assert names[..0] == [] && ComposedText(names[..0]) == None;
    }
    forall c | c in AllClients(lists) && Check(env, c, ai) ensures names != [] {
      MatchingNames(env, AllClients(lists), ai, c.hostname);
    }
    if NameableClients(lists) && names != [] {
      ComposedForAddress(env, lists, ai);
      JoinIsNotEmpty(env, lists, ai);
    }
  }

  lemma JoinIsNotEmpty(env: Env, lists: seq<seq<Client>>, ai: AddrInfo)
    requires NameableClients(lists) && Matching(env, AllClients(lists), ai) != []
    ensures Join(Sort(Matching(env, AllClients(lists), ai)), ',') != ""
  {
    hide Check;
    var names := Matching(env, AllClients(lists), ai);
    AllNameableClients(lists);
    MatchingNameable(env, AllClients(lists), ai);
    SortNameable(names);
    SortCommaFree(names);
  }

  method GetClientHostname(db: ExportList, useIpaddr: bool, address: string, ai: AddrInfo) returns (who: Option<string>)
    ensures who == CallerName(useIpaddr, address, Matching(db.env, AllClients(db.clients), ai))
    ensures useIpaddr ==> who == Some("$" + address)
    ensures !useIpaddr ==> (who.None? <==> forall c :: c in AllClients(db.clients) ==> !Check(db.env, c, ai))
    ensures !useIpaddr && Matching(db.env, AllClients(db.clients), ai) == [""] ==> who == Some("DEFAULT")
    ensures !useIpaddr && NameableClients(db.clients) && who.Some? ==>
              who == Some(Join(Sort(Matching(db.env, AllClients(db.clients), ai)), ','))
  {
    hide Check;
    CallerNameMeans(db.env, db.clients, useIpaddr, address, ai);
    if useIpaddr {
      return Some("$" + address);
    }
    var n := Compose(db.env, db.clients, ai);
    if n.None? {
      return None;
    }
    who := Some(if n.value == "" then "DEFAULT" else n.value);
  }

  ghost predicate DistinctNames(lists: seq<seq<Client>>) {
    forall x, y :: x in AllClients(lists) && y in AllClients(lists) && x.hostname == y.hostname ==> x == y
  }

  /**
   A client whose name is its own stands for the caller exactly when it matches
   the caller's address; a caller without a name matches no client at all.
   */
  lemma CallerIsWhoMatches(env: Env, lists: seq<seq<Client>>, useIpaddr: bool, address: string, ai: AddrInfo, c: Client)
    requires NameableClients(lists) && DistinctNames(lists) && c in AllClients(lists)
    ensures var who := CallerName(useIpaddr, address, Matching(env, AllClients(lists), ai));
            if who.None? then !Check(env, c, ai) else Verdict(CallerQuery(env, who.value, ai), c) <==> Check(env, c, ai)
  {
    hide Check;
    var names := Matching(env, AllClients(lists), ai);
    ComposedForAddress(env, lists, ai);
    VerdictsAgree(env, lists, ai, c);
    MatchingNames(env, AllClients(lists), ai, c.hostname);
    if names != [] { JoinIsNotEmpty(env, lists, ai); }
  }

  /**
   auth_authenticate (auth.c:313-388).  A relative path, a caller that cannot be
   resolved or one that matches no client is refused; otherwise the longest
   ancestor-or-self of the cleaned path with a real entry for the caller
   decides, by its port rule.  No cached verdict is read or written.
   */
  method Authenticate(db: ExportList, cache: MatchCache, useIpaddr: bool, address: string, ai: AddrInfo,
                      resolved: bool, port: nat, path: string)
    returns (r: Outcome)
    requires db.Valid() && !cache.active
    modifies db.known`matchGen, db.known`matched
    ensures forall c :: c in db.known ==> c.matchGen == old(c.matchGen) && c.matched == old(c.matched)
    ensures path == "" || path[0] != '/' || !resolved ==> r == Refused(BadPath)
    ensures path != "" && path[0] == '/' && resolved ==>
              var who := CallerName(useIpaddr, address, Matching(db.env, AllClients(db.clients), ai));
              if who.None? then r == Refused(UnknownHost)
              else Decided(CallerQuery(db.env, who.value, ai), Concat(db.lists), Truncate(path), port, r)
  {
    hide ExportList.Valid, Answered, Cleaned, Concat, CallerName, Matching, AllClients, Decided, Components, Clean;
    if path == "" || path[0] != '/' {
      return Refused(BadPath);
    }
    var text := Truncate(path);
    var buf := new char[|text|](i requires 0 <= i < |text| => text[i]);
    assert buf[..|text|] == text;
    var m := FixPath(buf, |text|);
    CleanedIsClean(text);
    if !resolved {
      return Refused(BadPath);
    }
    var who := GetClientHostname(db, useIpaddr, address, ai);
    var dom := if who.None? then "" else who.value;
    var q := CallerQuery(db.env, dom, ai);
    r := Search(db, cache, q, who, port, buf[..m]);
    if who.Some? {
      AnsweredIsDecided(q, Concat(db.lists), buf[..m], port, r);
      DecidedByComponents(q, Concat(db.lists), buf[..m], text, port, r);
    }
  }

  /** The buffer holds MAXPATHLEN characters of the requested path. */
  function Truncate(path: string): string { if |path| <= MAXPATHLEN then path else path[..MAXPATHLEN] }
}
