/**
 The NFSv4 pseudo root pass (support/export/v4root.c): every directory on the
 way to a real export gets an entry of its own, so that a client can walk down
 from "/" (the server pseudo file system of section 7.3 of RFC 7530).

 The pass inserts into the very list it walks.
 */
module PseudoRoot {
  import opened Wrappers
  import opened Clients
  import opened ExportTable
  import opened Exports
  import opened Paths

  const ENOMEM := 12

  /** `q` is "/" or a prefix of `path` that ends in front of a slash. */
  ghost predicate IsPrefix(path: string, q: string) {
    q == "/" || exists j :: 1 <= j < |path| && path[j] == '/' && q == path[..j]
  }

  predicate Real(e: Export) { !e.ent.v4root }

  /** The entries that were exported by the administrator, in order. */
  function Reals(list: seq<Export>): seq<Export> {
    if list == [] then []
    else if Real(list[0]) then [list[0]] + Reals(list[1..])
    else Reals(list[1..])
  }

  lemma {:induction false} RealsMembers(list: seq<Export>)
    ensures forall e :: e in Reals(list) <==> e in list && Real(e)
  {
    if list != [] { RealsMembers(list[1..]); }
  }

  /** Every ancestor of `e` has an entry for the client of `e`. */
  ghost predicate Covered(list: seq<Export>, e: Export) {
    forall q :: IsPrefix(e.ent.path, q) ==> FirstEntry(list, e.client, q).Some?
  }

  /** A pseudo export: any port will do, no mount is crossed, and only the root has an fsid, which is 0. */
  predicate IsPseudo(ent: ExportEnt) {
    && ent.v4root && ent.insecurePort && !ent.crossmnt
    && (ent.path == "/" ==> ent.fsid == Some(0)) && (ent.path != "/" ==> ent.fsid == None)
  }

  /** `x` is a pseudo export on the way to some real export of the list, for the same client. */
  ghost predicate Justified(list: seq<Export>, x: Export) {
    IsPseudo(x.ent) && exists e :: e in list && Real(e) && e.client == x.client && IsPrefix(e.ent.path, x.ent.path)
  }

  /** What is new has the fsid it was made with. */
  ghost predicate AsMade(before: seq<Export>, after: seq<Export>)
    reads after`fsid
  {
    forall x :: x in after && x !in before ==> x.fsid == x.ent.fsid
  }

  /** Nothing is lost, replaced or reordered, no key is doubled, and what is new is justified. */
  ghost predicate Extends(before: seq<Export>, after: seq<Export>) {
    && Reals(after) == Reals(before)
    && (forall x :: x in before ==> x in after)
    && (forall x :: x in after ==> x in before || Justified(before, x))
    && (Unique(before) ==> Unique(after))
  }

  // ----- lists -------------------------------------------------------------

  lemma {:induction false} RealsOfConcat(a: seq<Export>, b: seq<Export>)
    ensures Reals(a + b) == Reals(a) + Reals(b)
  {
    if a == [] {
      assert a + b == b;
    } else {
      assert (a + b)[1..] == a[1..] + b;
      RealsOfConcat(a[1..], b);
    }
  }

  lemma RealsFrom(list: seq<Export>, i: nat)
    requires i < |list|
    ensures Reals(list[i..]) == Reals([list[i]]) + Reals(list[i + 1..])
  {
    assert list[i..] == [list[i]] + list[i + 1..];
    RealsOfConcat([list[i]], list[i + 1..]);
  }

  lemma RealsAround(a: seq<Export>, e: Export, b: seq<Export>)
    ensures Reals(a + [e] + b) == Reals(a) + Reals([e]) + Reals(b)
  {
    RealsOfConcat(a, [e]);
    RealsOfConcat(a + [e], b);
  }

  /** Where a real entry stands among the real entries does not depend on the pseudo exports around it. */
  lemma {:induction false} PlaceAmongReals(a: seq<Export>, i: nat, b: seq<Export>, j: nat)
    requires i < |a| && j < |b| && a[i] == b[j] && Real(a[i])
    requires Distinct(a) && Distinct(b) && Reals(a) == Reals(b)
    ensures Reals(a[..i]) == Reals(b[..j]) && Reals(a[i + 1..]) == Reals(b[j + 1..])
  {
    var e := a[i];
    assert Reals([e]) == [e];
    hide Reals;
    assert a == a[..i] + [e] + a[i + 1..] && b == b[..j] + [e] + b[j + 1..];
    RealsAround(a[..i], e, a[i + 1..]);
    RealsAround(b[..j], e, b[j + 1..]);
    RealsMembers(a[..i]);
    RealsMembers(b[..j]);
    SplitAt(Reals(a[..i]), Reals(a[i + 1..]), Reals(b[..j]), Reals(b[j + 1..]), e);
  }

  lemma SplitAt(a: seq<Export>, a': seq<Export>, b: seq<Export>, b': seq<Export>, e: Export)
    requires a + [e] + a' == b + [e] + b' && e !in a && e !in b
    ensures a == b && a' == b'
  {
    var s := a + [e] + a';
    assert s[|a|] == e && s[|b|] == e;
    assert a == s[..|a|] && b == s[..|b|];
    assert a' == s[|a| + 1..] && b' == s[|b| + 1..];
  }

  lemma ExtendsIsReflexive(a: seq<Export>)
    ensures Extends(a, a)
  {
  }

  lemma NothingLost(a: seq<Export>, b: seq<Export>)
    requires Extends(a, b)
    ensures forall e :: e in a ==> e in b
  {
  }

  lemma StaysUnique(a: seq<Export>, b: seq<Export>)
    requires Extends(a, b) && Unique(a)
    ensures Unique(b)
  {
  }

  lemma ExtendsIsTransitive(a: seq<Export>, b: seq<Export>, c: seq<Export>)
    requires Extends(a, b) && Extends(b, c)
    ensures Extends(a, c)
  {
    RealsMembers(a);
    RealsMembers(b);
  }

  lemma CoveredGrows(a: seq<Export>, b: seq<Export>, e: Export)
    requires Extends(a, b) && Covered(a, e)
    ensures Covered(b, e)
  {
  }

  lemma PlaceKeepsReals(list: seq<Export>, x: Export)
    requires x.ent.v4root
    ensures Reals(Place(list, x)) == Reals(list)
  {
    assert Reals([x]) == [];
    hide Reals;
    var k := Behind(list, Bucket(x));
    assert list == list[..k] + list[k..];
    RealsOfConcat(list[..k], list[k..]);
    RealsAround(list[..k], x, list[k..]);
  }

  lemma {:induction false} PlaceExtends(list: seq<Export>, x: Export)
    requires Justified(list, x) && FirstEntry(list, x.client, x.ent.path).None?
    ensures Extends(list, Place(list, x)) && x in Place(list, x)
  {
    hide Unique, Reals;
    var k := Behind(list, Bucket(x));
    InsertMembers(list, k, x);
    if Unique(list) { InsertKeepsUnique(list, k, x); }
    PlaceKeepsReals(list, x);
  }

  // ----- the pass ----------------------------------------------------------

  /** The entry v4root_create makes (v4root.c:110-150). */
  function PseudoEnt(hostname: string, path: string): ExportEnt {
    ExportEnt(hostname, path, true, false, true, if path == "/" then Some(0) else None)
  }

  /** pseudofs_update (v4root.c:174-193): make sure there is an entry at `path` for the client of `source`. */
  method PseudofsUpdate(db: ExportList, path: string, source: Export) returns (ret: int)
    requires db.Valid() && AllAnchored(db.env, db.lists, db.clients)
    requires source.client in db.known && source in db.lists[source.client.kind] && Real(source)
              && IsPrefix(source.ent.path, path)
    modifies db`clients, db`known, db`lists, db.tables, db.known`count
    ensures db.Valid() && AllAnchored(db.env, db.lists, db.clients)
    ensures db.clients == old(db.clients) && db.known == old(db.known)
    ensures ret == 0
    ensures var t := source.client.kind;
            && db.lists == old(db.lists)[t := db.lists[t]]
            && Extends(old(db.lists)[t], db.lists[t]) && AsMade(old(db.lists)[t], db.lists[t])
            && FirstEntry(db.lists[t], source.client, path).Some?
  {
    hide HashTable.Valid, ExportList.Counted, Refs, Unique;
    ghost var t := source.client.kind;
    ghost var before := db.lists[t];
    assert Anchored(db.env, db.clients, source);
    var c, found := db.Lookup(source.ent.hostname, path, false);
    ret := 0;
    if found.None? {
      var e := db.Create(PseudoEnt(source.ent.hostname, path), false);
      if e == null {
        ret := -ENOMEM;
      } else {
        assert Justified(before, e);
        PlaceExtends(before, e);
        InsertMembers(before, Behind(before, Bucket(e)), e);
      }
    }
  }

  /** The next slash of `path` at or behind `from` (strchr). */
  function NextSlash(path: string, from: nat): (r: Option<nat>)
    requires from <= |path|
    ensures r.Some? ==> from <= r.value < |path| && path[r.value] == '/' && '/' !in path[from..r.value]
    ensures r.None? ==> '/' !in path[from..]
    decreases |path| - from
  {
    if from == |path| then None
    else if path[from] == '/' then Some(from)
    else NextSlash(path, from + 1)
  }

  /**
   v4root_add_parents (v4root.c:195-221): cut the path at its start and then at
   every later slash.  A path is never empty: the exports file insists on a
   leading slash.
   */
  method AddParents(db: ExportList, exp: Export) returns (ret: int)
    requires db.Valid() && AllAnchored(db.env, db.lists, db.clients)
    requires exp.client in db.known && exp in db.lists[exp.client.kind] && Real(exp) && exp.ent.path != ""
    modifies db`clients, db`known, db`lists, db.tables, db.known`count
    ensures db.Valid() && AllAnchored(db.env, db.lists, db.clients)
    ensures db.clients == old(db.clients) && db.known == old(db.known)
    ensures db.lists == old(db.lists)[exp.client.kind := db.lists[exp.client.kind]]
    ensures Extends(old(db.lists)[exp.client.kind], db.lists[exp.client.kind])
    ensures AsMade(old(db.lists)[exp.client.kind], db.lists[exp.client.kind])
    ensures ret == 0 && Covered(db.lists[exp.client.kind], exp)
  {
    hide HashTable.Valid, ExportList.Counted, Unique, FirstEntry, Reals, Justified, Anchored;
    var path, at := exp.ent.path, Some(0);
    ghost var t, before, done := exp.client.kind, db.lists, 0;
    ret := 0;
    while at.Some?
      invariant db.Valid() && AllAnchored(db.env, db.lists, db.clients)
      invariant db.clients == old(db.clients) && db.known == old(db.known)
      invariant db.lists == before[t := db.lists[t]]
      invariant Extends(before[t], db.lists[t]) && AsMade(before[t], db.lists[t])
      invariant ret == 0 && CutAt(path, done, at) && CoveredUpTo(db.lists[t], exp, done)
      decreases |path| - done
    {
      assert IsPrefix(path, Cut(path, at.value));
      ghost var now := db.lists[t];
      ret := PseudofsUpdate(db, Cut(path, at.value), exp);
      ExtendsIsTransitive(before[t], now, db.lists[t]);
      if ret != 0 {
        break;
      }
      CoverStep(now, db.lists[t], exp, done, at.value);
      done := at.value + 1;
      at := NextSlash(path, at.value + 1);
    }
    CoverEnd(db.lists[t], exp, done);
  }

  /** The path cut at `at`, with "/" for the empty string. */
  function Cut(path: string, at: nat): string
    requires at <= |path|
  {
    if at == 0 then "/" else path[..at]
  }

  /** The first `done` characters have been dealt with, and `at` is the next place to cut. */
  ghost predicate CutAt(path: string, done: nat, at: Option<nat>) {
    && done <= |path|
    && (at.Some? ==> done <= at.value < |path| && (at.value == 0 || path[at.value] == '/'))
    && (done == 0 ==> at == Some(0))
    && (forall j :: done <= j < (if at.Some? then at.value else |path|) ==> path[j] != '/')
  }

  ghost predicate CoveredUpTo(list: seq<Export>, e: Export, done: nat)
    requires done <= |e.ent.path|
  {
    forall j :: 0 <= j < done && (j == 0 || e.ent.path[j] == '/') ==>
        FirstEntry(list, e.client, Cut(e.ent.path, j)).Some?
  }

  lemma CoverStep(now: seq<Export>, after: seq<Export>, e: Export, done: nat, at: nat)
    requires CutAt(e.ent.path, done, Some(at)) && CoveredUpTo(now, e, done) && Extends(now, after)
    requires FirstEntry(after, e.client, Cut(e.ent.path, at)).Some?
    ensures CoveredUpTo(after, e, at + 1)
  {
    forall j | 0 <= j < at + 1 && (j == 0 || e.ent.path[j] == '/')
      ensures FirstEntry(after, e.client, Cut(e.ent.path, j)).Some?
    {
      if j < done { EntryStays(now, after, e.client, Cut(e.ent.path, j)); }
    }
  }

  lemma EntryStays(now: seq<Export>, after: seq<Export>, c: Client, q: string)
    requires Extends(now, after) && FirstEntry(now, c, q).Some?
    ensures FirstEntry(after, c, q).Some?
  {
  }

  lemma CoverEnd(list: seq<Export>, e: Export, done: nat)
    requires CutAt(e.ent.path, done, None) && CoveredUpTo(list, e, done)
    ensures Covered(list, e)
  {
    forall q | IsPrefix(e.ent.path, q) ensures FirstEntry(list, e.client, q).Some? {
      if q == "/" {
        assert q == Cut(e.ent.path, 0);
      } else {
        var j :| 1 <= j < |e.ent.path| && e.ent.path[j] == '/' && q == e.ent.path[..j];
        assert q == Cut(e.ent.path, j);
      }
    }
  }

  // ----- walking the list while it grows -----------------------------------

  /** The real entries in front of position `i`. */
  ghost function RealsBefore(list: seq<Export>, i: nat): set<Export>
    requires i <= |list|
  {
    set e | e in list[..i] && Real(e)
  }

  /** The real entries in front of position `i` are covered. */
  ghost predicate CoveredBefore(list: seq<Export>, i: nat)
    requires i <= |list|
  {
    forall e :: e in list[..i] && Real(e) ==> Covered(list, e)
  }

  /**
   Dealing with the real entry at `i` turned `now` into `after`, where it is at
   `k`: nothing real moved across it, and one real entry less lies ahead.
   */
  ghost predicate Stepped(now: seq<Export>, i: nat, after: seq<Export>, k: nat) {
    && i < |now| && k < |after| && now[i] == after[k]
    && Extends(now, after)
    && CoveredBefore(after, k + 1)
    && |Reals(after[k + 1..])| < |Reals(now[i..])|
    && RealsBefore(after, k + 1) == RealsBefore(now, i) + {now[i]}
  }

  lemma WalkStep(now: seq<Export>, i: nat, after: seq<Export>, k: nat)
    requires i < |now| && k < |after| && now[i] == after[k] && Real(now[i])
    requires Distinct(now) && Distinct(after) && Extends(now, after)
    requires CoveredBefore(now, i) && Covered(after, now[i])
    ensures Stepped(now, i, after, k)
  {
    hide Covered;
    PlaceAmongReals(now, i, after, k);
    RealsFrom(now, i);
    RealsMembers(now[..i]);
    RealsMembers(after[..k]);
    assert after[..k + 1] == after[..k] + [after[k]];
    forall e | e in after[..k + 1] && Real(e) ensures Covered(after, e) {
      if e != now[i] {
        assert e in Reals(after[..k]);
        CoveredGrows(now, after, e);
      }
    }
  }

  lemma SkipPseudo(list: seq<Export>, i: nat)
    requires i < |list| && !Real(list[i]) && CoveredBefore(list, i)
    ensures CoveredBefore(list, i + 1) && |Reals(list[i + 1..])| == |Reals(list[i..])|
    ensures RealsBefore(list, i + 1) == RealsBefore(list, i)
  {
    RealsFrom(list, i);
    assert list[..i + 1] == list[..i] + [list[i]];
  }

  /** The fsid of a real entry after the pass: "/" is forced to be the root of the exported tree. */
  function Forced(path: string, fsid: Option<nat>): Option<nat> {
    if path == "/" && fsid.None? then Some(0) else fsid
  }

  lemma RealWasThere(before: seq<Export>, now: seq<Export>, e: Export)
    requires Extends(before, now) && e in now && Real(e)
    ensures e in before
  {
  }

  /** The body of v4root_set's inner loop (v4root.c:252-259) for a real entry, list[i] before and list[k] after. */
  method Visit(db: ExportList, t: int, exp: Export, ghost i: nat) returns (ghost k: nat)
    requires db.Valid() && AllAnchored(db.env, db.lists, db.clients) && 0 <= t < MAXTYPES
    requires i < |db.lists[t]| && exp == db.lists[t][i] && Real(exp) && exp.ent.path != ""
    requires CoveredBefore(db.lists[t], i)
    modifies db`clients, db`known, db`lists, db.tables, db.known`count, exp`fsid
    ensures db.Valid() && AllAnchored(db.env, db.lists, db.clients)
    ensures db.clients == old(db.clients) && db.known == old(db.known)
    ensures db.lists == old(db.lists)[t := db.lists[t]] && Stepped(old(db.lists)[t], i, db.lists[t], k)
    ensures exp.fsid == Forced(exp.ent.path, old(exp.fsid)) && AsMade(old(db.lists)[t], db.lists[t])
  {
    hide ExportList.Valid, HashTable.Valid, Unique, Covered, Reals, Justified, AllAnchored, Stepped, CoveredBefore;
    db.Facts(t);
    ghost var now := db.lists[t];
    if exp.ent.path == "/" && exp.fsid.None? {
      exp.fsid := Some(0);
    }
    var ret := AddParents(db, exp);
    db.Facts(t);
    k :| 0 <= k < |db.lists[t]| && db.lists[t][k] == exp;
    WalkStep(now, i, db.lists[t], k);
  }

  /** One round of the inner loop: visit list[i] and move on to what follows it by then. */
  method Advance(db: ExportList, t: int, exp: Export, ghost i: nat) returns (next: Export?, ghost k: nat)
    requires db.Valid() && AllAnchored(db.env, db.lists, db.clients) && 0 <= t < MAXTYPES
    requires i < |db.lists[t]| && exp == db.lists[t][i] && (Real(exp) ==> exp.ent.path != "")
    requires CoveredBefore(db.lists[t], i)
    modifies db`clients, db`known, db`lists, db.tables, db.known`count
    modifies if Real(exp) then {exp} else {}
    ensures db.Valid() && AllAnchored(db.env, db.lists, db.clients)
    ensures db.clients == old(db.clients) && db.known == old(db.known)
    ensures db.lists == old(db.lists)[t := db.lists[t]] && Extends(old(db.lists)[t], db.lists[t])
    ensures k <= |db.lists[t]| && next == (if k < |db.lists[t]| then db.lists[t][k] else null)
    ensures CoveredBefore(db.lists[t], k)
    ensures |Reals(db.lists[t][k..])| < |Reals(old(db.lists)[t][i..])|
            || (|Reals(db.lists[t][k..])| == |Reals(old(db.lists)[t][i..])|
                && |db.lists[t]| - k < |old(db.lists)[t]| - i)
    ensures RealsBefore(db.lists[t], k) == RealsBefore(old(db.lists)[t], i) + if Real(exp) then {exp} else {}
    ensures exp.fsid == if Real(exp) then Forced(exp.ent.path, old(exp.fsid)) else old(exp.fsid)
    ensures AsMade(old(db.lists)[t], db.lists[t])
  {
    hide ExportList.Valid, HashTable.Valid, Unique, Reals, AllAnchored, CoveredBefore, Distinct, Extends, RealsBefore;
    db.Facts(t);
    if exp.ent.v4root {
      SkipPseudo(db.lists[t], i);
      ExtendsIsReflexive(db.lists[t]);
      k := i;
    } else {
      k := Visit(db, t, exp, i);
      db.Facts(t);
    }
    db.tables[t].Walkable(k);
    next := db.tables[t].next[exp];
    k := k + 1;
  }

  /** The inner loop of v4root_set (v4root.c:244-261) for one client type. */
  method WalkTable(db: ExportList, t: int)
    requires db.Valid() && AllAnchored(db.env, db.lists, db.clients) && 0 <= t < MAXTYPES
    requires forall e :: e in db.lists[t] ==> e.ent.path != ""
    modifies db`clients, db`known, db`lists, db.tables, db.known`count
    modifies set e | e in db.lists[t] && Real(e)
    ensures db.Valid() && AllAnchored(db.env, db.lists, db.clients)
    ensures db.clients == old(db.clients) && db.known == old(db.known)
    ensures db.lists == old(db.lists)[t := db.lists[t]]
    ensures Extends(old(db.lists)[t], db.lists[t]) && AsMade(old(db.lists)[t], db.lists[t])
    ensures forall e :: e in db.lists[t] && Real(e) ==> Covered(db.lists[t], e)
    ensures forall e :: e in old(db.lists)[t] && Real(e) ==> e.fsid == Forced(e.ent.path, old(e.fsid))
  {
    hide ExportList.Valid, HashTable.Valid, Unique, Covered, Reals, AllAnchored, Extends, CoveredBefore,
        Distinct, RealsBefore, Justified, Typed;
    db.Facts(t);
    ghost var before, i, list := db.lists, 0, db.lists[t];
    db.tables[t].Walkable(0);
    var exp := db.tables[t].head;
    NothingBefore(db.lists[t]);
    ExtendsIsReflexive(db.lists[t]);
    while exp != null
      invariant |db.lists| == MAXTYPES && |db.clients| == MAXTYPES && db.lists[t] == list
      invariant db.Valid() && AllAnchored(db.env, db.lists, db.clients)
      invariant db.clients == old(db.clients) && db.known == old(db.known)
      invariant db.lists == before[t := list] && Extends(before[t], list) && AsMade(before[t], list)
      invariant 0 <= i <= |list| && exp == if i < |list| then list[i] else null
      invariant CoveredBefore(list, i)
      invariant forall e :: e in before[t] ==> e.fsid == old(e.fsid) || e.fsid == Forced(e.ent.path, old(e.fsid))
      invariant forall e :: e in before[t] && e in RealsBefore(list, i) && e.ent.path == "/" ==> e.fsid.Some?
      decreases |Reals(list[i..])|, |list| - i
    {
      ghost var now := list;
      if Real(exp) { RealWasThere(before[t], now, exp); }
      exp, i := Advance(db, t, exp, i);
      list := db.lists[t];
      ExtendsIsTransitive(before[t], now, list);
    }
    AllBefore(before[t], list);
  }

  lemma NothingBefore(list: seq<Export>)
    ensures CoveredBefore(list, 0) && RealsBefore(list, 0) == {}
  {
  }

  lemma AllBefore(before: seq<Export>, list: seq<Export>)
    requires Extends(before, list) && CoveredBefore(list, |list|)
    ensures forall e :: e in list && Real(e) ==> Covered(list, e)
    ensures forall e :: e in before && Real(e) ==> e in RealsBefore(list, |list|)
  {
    assert list[..|list|] == list;
  }

  // ----- the whole pass ----------------------------------------------------

  /** There is one entry for this client and path, and only one. */
  ghost predicate ExactlyOne(list: seq<Export>, c: Client, q: string) {
    && Distinct(list)
    && exists x :: x in list && IsEntry(x, c, q) && forall y :: y in list && IsEntry(y, c, q) ==> y == x
  }

  /** Every real export has, for its client, one entry at "/" and at each of its ancestors. */
  ghost predicate Rooted(list: seq<Export>) {
    forall e, q :: e in list && Real(e) && IsPrefix(e.ent.path, q) ==> ExactlyOne(list, e.client, q)
  }

  lemma CoveredIsRooted(list: seq<Export>)
    requires Distinct(list) && Unique(list)
    requires forall e :: e in list && Real(e) ==> Covered(list, e)
    ensures Rooted(list)
  {
    forall e, q | e in list && Real(e) && IsPrefix(e.ent.path, q) ensures ExactlyOne(list, e.client, q) {
      assert Covered(list, e);
      var x := FirstEntry(list, e.client, q).value;
      assert x in list && IsEntry(x, e.client, q);
    }
  }

  /** Of a clean path the prefixes are "/" and the paths of the directories above it. */
  lemma PrefixesAreAncestors(path: string, q: string)
    requires Clean(path)
    ensures IsPrefix(path, q) <==> q == "/" || (Clean(q) && Components(q) < Components(path))
  {
    hide Components, NoDoubleSlash;
    forall j | 1 <= j < |path| && path[j] == '/' && q == path[..j]
      ensures Clean(q) && Components(q) < Components(path)
    {
      AncestorIsClean(path, j);
      AncestorsAreAncestors(path, j);
      ShorterHasFewer(q, path);
    }
    if Clean(q) && Components(q) < Components(path) {
      AncestorIsTried(path, q);
      assert path[..|path|] == path;
    }
  }

  /** A client can walk from "/" to each of its exports: every directory above one has one entry for it. */
  lemma RootedMeans(list: seq<Export>, e: Export, dir: string)
    requires Rooted(list) && e in list && Real(e) && Clean(e.ent.path)
    requires dir == "/" || (Clean(dir) && Components(dir) < Components(e.ent.path))
    ensures exists x :: x in list && x.client == e.client && x.ent.path == dir
                        && forall y :: y in list && y.client == e.client && y.ent.path == dir ==> y == x
  {
    hide Components, Clean, IsPrefix;
    PrefixesAreAncestors(e.ent.path, dir);
    assert ExactlyOne(list, e.client, dir);
    var x :| x in list && IsEntry(x, e.client, dir) && forall y :: y in list && IsEntry(y, e.client, dir) ==> y == x;
    forall y | y in list && y.client == e.client && y.ent.path == dir ensures y == x {
      assert IsEntry(y, e.client, dir);
    }
  }

  ghost function RealEntries(lists: seq<seq<Export>>): set<Export> {
    set t, e | 0 <= t < |lists| && e in lists[t] && Real(e) :: e
  }

  lemma AddedIsPseudo(before: seq<Export>, after: seq<Export>, x: Export)
    requires Extends(before, after) && AsMade(before, after) && x in after && x !in before
    ensures IsPseudo(x.ent) && x.fsid == x.ent.fsid
  {
  }

  /** The root entry of a client with a real export has an fsid, unless it is an older pseudo export. */
  lemma RootHasFsid(before: seq<Export>, after: seq<Export>, e: Export)
    requires Extends(before, after) && AsMade(before, after) && e in after && Real(e) && Covered(after, e)
    requires forall r :: r in before && Real(r) && r.ent.path == "/" ==> r.fsid.Some?
    ensures exists x :: x in after && IsEntry(x, e.client, "/") && (Real(x) || x !in before ==> x.fsid.Some?)
  {
    hide Reals, Unique;
    assert IsPrefix(e.ent.path, "/");
    var x := FirstEntry(after, e.client, "/").value;
    if x !in before { AddedIsPseudo(before, after, x); }
  }

  /** The outer loop of v4root_set (v4root.c:243-262). */
  method WalkAll(db: ExportList)
    requires db.Valid() && AllAnchored(db.env, db.lists, db.clients)
    requires forall t, e :: 0 <= t < MAXTYPES && e in db.lists[t] ==> e.ent.path != ""
    modifies db`clients, db`known, db`lists, db.tables, db.known`count
    modifies RealEntries(db.lists)
    ensures db.Valid() && AllAnchored(db.env, db.lists, db.clients)
    ensures db.clients == old(db.clients) && db.known == old(db.known)
    ensures forall t :: 0 <= t < MAXTYPES ==> Extends(old(db.lists)[t], db.lists[t])
    ensures forall t :: 0 <= t < MAXTYPES ==> AsMade(old(db.lists)[t], db.lists[t])
    ensures forall t, e :: 0 <= t < MAXTYPES && e in db.lists[t] && Real(e) ==> Covered(db.lists[t], e)
    ensures forall t, e :: 0 <= t < MAXTYPES && e in old(db.lists)[t] && Real(e) ==>
              e.fsid == Forced(e.ent.path, old(e.fsid))
  {
    hide ExportList.Valid, HashTable.Valid, Unique, Covered, Reals, AllAnchored, Extends, CoveredBefore, Distinct;
    db.Facts(0);
    ghost var before := db.lists;
    forall u | 0 <= u < MAXTYPES
      ensures forall e: Export :: e in before[u] ==> e.client.kind == u && (Real(e) ==> e in RealEntries(before))
    {
      db.Facts(u);
    }
    for t := 0 to MAXTYPES
      invariant |db.lists| == MAXTYPES && |db.clients| == MAXTYPES
      invariant db.Valid() && AllAnchored(db.env, db.lists, db.clients)
      invariant db.clients == old(db.clients) && db.known == old(db.known)
      invariant forall u :: t <= u < MAXTYPES ==> db.lists[u] == before[u]
      invariant forall u :: 0 <= u < t ==> Extends(before[u], db.lists[u]) && AsMade(before[u], db.lists[u])
      invariant forall u, e :: 0 <= u < t && e in db.lists[u] && Real(e) ==> Covered(db.lists[u], e)
      invariant forall u, e :: 0 <= u < MAXTYPES && e in before[u] && Real(e) ==>
                  e.fsid == if u < t then Forced(e.ent.path, old(e.fsid)) else old(e.fsid)
    {
      db.Facts(t);
      forall u | 0 <= u < t ensures forall e: Export :: e in db.lists[u] ==> e !in before[t] { db.Facts(u); }
      WalkTable(db, t);
      db.Facts(t);
    }
  }

  /**
   v4root_set (v4root.c:230-265).  The pass is skipped when an export already
   is the root of the tree or the kernel has no pseudo roots.
   */
  method V4rootSet(db: ExportList, needed: bool, supported: bool)
    requires db.Valid() && AllAnchored(db.env, db.lists, db.clients)
    requires forall t, e :: 0 <= t < MAXTYPES && e in db.lists[t] ==> e.ent.path != ""
    modifies db`clients, db`known, db`lists, db.tables, db.known`count
    modifies RealEntries(db.lists)
    ensures db.Valid() && AllAnchored(db.env, db.lists, db.clients)
    ensures db.clients == old(db.clients) && db.known == old(db.known)
    ensures !(needed && supported) ==> db.lists == old(db.lists)
    ensures !(needed && supported) ==> forall t, e :: 0 <= t < MAXTYPES && e in db.lists[t] ==> e.fsid == old(e.fsid)
    ensures needed && supported ==> forall t :: 0 <= t < MAXTYPES ==> Extends(old(db.lists)[t], db.lists[t])
    ensures needed && supported ==> forall t, e :: 0 <= t < MAXTYPES && e in db.lists[t] && Real(e) ==>
              Covered(db.lists[t], e)
    ensures needed && supported ==> forall t :: 0 <= t < MAXTYPES && Unique(old(db.lists)[t]) ==> Rooted(db.lists[t])
    ensures needed && supported ==> forall t, x :: 0 <= t < MAXTYPES && x in db.lists[t] && x !in old(db.lists)[t] ==>
              && x.ent.v4root && x.ent.insecurePort && !x.ent.crossmnt
              && x.fsid == if x.ent.path == "/" then Some(0) else None
    ensures needed && supported ==> forall t, e :: 0 <= t < MAXTYPES && e in old(db.lists)[t] && Real(e) ==>
              e.fsid == if e.ent.path == "/" && old(e.fsid) == None then Some(0) else old(e.fsid)
    ensures needed && supported ==> forall t, e :: 0 <= t < MAXTYPES && e in db.lists[t] && Real(e) ==>
              exists x :: x in db.lists[t] && IsEntry(x, e.client, "/")
                          && (Real(x) || x !in old(db.lists)[t] ==> x.fsid.Some?)
  {
    hide ExportList.Valid, HashTable.Valid, Unique, Covered, AllAnchored, Extends, Distinct, Rooted, AsMade;
    db.Facts(0);
    if !needed || !supported {
      return;
    }
    ghost var before := db.lists;
    WalkAll(db);
    db.Facts(0);
    forall t | 0 <= t < MAXTYPES && Unique(before[t]) ensures Rooted(db.lists[t]) {
      db.Facts(t);
      StaysUnique(before[t], db.lists[t]);
      CoveredIsRooted(db.lists[t]);
    }
    forall t, x | 0 <= t < MAXTYPES && x in db.lists[t] && x !in before[t]
      ensures IsPseudo(x.ent) && x.fsid == x.ent.fsid
    {
      AddedIsPseudo(before[t], db.lists[t], x);
    }
    forall t, e | 0 <= t < MAXTYPES && e in db.lists[t] && Real(e)
      ensures exists x :: x in db.lists[t] && IsEntry(x, e.client, "/") && (Real(x) || x !in before[t] ==> x.fsid.Some?)
    {
      RootHasFsid(before[t], db.lists[t], e);
    }
  }
}
