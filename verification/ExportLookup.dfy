/**
 Finding the export for a domain and a path (support/export/cache.c) with the
 per-client verdict cache of support/export/auth.c.

 `PlainWalk` is the meaning of a lookup: test every entry with the uncached
 client verdict and the path test, and keep the better of two matches.  The
 methods are the source's: they reject on the number of slashes first, ask the
 client before the path, and remember the verdict on a client for the length
 of one walk.
 */
module ExportLookup {
  import opened Wrappers
  import opened CStrings
  import opened Clients
  import opened ClientNames
  import opened ExportTable
  import opened Exports
  import opened Paths

  /**
   What one walk holds fixed.  `same` answers whether two paths with the same
   number of components are the same directory, by file handle or inode.
   */
  datatype Query = Query(env: Env, dom: string, path: string, ai: AddrInfo, same: (string, string) -> bool)

  // ----- the meaning of a match --------------------------------------------

  function CountSlashes(s: string): nat {
    if s == "" then 0 else (if s[0] == '/' then 1 else 0) + CountSlashes(s[1..])
  }

  /** same_path (cache.c:575-596) on the first `len` characters of `child`; zero stands for all of them. */
  predicate SamePath(q: Query, child: string, parent: string, len: nat) {
    var p := if len == 0 || |child| <= len then child else child[..len];
    p == parent || (CountSlashes(p) == CountSlashes(parent) && q.same(p, parent))
  }

  /** is_subdirectory (cache.c:598-609). */
  predicate IsSubdirectory(q: Query, child: string, parent: string) {
    (parent == "/" && 1 < |child|)
    || (SamePath(q, child, parent, |parent|) && |parent| < |child| && child[|parent|] == '/')
  }

  /** path_matches (cache.c:611-620). */
  predicate PathMatches(q: Query, e: Export) {
    SamePath(q, q.path, e.ent.path, 0) || (e.ent.crossmnt && IsSubdirectory(q, q.path, e.ent.path))
  }

  /** is_ipaddr_client (export.h). */
  predicate IsIpaddr(dom: string) { dom != "" && dom[0] == '$' }

  /** The uncached verdict on a client: by address for an address domain, otherwise by name. */
  ghost predicate Verdict(q: Query, c: Client) {
    if IsIpaddr(q.dom) then Check(q.env, c, q.ai) else Listed(q.dom, c.hostname)
  }

  /** A domain that starts with a dollar sign is an address; any other is a list of client names. */
  lemma VerdictMeans(q: Query, c: Client, names: seq<string>)
    requires AllNameable(names) && Nameable(c.hostname)
    ensures q.dom != "" && q.dom[0] == '$' ==> (Verdict(q, c) <==> Check(q.env, c, q.ai))
    ensures q.dom == Join(names, ',') && (q.dom == "" || q.dom[0] != '$') ==> (Verdict(q, c) <==> c.hostname in names)
  {
    hide Check;
    ListedInJoin(names, c.hostname);
  }

  ghost predicate Matches(q: Query, e: Export) { Verdict(q, e.client) && PathMatches(q, e) }

  /** The better of the entry found so far and a later one that matches, too (cache.c:1270-1302). */
  function Better(found: Export, e: Export): Export {
    if e.ent.v4root then found
    else if found.ent.v4root then e
    else if (found.ent.crossmnt || e.ent.crossmnt) && |found.ent.path| < |e.ent.path| then e
    else found
  }

  ghost function PlainWalk(q: Query, entries: seq<Export>): Option<Export> {
    if entries == [] then None
    else
      var n := |entries| - 1;
      var found := PlainWalk(q, entries[..n]);
      if !Matches(q, entries[n]) then found
      else if found.None? then Some(entries[n])
      else Some(Better(found.value, entries[n]))
  }

  // ----- which entry is found ----------------------------------------------

  ghost predicate RealMatch(q: Query, e: Export) { Matches(q, e) && !e.ent.v4root }

  /**
   entries[i] is what a lookup should find: the first of the longest real
   matches, or the first match if no real entry matches.
   */
  ghost predicate IsBest(q: Query, entries: seq<Export>, i: nat) {
    && i < |entries| && Matches(q, entries[i])
    && (!entries[i].ent.v4root ==> forall j :: 0 <= j < |entries| && RealMatch(q, entries[j]) ==>
          |entries[j].ent.path| < |entries[i].ent.path| || (|entries[j].ent.path| == |entries[i].ent.path| && i <= j))
    && (entries[i].ent.v4root ==> forall j :: 0 <= j < |entries| && Matches(q, entries[j]) ==>
          entries[j].ent.v4root && i <= j)
  }

  /** Real matches that are not CROSSMOUNT have paths of one length. */
  ghost predicate LengthsAgree(q: Query, entries: seq<Export>) {
    forall e, f ::
      (e in entries && f in entries && RealMatch(q, e) && RealMatch(q, f) && !e.ent.crossmnt && !f.ent.crossmnt)
      ==> |e.ent.path| == |f.ent.path|
  }

  lemma {:induction false} WalkFindsBest(q: Query, entries: seq<Export>)
    requires LengthsAgree(q, entries)
    ensures PlainWalk(q, entries).None? <==> forall j :: 0 <= j < |entries| ==> !Matches(q, entries[j])
    ensures PlainWalk(q, entries).Some? ==>
              exists i: nat :: IsBest(q, entries, i) && PlainWalk(q, entries) == Some(entries[i])
  {
    hide Matches;
    if entries != [] {
      var n := |entries| - 1;
      WalkFindsBest(q, entries[..n]);
      var found := PlainWalk(q, entries[..n]);
      if found.None? {
        if Matches(q, entries[n]) { FirstMatchIsBest(q, entries, n); }
      } else {
        var i: nat :| IsBest(q, entries[..n], i) && found == Some(entries[..n][i]);
        BestStep(q, entries, n, i);
      }
    }
  }

  lemma FirstMatchIsBest(q: Query, entries: seq<Export>, n: nat)
    requires n == |entries| - 1 && Matches(q, entries[n]) && forall j :: 0 <= j < n ==> !Matches(q, entries[..n][j])
    ensures IsBest(q, entries, n)
  {
    hide Matches;
    assert forall j :: 0 <= j < n ==> entries[..n][j] == entries[j];
  }

  lemma {:induction false} BestStep(q: Query, entries: seq<Export>, n: nat, i: nat)
    requires n == |entries| - 1 && LengthsAgree(q, entries) && IsBest(q, entries[..n], i)
    ensures if Matches(q, entries[n]) && Better(entries[i], entries[n]) == entries[n] && entries[i] != entries[n]
            then IsBest(q, entries, n) else IsBest(q, entries, i)
  {
    hide Matches;
    assert forall j :: 0 <= j < n ==> entries[..n][j] == entries[j];
    assert entries[i] in entries && entries[n] in entries;
  }

  /** Paths are told apart by their text alone. */
  ghost predicate ExactPaths(q: Query) { forall a, b :: !q.same(a, b) }

  /**
   Under exact path identity the walk finds nothing only if nothing matches,
   and otherwise the first of the longest real matches, or the first match when
   only pseudo exports match.
   */
  lemma {:induction false} ExactWalkFindsBest(q: Query, entries: seq<Export>)
    requires ExactPaths(q)
    ensures PlainWalk(q, entries).None? <==> forall j :: 0 <= j < |entries| ==> !Matches(q, entries[j])
    ensures PlainWalk(q, entries).Some? ==>
              exists i: nat :: IsBest(q, entries, i) && PlainWalk(q, entries) == Some(entries[i])
  {
    WalkFindsBest(q, entries);
  }

  /** The entry is for this directory, or it is CROSSMOUNT and for one above it. */
  ghost predicate Covers(e: Export, path: string) {
    e.ent.path == path || (e.ent.crossmnt && Components(e.ent.path) < Components(path))
  }

  /** Under exact path identity the path test means just that, component by component. */
  lemma PathMatchesWhatItCovers(q: Query, e: Export)
    requires ExactPaths(q) && Clean(q.path) && Clean(e.ent.path)
    ensures PathMatches(q, e) <==> Covers(e, q.path)
  {
    hide Components, NoDoubleSlash, CountSlashes;
    var child, parent := q.path, e.ent.path;
    CleanIsSlashed(child);
    CleanIsSlashed(parent);
    if IsSubdirectory(q, child, parent) && parent != "/" {
      AncestorsAreAncestors(child, |parent|);
      ShorterHasFewer(parent, child);
    }
    if Components(parent) < Components(child) {
      AncestorIsTried(child, parent);
    }
  }

  /** Two paths are the same directory: by their text, or with equally many slashes by the file system's word. */
  predicate SameDirectory(q: Query, a: string, b: string) {
    a == b || (multiset(a)['/'] == multiset(b)['/'] && q.same(a, b))
  }

  lemma {:induction false} SlashesAreCounted(s: string)
    ensures CountSlashes(s) == multiset(s)['/']
  {
    if s != "" {
      assert s == [s[0]] + s[1..];
      SlashesAreCounted(s[1..]);
    }
  }

  /**
   Whatever the file system says, the path test accepts a path that is the
   entry's directory, and for a CROSSMOUNT entry one that falls at a slash into
   as long a name of that directory and a rest.
   */
  lemma PathMatchesExactlyWhen(q: Query, e: Export)
    requires e.ent.path != ""
    ensures PathMatches(q, e) <==>
            || SameDirectory(q, q.path, e.ent.path)
            || (e.ent.crossmnt && e.ent.path == "/" && 1 < |q.path|)
            || (e.ent.crossmnt && exists part, rest ::
                  && q.path == part + rest && rest != "" && rest[0] == '/' && |part| == |e.ent.path|
                  && SameDirectory(q, part, e.ent.path))
  {
    SlashesAreCounted(q.path);
    SlashesAreCounted(e.ent.path);
    var n := |e.ent.path|;
    if n <= |q.path| {
      SlashesAreCounted(q.path[..n]);
      assert q.path == q.path[..n] + q.path[n..];
    }
  }

  /**
   What a lookup means: among the entries for the caller that cover the path it
   finds none only if there is none, a pseudo export only if no real one covers
   the path, and otherwise a real one such that every other is for the same
   directory or one above it.
   */
  lemma {:induction false} FindsTheNearestExport(q: Query, entries: seq<Export>)
    requires ExactPaths(q) && Clean(q.path) && forall e :: e in entries ==> Clean(e.ent.path)
    ensures PlainWalk(q, entries).None? <==>
            forall e :: e in entries ==> !(Verdict(q, e.client) && Covers(e, q.path))
    ensures PlainWalk(q, entries).Some? ==>
              var found := PlainWalk(q, entries).value;
              && found in entries && Verdict(q, found.client) && Covers(found, q.path)
              && forall e :: e in entries && !e.ent.v4root && Verdict(q, e.client) && Covers(e, q.path) ==>
                  !found.ent.v4root && Components(e.ent.path) <= Components(found.ent.path)
  {
    hide PlainWalk, PathMatches, Verdict, Components, Clean;
    forall e | e in entries ensures Matches(q, e) <==> Verdict(q, e.client) && Covers(e, q.path) {
      PathMatchesWhatItCovers(q, e);
    }
    ExactWalkFindsBest(q, entries);
    if PlainWalk(q, entries).Some? {
      var i: nat :| IsBest(q, entries, i) && PlainWalk(q, entries) == Some(entries[i]);
      forall e | e in entries && !e.ent.v4root && Verdict(q, e.client) && Covers(e, q.path)
        ensures !entries[i].ent.v4root && Components(e.ent.path) <= Components(entries[i].ent.path)
      {
        var j :| 0 <= j < |entries| && entries[j] == e;
        NearerIsLonger(q.path, e.ent.path, entries[i].ent.path);
      }
    }
  }

  /** Of two ancestors of a path the one with the shorter name is above the other. */
  lemma {:induction false} NearerIsLonger(p: string, a: string, b: string)
    requires Clean(a) && Clean(b) && |a| <= |b|
    requires Components(a) <= Components(p) && Components(b) <= Components(p)
    ensures Components(a) <= Components(b)
  {
    hide Components, NoDoubleSlash;
    var cs, bs := Components(a), Components(b);
    if |bs| <= |cs| {
      assert bs == cs[..|bs|];
      AncestorIsTried(a, b);
      assert a[..|a|] == a;
    } else {
      assert cs == bs[..|cs|];
    }
  }

  /** Without that, a shorter match that comes first wins over a longer one. */
  lemma ShorterCanWin(q: Query, e: Export, f: Export)
    requires RealMatch(q, e) && RealMatch(q, f) && !e.ent.crossmnt && !f.ent.crossmnt
    requires |e.ent.path| < |f.ent.path|
    ensures PlainWalk(q, [e, f]) == Some(e) && !LengthsAgree(q, [e, f])
  {
    hide Matches;
    WalkOne(q, [], e);
    WalkOne(q, [e], f);
    assert [] + [e] == [e] && [e] + [f] == [e, f];
    assert e in [e, f] && f in [e, f];
  }

  /** Of two real matches the better one is found exactly when the second is not longer or one is CROSSMOUNT. */
  lemma BestOfTwoExactlyWhen(q: Query, e: Export, f: Export)
    requires RealMatch(q, e) && RealMatch(q, f) && e != f
    ensures PlainWalk(q, [e, f]) == Some(e) <==> |f.ent.path| <= |e.ent.path| || !(e.ent.crossmnt || f.ent.crossmnt)
    ensures (exists i: nat :: IsBest(q, [e, f], i) && PlainWalk(q, [e, f]) == Some([e, f][i]))
            <==> |f.ent.path| <= |e.ent.path| || e.ent.crossmnt || f.ent.crossmnt
  {
    hide Matches;
    WalkOne(q, [], e);
    WalkOne(q, [e], f);
    assert [] + [e] == [e] && [e] + [f] == [e, f];
    var both := [e, f];
    assert both[0] == e && both[1] == f;
    if |f.ent.path| <= |e.ent.path| {
      assert IsBest(q, both, 0);
    } else if e.ent.crossmnt || f.ent.crossmnt {
      assert IsBest(q, both, 1);
    }
  }

  lemma {:induction false} WalkFindsAMatch(q: Query, entries: seq<Export>)
    ensures PlainWalk(q, entries).Some? ==>
              PlainWalk(q, entries).value in entries && Matches(q, PlainWalk(q, entries).value)
  {
    hide Matches;
    if entries != [] { WalkFindsAMatch(q, entries[..|entries| - 1]); }
  }

  /** The entry at `i` takes the place of what was found before it. */
  ghost predicate TakesOver(q: Query, entries: seq<Export>, i: nat)
    requires i < |entries|
  {
    var found := PlainWalk(q, entries[..i]);
    entries[i].ent.crossmnt || found.None? || found.value.ent.v4root || found.value.ent.crossmnt
  }

  lemma TakingOver(q: Query, entries: seq<Export>, i: nat)
    requires IsBest(q, entries, i) && !entries[i].ent.v4root
    ensures PlainWalk(q, entries[..i + 1]) == if TakesOver(q, entries, i) then Some(entries[i]) else PlainWalk(q,
              entries[..i])
    ensures PlainWalk(q, entries[..i]).Some? && !PlainWalk(q, entries[..i]).value.ent.v4root ==>
              |PlainWalk(q, entries[..i]).value.ent.path| < |entries[i].ent.path|
  {
    hide Matches, PlainWalk;
    var found := PlainWalk(q, entries[..i]);
    WalkFindsAMatch(q, entries[..i]);
    if found.Some? {
      var j :| 0 <= j < i && entries[..i][j] == found.value;
      assert entries[j] == found.value;
    }
    assert entries[..i + 1] == entries[..i] + [entries[i]];
    WalkOne(q, entries[..i], entries[i]);
  }

  lemma {:induction false} StaysFound(q: Query, entries: seq<Export>, i: nat, m: nat)
    requires IsBest(q, entries, i) && !entries[i].ent.v4root && i < m <= |entries| && entries[i] !in entries[i + 1..]
    ensures PlainWalk(q, entries[..m]).Some?
    ensures PlainWalk(q, entries[..m]) == Some(entries[i]) <==> TakesOver(q, entries, i)
    decreases m
  {
    hide Matches, PlainWalk;
    if m == i + 1 {
      TakingOver(q, entries, i);
    } else {
      StaysFound(q, entries, i, m - 1);
      assert entries[..m] == entries[..m - 1] + [entries[m - 1]];
      assert entries[i + 1..][m - 1 - (i + 1)] == entries[m - 1];
      WalkOne(q, entries[..m - 1], entries[m - 1]);
    }
  }

  /**
   In any list, the first of the longest real matches is found exactly when it
   is CROSSMOUNT itself, or the entries in front of it lead the walk to
   nothing, to a pseudo export or to a CROSSMOUNT entry.
   */
  lemma LongestIsFoundExactlyWhen(q: Query, entries: seq<Export>, i: nat)
    requires IsBest(q, entries, i) && !entries[i].ent.v4root && entries[i] !in entries[i + 1..]
    ensures PlainWalk(q, entries) == Some(entries[i]) <==> TakesOver(q, entries, i)
  {
    StaysFound(q, entries, i, |entries|);
    assert entries[..|entries|] == entries;
  }

  // ----- the verdict cache -------------------------------------------------

  /** The generation counter is 64 bits wide. */
  const GENERATIONS := 0x1_0000_0000_0000_0000

  /** client_match_gen and client_match_active (auth.c:210-252). */
  class MatchCache {
    var gen: nat
    var active: bool

    constructor ()
      ensures gen == 0 && !active
    {
      gen, active := 0, false;
    }

    /** client_match_begin: zero marks a client that was never evaluated, and is skipped. */
    method Begin()
      requires gen < GENERATIONS
      modifies this
      ensures active && 0 < gen < GENERATIONS
      ensures old(gen) + 1 < GENERATIONS ==> gen == old(gen) + 1
    {
      active := true;
      gen := (gen + 1) % GENERATIONS;
      if gen == 0 {
        gen := 1;
      }
    }

    method End()
      modifies this`active
      ensures !active
    {
      active := false;
    }

    /**
     client_matches (auth.c:233-252).  Outside a bracket the stamp on the
     client is neither read nor written: the verdict needs no assumption on it.
     */
    method ClientMatches(q: Query, c: Client) returns (r: bool)
      requires active && c.matchGen == gen ==> c.matched == Verdict(q, c)
      modifies c`matchGen, c`matched
      ensures r == Verdict(q, c)
      ensures active ==> c.matchGen == gen && c.matched == r
      ensures !active ==> c.matchGen == old(c.matchGen) && c.matched == old(c.matched)
    {
      if active && c.matchGen == gen {
        return c.matched;
      }
      if IsIpaddr(q.dom) {
        r := Check(q.env, c, q.ai);
      } else {
        r := Member(q.dom, c.hostname);
      }
      if active {
        c.matched := r;
        c.matchGen := gen;
      }
    }
  }

  // ----- the walk ----------------------------------------------------------

  /** Without CROSSMOUNT the path test fails whenever the numbers of slashes differ. */
  lemma PrefilterIsSound(q: Query, e: Export)
    requires !e.ent.crossmnt && CountSlashes(q.path) != CountSlashes(e.ent.path)
    ensures !PathMatches(q, e)
  {
  }

  /** No stamp is newer than the counter. */
  ghost predicate Stamped(known: set<Client>, gen: nat)
    reads known`matchGen
  {
    forall c :: c in known ==> c.matchGen <= gen
  }

  /** A stamp of this generation carries this walk's verdict. */
  ghost predicate Remembers(q: Query, known: set<Client>, gen: nat)
    reads known`matchGen, known`matched
  {
    forall c :: c in known && c.matchGen == gen ==> c.matched == Verdict(q, c)
  }

  /** export_matches (cache.c:626-657). */
  method ExportMatches(cache: MatchCache, q: Query, e: Export, nslashes: nat,
                       ghost known: set<Client>) returns (r: bool)
    requires cache.active && nslashes == CountSlashes(q.path) && e.client in known
    requires Stamped(known, cache.gen) && Remembers(q, known, cache.gen)
    modifies e.client`matchGen, e.client`matched
    ensures Stamped(known, cache.gen) && Remembers(q, known, cache.gen)
    ensures r == Matches(q, e)
  {
    if !e.ent.crossmnt && nslashes != CountSlashes(e.ent.path) {
      PrefilterIsSound(q, e);
      return false;
    }
    hide Verdict, PathMatches;
    var m := cache.ClientMatches(q, e.client);
    r := m && PathMatches(q, e);
  }

  /** The inner loop of lookup_export_walk (cache.c:1267-1303) for one client type. */
  method WalkTable(db: ExportList, cache: MatchCache, q: Query, t: int, nslashes: nat, was: Option<Export>,
                   ghost before: seq<Export>)
    returns (found: Option<Export>)
    requires db.Valid() && 0 <= t < MAXTYPES && cache.active && nslashes == CountSlashes(q.path)
    requires Stamped(db.known, cache.gen) && Remembers(q, db.known, cache.gen)
    requires was == PlainWalk(q, before)
    modifies db.known`matchGen, db.known`matched
    ensures Stamped(db.known, cache.gen) && Remembers(q, db.known, cache.gen)
    ensures found == PlainWalk(q, before + db.lists[t])
  {
    hide ExportList.Valid, HashTable.Valid, Unique, Distinct, Matches, Stamped, Remembers;
    db.Facts(t);
    db.tables[t].Walkable(0);
    var exp := db.tables[t].head;
    found := was;
    ghost var i, list := 0, db.lists[t];
    assert before + list[..0] == before;
    while exp != null
      invariant 0 <= i <= |list| && exp == if i < |list| then list[i] else null
      invariant Stamped(db.known, cache.gen) && Remembers(q, db.known, cache.gen)
      invariant found == PlainWalk(q, before + list[..i])
      decreases |list| - i
    {
      var m := ExportMatches(cache, q, exp, nslashes, db.known);
      if m {
        if found.None? {
          found := Some(exp);
        } else if !exp.ent.v4root {
          if found.value.ent.v4root {
            found := Some(exp);
          } else if (found.value.ent.crossmnt || exp.ent.crossmnt) && |found.value.ent.path| != |exp.ent.path| {
            if |exp.ent.path| > |found.value.ent.path| {
              found := Some(exp);
            }
          }
        }
      }
      WalkOne(q, before + list[..i], exp);
      assert before + list[..i] + [list[i]] == before + list[..i + 1];
      db.tables[t].Walkable(i);
      exp := db.tables[t].next[exp];
      i := i + 1;
    }
    assert list[..i] == list;
  }

  lemma WalkOne(q: Query, entries: seq<Export>, e: Export)
    ensures PlainWalk(q, entries + [e]) ==
              if !Matches(q, e) then PlainWalk(q, entries)
              else if PlainWalk(q, entries).None? then Some(e)
              else Some(Better(PlainWalk(q, entries).value, e))
  {
    hide Matches;
    assert (entries + [e])[..|entries|] == entries;
  }

  /** lookup_export_walk (cache.c:1257-1306). */
  method LookupExportWalk(db: ExportList, cache: MatchCache, q: Query) returns (found: Option<Export>)
    requires db.Valid() && cache.active
    requires Stamped(db.known, cache.gen) && Remembers(q, db.known, cache.gen)
    modifies db.known`matchGen, db.known`matched
    ensures Stamped(db.known, cache.gen)
    ensures found == PlainWalk(q, Concat(db.lists))
  {
    hide ExportList.Valid, HashTable.Valid, Unique, Distinct, Stamped, Remembers, PlainWalk;
    db.Facts(0);
    var nslashes := CountSlashes(q.path);
    found := None;
    assert PlainWalk(q, []) == None by { EmptyWalk(q); }
    for t := 0 to MAXTYPES
      invariant Stamped(db.known, cache.gen) && Remembers(q, db.known, cache.gen)
      invariant found == PlainWalk(q, Concat(db.lists[..t]))
    {
      found := WalkTable(db, cache, q, t, nslashes, found, Concat(db.lists[..t]));
      ConcatStep(db.lists, t);
    }
    assert db.lists[..MAXTYPES] == db.lists;
  }

  lemma EmptyWalk(q: Query)
    ensures PlainWalk(q, []) == None
  {
  }

  /**
   lookup_export (cache.c:1308-1324): bracketed, cached, prefiltered and with
   its tests in another order, it finds what the plain walk finds.
   */
  method LookupExport(db: ExportList, cache: MatchCache, q: Query) returns (found: Option<Export>)
    requires db.Valid() && cache.gen + 1 < GENERATIONS && Stamped(db.known, cache.gen)
    modifies cache, db.known`matchGen, db.known`matched
    ensures found == PlainWalk(q, Concat(db.lists))
    ensures cache.gen == old(cache.gen) + 1 && !cache.active && Stamped(db.known, cache.gen)
  {
    hide ExportList.Valid, PlainWalk, Verdict;
    cache.Begin();
    found := LookupExportWalk(db, cache, q);
    cache.End();
  }
}
