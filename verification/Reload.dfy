/**
 Reloading the export table (support/export/auth.c, support/export/xtab.c):
 free everything, read the entries, add the pseudo root.
 */
module Reload {
  import opened Wrappers
  import opened Clients
  import opened ExportTable
  import opened Exports
  import opened PseudoRoot

  /** A host the table can have a client for: its name resolves, its network is valid. */
  predicate Accepted(env: Env, hname: string) { AcceptedAs(env, hname, false) }

  /** No entry that is accepted is the root of the exported tree already. */
  ghost predicate RootMissing(env: Env, ents: seq<ExportEnt>) {
    forall ent :: ent in ents && Accepted(env, ent.hostname) ==> ent.fsid != Some(0)
  }

  /** The entry's host finds a client, and that client has an entry at its path. */
  ghost predicate Served(env: Env, lists: seq<seq<Export>>, clients: seq<seq<Client>>, ent: ExportEnt)
    requires Typed(lists, clients)
  {
    match Find(env, clients, ent.hostname, false)
    case Found(c) => FirstEntry(lists[c.kind], c, ent.path).Some?
    case _ => false
  }

  ghost predicate AllServed(env: Env, lists: seq<seq<Export>>, clients: seq<seq<Client>>, ents: seq<ExportEnt>)
    requires Typed(lists, clients)
  {
    forall ent :: ent in ents && Accepted(env, ent.hostname) ==> Served(env, lists, clients, ent)
  }

  /** Every real entry of the table was read, and it has a path. */
  ghost predicate OnlyThese(lists: seq<seq<Export>>, ents: seq<ExportEnt>)
    requires |lists| == MAXTYPES
  {
    forall t, e :: 0 <= t < MAXTYPES && e in lists[t] && Real(e) ==> e.ent in ents
  }

  lemma NewClientKeepsServed(env: Env, lists: seq<seq<Export>>, before: seq<seq<Client>>, after: seq<seq<Client>>,
                             hname: string, c: Client?, ents: seq<ExportEnt>)
    requires Typed(lists, before) && Typed(lists, after) && LookedUp(env, before, after, hname, false, c)
    requires AllServed(env, lists, before, ents)
    ensures AllServed(env, lists, after, ents)
  {
    if after != before {
      forall ent | ent in ents && Accepted(env, ent.hostname) ensures Served(env, lists, after, ent) {
        FindIsStable(env, before, ent.hostname, false, c.kind, c);
      }
    }
  }

  lemma AddedMembers(lists: seq<seq<Export>>, e: Export)
    requires |lists| == MAXTYPES && 0 <= e.client.kind < MAXTYPES
    ensures forall t, x :: 0 <= t < MAXTYPES && x in lists[t] ==> x in Added(lists, e)[t]
    ensures forall t, x :: 0 <= t < MAXTYPES && x in Added(lists, e)[t] ==> x in lists[t] || x == e
    ensures e in Added(lists, e)[e.client.kind]
  {
    InsertMembers(lists[e.client.kind], Behind(lists[e.client.kind], Bucket(e)), e);
  }

  lemma LongerListsKeepServed(env: Env, before: seq<seq<Export>>, after: seq<seq<Export>>, clients: seq<seq<Client>>,
                              ents: seq<ExportEnt>)
    requires Typed(before, clients) && Typed(after, clients) && AllServed(env, before, clients, ents)
    requires forall t, e :: 0 <= t < MAXTYPES && e in before[t] ==> e in after[t]
    ensures AllServed(env, after, clients, ents)
  {
    forall ent | ent in ents && Accepted(env, ent.hostname) ensures Served(env, after, clients, ent) {
      assert Served(env, before, clients, ent);
      var c := Find(env, clients, ent.hostname, false).client;
      assert FirstEntry(before[c.kind], c, ent.path).value in after[c.kind];
    }
  }

  /** What is in the table once `done` has been read. */
  ghost predicate ReadSoFar(env: Env, lists: seq<seq<Export>>, clients: seq<seq<Client>>, done: seq<ExportEnt>) {
    && Typed(lists, clients)
    && AllAnchored(env, lists, clients)
    && AllServed(env, lists, clients, done)
    && OnlyThese(lists, done)
    && AllUnique(lists)
  }

  lemma OneMore(env: Env, lists: seq<seq<Export>>, clients: seq<seq<Client>>, done: seq<ExportEnt>, ent: ExportEnt)
    requires ReadSoFar(env, lists, clients, done)
    requires Accepted(env, ent.hostname) ==> Served(env, lists, clients, ent)
    ensures ReadSoFar(env, lists, clients, done + [ent])
  {
  }

  lemma OneMoreCreated(env: Env, lists: seq<seq<Export>>, clients: seq<seq<Client>>, done: seq<ExportEnt>, e: Export)
    requires ReadSoFar(env, lists, clients, done) && Anchored(env, clients, e)
    requires 0 <= e.client.kind < MAXTYPES && Typed(Added(lists, e), clients) && AllUnique(Added(lists, e))
    ensures ReadSoFar(env, Added(lists, e), clients, done + [e.ent])
  {
    AddedMembers(lists, e);
    AddKeepsAnchored(env, lists, clients, e);
    LongerListsKeepServed(env, lists, Added(lists, e), clients, done);
    assert FirstEntry(Added(lists, e)[e.client.kind], e.client, e.ent.path).Some?;
  }

  /** One entry of the table file (xtab.c:50-73). */
  method ReadEntry(db: ExportList, ent: ExportEnt, ghost done: seq<ExportEnt>) returns (rootFound: bool)
    requires db.Valid() && ReadSoFar(db.env, db.lists, db.clients, done)
    modifies db`clients, db`known, db`lists, db.tables, db.known`count
    ensures db.Valid() && ReadSoFar(db.env, db.lists, db.clients, done + [ent])
    ensures fresh(db.known - old(db.known)) && forall c :: c in db.known - old(db.known) ==> c.matchGen == 0
    ensures forall t, e :: 0 <= t < MAXTYPES && e in db.lists[t] && e !in old(db.lists)[t] ==>
              fresh(e) && e.ent == ent && e.fsid == ent.fsid
    ensures rootFound <==> Accepted(db.env, ent.hostname) && ent.fsid == Some(0)
  {
    hide HashTable.Valid, ExportList.Counted, Unique, AllUnique, Refs, Place, AllServed, AllAnchored, OnlyThese;
    ghost var lists0 := db.lists;
    var c, found := db.Lookup(ent.hostname, ent.path, false);
    NewClientKeepsServed(db.env, lists0, old(db.clients), db.clients, ent.hostname, c, done);
    if found.Some? {
      OneMore(db.env, db.lists, db.clients, done, ent);
      return ent.fsid == Some(0);
    }
    var e := db.Create(ent, false);
    if e == null {
      OneMore(db.env, db.lists, db.clients, done, ent);
      return false;
    }
    AddedMembers(lists0, e);
    OneMoreCreated(db.env, lists0, db.clients, done, e);
    rootFound := ent.fsid == Some(0);
  }

  /** xtab_read (xtab.c:35-88) into an empty table: a pseudo root is needed unless an entry already is the root. */
  method ReadEntries(db: ExportList, ents: seq<ExportEnt>) returns (needed: bool)
    requires db.Valid() && db.lists == NoLists() && db.clients == NoLists() && db.known == {}
    modifies db`clients, db`known, db`lists, db.tables
    ensures db.Valid() && ReadSoFar(db.env, db.lists, db.clients, ents)
    ensures fresh(db.known) && forall c :: c in db.known ==> c.matchGen == 0
    ensures forall t, e :: 0 <= t < MAXTYPES && e in db.lists[t] ==>
                fresh(e) && e.ent in ents && e.fsid == e.ent.fsid
    ensures needed <==> RootMissing(db.env, ents)
  {
    hide ExportList.Valid, AllServed, AllAnchored;
    EmptyIsRead(db.env);
    needed := true;
    for n := 0 to |ents|
      invariant db.Valid() && ReadSoFar(db.env, db.lists, db.clients, ents[..n])
      invariant fresh(db.known) && forall c :: c in db.known ==> c.matchGen == 0
      invariant forall t, e :: 0 <= t < MAXTYPES && e in db.lists[t] ==>
                fresh(e) && e.ent in ents && e.fsid == e.ent.fsid
      invariant needed <==> RootMissing(db.env, ents[..n])
    {
      var rootFound := ReadEntry(db, ents[n], ents[..n]);
      if rootFound { needed := false; }
      assert ents[..n + 1] == ents[..n] + [ents[n]];
    }
    assert ents[..|ents|] == ents;
  }

  lemma EmptyIsRead(env: Env)
    ensures ReadSoFar(env, NoLists(), NoLists(), [])
  {
  }

  /**
   The table after a reload.  It is exactly what the entries say, with the way
   to "/" added for every real entry unless an accepted entry is the root already
   or pseudo roots are not supported.
   */
  ghost predicate Rebuilt(env: Env, lists: seq<seq<Export>>, clients: seq<seq<Client>>, ents: seq<ExportEnt>,
                          supported: bool)
  {
    && ReadSoFar(env, lists, clients, ents)
    && (forall t, e :: 0 <= t < MAXTYPES && e in lists[t] ==> e.ent in ents || Justified(lists[t], e))
    && (if supported && RootMissing(env, ents)
        then forall t :: 0 <= t < MAXTYPES ==> Rooted(lists[t])
        else forall t, e :: 0 <= t < MAXTYPES && e in lists[t] ==> e.ent in ents)
  }

  /** What was justified by a real entry still is, because no real entry is lost. */
  lemma AddedIsJustified(before: seq<Export>, after: seq<Export>, e: Export)
    requires Extends(before, after) && e in after
    ensures e in before || Justified(after, e)
  {
  }

  lemma ExtendedIsRead(env: Env, before: seq<seq<Export>>, after: seq<seq<Export>>, clients: seq<seq<Client>>,
                       ents: seq<ExportEnt>)
    requires ReadSoFar(env, before, clients, ents) && Typed(after, clients) && AllAnchored(env, after, clients)
    requires forall t :: 0 <= t < MAXTYPES ==> Extends(before[t], after[t])
    ensures ReadSoFar(env, after, clients, ents)
  {
    forall t, e | 0 <= t < MAXTYPES && e in before[t] ensures e in after[t] {
      NothingLost(before[t], after[t]);
    }
    forall t, e | 0 <= t < MAXTYPES && e in after[t] && Real(e) ensures e in before[t] {
      RealWasThere(before[t], after[t], e);
    }
    forall t | 0 <= t < MAXTYPES ensures Unique(after[t]) { StaysUnique(before[t], after[t]); }
    LongerListsKeepServed(env, before, after, clients, ents);
  }

  lemma ReadIsAnchored(env: Env, lists: seq<seq<Export>>, clients: seq<seq<Client>>, ents: seq<ExportEnt>)
    requires ReadSoFar(env, lists, clients, ents)
    ensures Typed(lists, clients) && AllAnchored(env, lists, clients) && AllUnique(lists)
  {
  }

  lemma IsRebuilt(env: Env, read: seq<seq<Export>>, lists: seq<seq<Export>>, clients: seq<seq<Client>>,
                  ents: seq<ExportEnt>, supported: bool)
    requires ReadSoFar(env, read, clients, ents) && Typed(lists, clients) && AllAnchored(env, lists, clients)
    requires forall t, e :: 0 <= t < MAXTYPES && e in read[t] ==> e.ent in ents
    requires if supported && RootMissing(env, ents)
             then forall t :: 0 <= t < MAXTYPES ==> Extends(read[t], lists[t]) && Rooted(lists[t])
             else lists == read
    ensures Rebuilt(env, lists, clients, ents, supported)
  {
    hide Extends, Rooted, Justified, AllServed, AllAnchored, Unique;
    if supported && RootMissing(env, ents) {
      ExtendedIsRead(env, read, lists, clients, ents);
      forall t, e | 0 <= t < MAXTYPES && e in lists[t] ensures e.ent in ents || Justified(lists[t], e) {
        AddedIsJustified(read[t], lists[t], e);
      }
    }
  }

  /** The second half of auth_reload (auth.c:119-121): read the entries, then add the pseudo root. */
  method ReadAndRoot(db: ExportList, ents: seq<ExportEnt>, supported: bool)
    returns (needed: bool, ghost read: seq<seq<Export>>)
    requires db.Valid() && db.lists == NoLists() && db.clients == NoLists() && db.known == {}
    requires forall ent :: ent in ents ==> ent.path != ""
    modifies db`clients, db`known, db`lists, db.tables
    ensures db.Valid() && ReadSoFar(db.env, read, db.clients, ents) && AllAnchored(db.env, db.lists, db.clients)
    ensures fresh(db.known) && forall c :: c in db.known ==> c.matchGen == 0
    ensures needed <==> RootMissing(db.env, ents)
    ensures |read| == MAXTYPES && forall t, e :: 0 <= t < MAXTYPES && e in read[t] ==> e.ent in ents
    ensures !(needed && supported) ==> db.lists == read
    ensures needed && supported ==>
              forall t :: 0 <= t < MAXTYPES ==> Extends(read[t], db.lists[t]) && Rooted(db.lists[t])
    ensures forall t, x :: 0 <= t < MAXTYPES && x in db.lists[t] && x !in read[t] ==>
              && x.ent.v4root && x.ent.insecurePort && !x.ent.crossmnt
              && x.fsid == if x.ent.path == "/" then Some(0) else None
    ensures forall t, e :: 0 <= t < MAXTYPES && e in read[t] && Real(e) ==>
              e.fsid == if needed && supported && e.ent.path == "/" && e.ent.fsid == None then Some(0) else e.ent.fsid
    ensures needed && supported ==> forall t, e :: 0 <= t < MAXTYPES && e in db.lists[t] && Real(e) ==>
              exists x :: x in db.lists[t] && IsEntry(x, e.client, "/") && (Real(x) || x !in read[t] ==> x.fsid.Some?)
  {
    hide ExportList.Valid, AllServed, AllAnchored, Rooted, Justified, Extends, Covered, Unique, ReadSoFar, IsPrefix,
        FirstEntry;
    needed := ReadEntries(db, ents);
    read := db.lists;
    ReadIsAnchored(db.env, db.lists, db.clients, ents);
    V4rootSet(db, needed, supported);
  }

  /**
   auth_reload (auth.c:117-121) from any table: what was there is gone, with
   every reference count at zero; every entry whose host is known to the
   resolver has its place in the new table; nothing else is real in it; and
   every real entry can be walked to from "/".
   */
  method Reload(db: ExportList, ents: seq<ExportEnt>, supported: bool) returns (needed: bool)
    requires db.Valid() && forall ent :: ent in ents ==> ent.path != ""
    modifies db`clients, db`known, db`lists, db.tables, db.known`count
    ensures db.Valid() && Rebuilt(db.env, db.lists, db.clients, ents, supported)
    ensures forall c :: c in old(db.known) ==> c.count == 0
    ensures fresh(db.known) && forall c :: c in db.known ==> c.matchGen == 0
    ensures needed <==> forall ent :: ent in ents && Accepted(db.env, ent.hostname) ==> ent.fsid != Some(0)
    ensures forall t, x :: 0 <= t < MAXTYPES && x in db.lists[t] && x.ent !in ents ==>
              && x.ent.v4root && x.ent.insecurePort && !x.ent.crossmnt
              && x.fsid == if x.ent.path == "/" then Some(0) else None
    ensures forall t, e :: 0 <= t < MAXTYPES && e in db.lists[t] && Real(e) ==>
              e.fsid == if needed && supported && e.ent.path == "/" && e.ent.fsid == None then Some(0) else e.ent.fsid
    ensures needed && supported ==> forall t, e :: 0 <= t < MAXTYPES && e in db.lists[t] && Real(e) ==>
              exists x :: x in db.lists[t] && IsEntry(x, e.client, "/")
                          && (Real(x) || x.ent !in ents ==> x.fsid.Some?)
  {
    hide ExportList.Valid, AllAnchored, Rooted, Extends, ReadSoFar, Rebuilt;
    db.FreeAll();
    ghost var read;
    needed, read := ReadAndRoot(db, ents, supported);
    assert Typed(db.lists, db.clients) by { db.IsTyped(); }
    IsRebuilt(db.env, read, db.lists, db.clients, ents, supported);
    if needed && supported {
      forall t, e | 0 <= t < MAXTYPES && e in db.lists[t] && Real(e) ensures e in read[t] {
        RealWasThere(read[t], db.lists[t], e);
      }
    }
  }
}
