/**
 The life of the table and its verdict cache together: reloads, creations,
 duplications and lookups, in any order.
 */
module Mountd {
  import opened Wrappers
  import opened Clients
  import opened ExportTable
  import opened Exports
  import opened Reload
  import opened ExportLookup

  /** What can be asked of the server; `Find` may make a copy of the entry it finds. */
  datatype Op =
    | Walk(q: Query)
    | Reread(ents: seq<ExportEnt>, supported: bool)
    | Make(ent: ExportEnt, canonical: bool)
    | Find(ai: AddrInfo, path: string)

  /** How many of the operations are walks. */
  function Walks(ops: seq<Op>): (n: nat)
    ensures n <= |ops|
  {
    if ops == [] then 0 else (if ops[0].Walk? then 1 else 0) + Walks(ops[1..])
  }

  /** The table at some moment. */
  datatype Table = Table(lists: seq<seq<Export>>, clients: seq<seq<Client>>)

  /** What export_find answers, and the copy it adds for a host that only a pattern or a network names. */
  ghost predicate FoundOrCopied(env: Env, before: Table, after: Table, ai: AddrInfo, path: string,
                                answer: Option<Export>)
    requires |before.lists| == |before.clients| == MAXTYPES
  {
    if forall u :: 0 <= u < MAXTYPES ==> NoneSuits(env, before.lists[u], ai, path)
    then answer == None && after == before
    else answer.Some? && exists t, i ::
        && FirstSuiting(env, before.lists, ai, path, t, i)
        && if t == FQDN then answer.value == before.lists[t][i] && after == before
           else CopiedFor(before, after, before.lists[t][i], ai, answer.value)
  }

  /** `e` is a copy of `exp` for this one host, and it is what `after` has more. */
  ghost predicate CopiedFor(before: Table, after: Table, exp: Export, ai: AddrInfo, e: Export)
    requires |before.lists| == |before.clients| == MAXTYPES
  {
    && e.client.kind == FQDN && e.client.hostname == ai.canonname && e.client.addrs == Truncated(ai.addrs)
    && e.ent.(fsid := None) == exp.ent.(fsid := None)
    && after == Table(Added(before.lists, e), AddedClient(before.clients, e.client))
  }

  /** What an operation does to the table, and what it answers. */
  ghost predicate Follows(env: Env, before: Table, after: Table, op: Op, answer: Option<Export>) {
    && |before.lists| == |before.clients| == MAXTYPES
    && match op
       case Walk(q) => after == before && answer == PlainWalk(q, Concat(before.lists))
       case Reread(ents, supported) => Rebuilt(env, after.lists, after.clients, ents, supported) && answer == None
       case Make(ent, canonical) =>
         if AcceptedAs(env, ent.hostname, canonical)
         then answer.Some? && answer.value.ent == ent && 0 <= answer.value.client.kind < MAXTYPES
              && LookedUp(env, before.clients, after.clients, ent.hostname, canonical, answer.value.client)
              && after.lists == Added(before.lists, answer.value)
         else answer == None && after == before
       case Find(ai, path) => FoundOrCopied(env, before, after, ai, path, answer)
  }

  class Server {
    const db: ExportList
    const cache: MatchCache
    /** How many walks there have been. */
    ghost var walks: nat

    /**
     Between two operations no bracket is open, the counter is the number of
     walks, and no client carries a stamp from the future.
     */
    ghost predicate Valid()
      reads this, db, db.tables, db.known, cache
    {
      db.Valid() && !cache.active && cache.gen == walks < GENERATIONS && Stamped(db.known, walks)
    }

    ghost function Now(): Table
      reads this, db
    {
      Table(db.lists, db.clients)
    }

    constructor (env: Env)
      requires env.Sound()
      ensures Valid() && walks == 0 && db.env == env && db.lists == NoLists()
      ensures fresh(db) && fresh(db.tables) && fresh(cache) && db.known == {}
    {
      db := new ExportList(env);
      cache := new MatchCache();
      walks := 0;
    }

    /** Whatever happened before, a lookup finds what a plain walk over the present table finds. */
    method Lookup(q: Query) returns (found: Option<Export>)
      requires Valid() && walks + 1 < GENERATIONS
      modifies this`walks, cache, db.known`matchGen, db.known`matched
      ensures Valid() && walks == old(walks) + 1 && Now() == old(Now())
      ensures found == PlainWalk(q, Concat(db.lists))
    {
      hide ExportList.Valid, PlainWalk;
      found := LookupExport(db, cache, q);
      walks := walks + 1;
    }

    method ReloadTable(ents: seq<ExportEnt>, supported: bool)
      requires Valid() && forall ent :: ent in ents ==> ent.path != ""
      modifies db`clients, db`known, db`lists, db.tables, db.known`count
      ensures Valid() && Rebuilt(db.env, db.lists, db.clients, ents, supported)
      ensures fresh(db.known)
    {
      hide ExportList.Valid, Rebuilt;
      var needed := Reload.Reload(db, ents, supported);
    }

    method Create(ent: ExportEnt, canonical: bool) returns (e: Export?)
      requires Valid()
      modifies db`clients, db`known, db`lists, db.tables, db.known`count
      ensures Valid() && fresh(db.known - old(db.known))
      ensures e != null <==> AcceptedAs(db.env, ent.hostname, canonical)
      ensures LookedUp(db.env, old(db.clients), db.clients, ent.hostname, canonical,
                       if e == null then null else e.client)
      ensures e == null ==> Now() == old(Now())
      ensures e != null ==> e.client in db.known && e.ent == ent && db.lists == Added(old(db.lists), e)
    {
      hide ExportList.Valid, NoEntry;
      e := db.Create(ent, canonical);
    }

    method Duplicate(exp: Export, ai: AddrInfo) returns (e: Export)
      requires Valid()
      modifies db`clients, db`known, db`lists, db.tables
      ensures Valid() && e.client in db.known && db.lists == Added(old(db.lists), e)
      ensures CopiedFor(old(Now()), Now(), exp, ai, e)
      ensures fresh(db.known - old(db.known))
    {
      hide ExportList.Valid;
      e := db.Dup(exp, ai);
    }

    /** export_find (export.c:331-348) between walks. */
    method FindOrCopy(ai: AddrInfo, path: string) returns (r: Option<Export>)
      requires Valid()
      modifies db`clients, db`known, db`lists, db.tables
      ensures Valid() && fresh(db.known - old(db.known))
      ensures FoundOrCopied(db.env, old(Now()), Now(), ai, path, r)
    {
      hide ExportList.Valid, FirstSuiting, NoneSuits, Added;
      db.Facts(0);
      r := db.ExportFind(ai, path);
    }

    /** One operation and its answer. */
    method Perform(op: Op) returns (answer: Option<Export>)
      requires Valid() && (op.Walk? ==> walks + 1 < GENERATIONS)
      requires op.Reread? ==> forall ent :: ent in op.ents ==> ent.path != ""
      modifies this`walks, cache, db`clients, db`known, db`lists, db.tables, db.known
      ensures Valid() && walks == old(walks) + (if op.Walk? then 1 else 0) && fresh(db.known - old(db.known))
      ensures Follows(db.env, old(Now()), Now(), op, answer)
      ensures op.Walk? ==> answer == PlainWalk(op.q, Concat(old(db.lists)))
    {
      hide ExportList.Valid, Added, PlainWalk, Rebuilt, FoundOrCopied, LookedUp, Stamped;
      answer := None;
      db.Facts(0);
      match op {
        case Walk(q) => answer := Lookup(q);
        case Reread(ents, supported) => ReloadTable(ents, supported);
        case Make(ent, canonical) =>
          var e := Create(ent, canonical);
          if e != null {
            db.KnownKind(e.client);
            answer := Some(e);
          }
        case Find(ai, path) => answer := FindOrCopy(ai, path);
      }
    }

    /**
     Any sequence of operations with fewer than 2^64 walks in all.  `trace` has
     the table before each operation and at the end: each table and each answer
     follow from the table before as the operation says, and the answer to a walk
     is what a plain walk of the table of that moment finds.
     */
    method Serve(ops: seq<Op>) returns (answers: seq<Option<Export>>, ghost trace: seq<Table>)
      requires Valid() && walks + Walks(ops) < GENERATIONS
      requires forall k, ent :: 0 <= k < |ops| && ops[k].Reread? && ent in ops[k].ents ==> ent.path != ""
      modifies this`walks, cache, db`clients, db`known, db`lists, db.tables, db.known
      ensures Valid() && fresh(db.known - old(db.known))
      ensures |answers| == |ops| && |trace| == |ops| + 1 && trace[0] == old(Now()) && trace[|ops|] == Now()
      ensures forall k :: 0 <= k < |ops| ==> Follows(db.env, trace[k], trace[k + 1], ops[k], answers[k])
      ensures forall k :: 0 <= k < |ops| && ops[k].Walk? ==>
                answers[k] == PlainWalk(ops[k].q, Concat(trace[k].lists))
    {
      hide Valid, Follows, PlainWalk, Concat;
      answers, trace := [], [Now()];
      for n := 0 to |ops|
        invariant Valid() && walks + Walks(ops[n..]) == old(walks) + Walks(ops) && fresh(db.known - old(db.known))
        invariant |answers| == n && |trace| == n + 1 && trace[0] == old(Now()) && trace[n] == Now()
        invariant forall k :: 0 <= k < n ==> Follows(db.env, trace[k], trace[k + 1], ops[k], answers[k])
        invariant forall k :: 0 <= k < n && ops[k].Walk? ==> answers[k] == PlainWalk(ops[k].q, Concat(trace[k].lists))
      {
        assert ops[n..][0] == ops[n] && ops[n..][1..] == ops[n + 1..];
        var answer := Perform(ops[n]);
        answers, trace := answers + [answer], trace + [Now()];
      }
    }
  }

  /** The whole life of a server, from an empty table on. */
  method Life(env: Env, ops: seq<Op>) returns (answers: seq<Option<Export>>, ghost trace: seq<Table>)
    requires env.Sound() && Walks(ops) < GENERATIONS
    requires forall k, ent :: 0 <= k < |ops| && ops[k].Reread? && ent in ops[k].ents ==> ent.path != ""
    ensures |answers| == |ops| && |trace| == |ops| + 1 && trace[0].lists == NoLists()
    ensures forall k :: 0 <= k < |ops| ==> Follows(env, trace[k], trace[k + 1], ops[k], answers[k])
    ensures forall k :: 0 <= k < |ops| && ops[k].Walk? ==> answers[k] == PlainWalk(ops[k].q, Concat(trace[k].lists))
  {
    var server := new Server(env);
    answers, trace := server.Serve(ops);
  }
}
