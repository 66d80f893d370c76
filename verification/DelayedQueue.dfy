/**
 File handle requests that could not be decided (support/export/cache.c): they
 wait in a queue and are tried again, at the earliest RETRY_SEC seconds after
 their last attempt.

 A request gets a number as it arrives.  `history` lists every attempt that was
 made at any request, and is what the guarantees are about.
 */
module DelayedQueue {
  const RETRY_SEC := 120
  const DAY := 24 * 3600

  datatype Request = Request(message: string, fd: int)

  datatype Delayed = Delayed(id: nat, req: Request, lastAttempt: int)

  datatype Attempt = Attempt(id: nat, begins: int, ends: int, decided: bool)

  /** `arrivals` are the requests read so far, each numbered by its place. */
  datatype State = State(q: seq<Delayed>, arrivals: seq<Request>, history: seq<Attempt>)

  const START := State([], [], [])

  // ----- the steps ---------------------------------------------------------

  /** An attempt ends when its answer is there, which can be later than it began. */
  datatype Event =
    | Arrival(now: int, req: Request, decided: bool, later: int)
    | Prepare(now: int)
    | Retry(now: int, decided: bool, later: int)

  function Ends(e: Event): int { if e.Prepare? then e.now else e.later }

  predicate HeadIsDue(q: seq<Delayed>, now: int) { q != [] && q[0].lastAttempt + RETRY_SEC <= now }

  /** Before waiting: a head that was tried in the future means the clock went back, and is made due. */
  function Prepared(q: seq<Delayed>, now: int): seq<Delayed> {
    if q != [] && now < q[0].lastAttempt then q[0 := q[0].(lastAttempt := now - RETRY_SEC)] else q
  }

  /** The seconds the select call may sleep. */
  function Timeout(q: seq<Delayed>, now: int): int {
    if q == [] then DAY
    else if q[0].lastAttempt + RETRY_SEC < now then 0 else q[0].lastAttempt + RETRY_SEC - now
  }

  /** After an attempt: what is decided is done with, and what is not goes to the end. */
  function Judged(q: seq<Delayed>, id: nat, req: Request, decided: bool, later: int): seq<Delayed> {
    if decided then q else q + [Delayed(id, req, later)]
  }

  function Step(s: State, e: Event): State {
    match e
    case Arrival(now, req, decided, later) =>
      var id := |s.arrivals|;
      State(Judged(s.q, id, req, decided, later), s.arrivals + [req], s.history + [Attempt(id, now, later, decided)])
    case Prepare(now) => s.(q := Prepared(s.q, now))
    case Retry(now, decided, later) =>
      if !HeadIsDue(s.q, now) then s
      else
        var d := s.q[0];
        s.(q := Judged(s.q[1..], d.id, d.req, decided, later),
           history := s.history + [Attempt(d.id, now, later, decided)])
  }

  // ----- runs --------------------------------------------------------------

  /** The clock never goes back. */
  ghost predicate Timely(clock: int, run: seq<Event>)
    decreases |run|
  {
    run == [] || (clock <= run[0].now <= Ends(run[0]) && Timely(Ends(run[0]), run[1..]))
  }

  function After(s: State, run: seq<Event>): State
    decreases |run|
  {
    if run == [] then s else After(Step(s, run[0]), run[1..])
  }

  function Clock(clock: int, run: seq<Event>): int
    decreases |run|
  {
    if run == [] then clock else Clock(Ends(run[0]), run[1..])
  }

  /** Sorted by last attempt, and none in the future. */
  ghost predicate InOrder(q: seq<Delayed>, clock: int) {
    && (forall i, j :: 0 <= i < j < |q| ==> q[i].lastAttempt <= q[j].lastAttempt)
    && (forall i :: 0 <= i < |q| ==> q[i].lastAttempt <= clock)
  }

  lemma StepKeepsOrder(s: State, clock: int, e: Event)
    requires InOrder(s.q, clock) && clock <= e.now <= Ends(e)
    ensures InOrder(Step(s, e).q, Ends(e)) && (e.Prepare? ==> Step(s, e) == s)
  {
  }

  /** Over every run with a clock that does not go back, the queue stays sorted by last attempt. */
  lemma {:induction false} RunKeepsOrder(s: State, clock: int, run: seq<Event>)
    requires InOrder(s.q, clock) && Timely(clock, run)
    ensures InOrder(After(s, run).q, Clock(clock, run))
    decreases |run|
  {
    if run != [] {
      StepKeepsOrder(s, clock, run[0]);
      RunKeepsOrder(Step(s, run[0]), Ends(run[0]), run[1..]);
    }
  }

  /** In a sorted queue the head alone decides whether anything is due, and how long to wait at most. */
  lemma HeadDecides(q: seq<Delayed>, clock: int, now: int)
    requires InOrder(q, clock) && clock <= now
    ensures HeadIsDue(q, now) <==> exists i :: 0 <= i < |q| && q[i].lastAttempt + RETRY_SEC <= now
    ensures forall i :: 0 <= i < |q| && now <= q[i].lastAttempt + RETRY_SEC ==>
              now + Timeout(q, now) <= q[i].lastAttempt + RETRY_SEC
    ensures forall i :: 0 <= i < |q| && q[i].lastAttempt + RETRY_SEC < now ==> Timeout(q, now) == 0
    ensures q != [] ==> 0 <= Timeout(q, now) <= RETRY_SEC && HeadIsDue(q, now + Timeout(q, now))
  {
    if HeadIsDue(q, now) { assert q[0].lastAttempt + RETRY_SEC <= now; }
  }

  // ----- no request is lost or doubled -------------------------------------

  /** No attempt at this request has been decided. */
  ghost predicate Undecided(s: State, id: nat) {
    id < |s.arrivals| && forall k :: 0 <= k < |s.history| && s.history[k].id == id ==> !s.history[k].decided
  }

  ghost predicate Queued(q: seq<Delayed>, id: nat) { exists i :: 0 <= i < |q| && q[i].id == id }

  /** The queue holds every undecided request once, as it arrived, and nothing else. */
  ghost predicate HoldsUndecided(s: State) {
    && (forall i, j :: 0 <= i < j < |s.q| ==> s.q[i].id != s.q[j].id)
    && (forall i :: 0 <= i < |s.q| ==> s.q[i].id < |s.arrivals| && s.q[i].req == s.arrivals[s.q[i].id])
    && (forall k :: 0 <= k < |s.history| ==> s.history[k].id < |s.arrivals|)
    && (forall id: nat :: Queued(s.q, id) <==> Undecided(s, id))
  }

  lemma JudgedQueues(q: seq<Delayed>, id: nat, req: Request, decided: bool, later: int, x: nat)
    ensures Queued(Judged(q, id, req, decided, later), x) <==> Queued(q, x) || (x == id && !decided)
  {
    var r := Judged(q, id, req, decided, later);
    if Queued(q, x) {
      var i :| 0 <= i < |q| && q[i].id == x;
      assert r[i].id == x;
    }
    if !decided { assert r[|q|].id == id; }
  }

  lemma UndecidedAfter(s: State, t: State, a: Attempt, x: nat)
    requires t.history == s.history + [a] && |s.arrivals| <= |t.arrivals| && x < |t.arrivals|
    requires x < |s.arrivals| || forall k :: 0 <= k < |s.history| ==> s.history[k].id != x
    ensures Undecided(t, x) <==> (x < |s.arrivals| ==> Undecided(s, x)) && (a.id == x ==> !a.decided)
  {
    if Undecided(t, x) {
      assert forall k :: 0 <= k < |s.history| ==> t.history[k] == s.history[k];
      assert t.history[|s.history|] == a;
    }
  }

  lemma ArrivalHolds(s: State, e: Event)
    requires HoldsUndecided(s) && e.Arrival?
    ensures HoldsUndecided(Step(s, e))
  {
    var t, id := Step(s, e), |s.arrivals|;
    forall x: nat ensures Queued(t.q, x) <==> Undecided(t, x) {
      JudgedQueues(s.q, id, e.req, e.decided, e.later, x);
      if x <= id { UndecidedAfter(s, t, Attempt(id, e.now, e.later, e.decided), x); }
    }
  }

  lemma PrepareHolds(s: State, e: Event)
    requires HoldsUndecided(s) && e.Prepare?
    ensures HoldsUndecided(Step(s, e))
  {
    var t := Step(s, e);
    assert |t.q| == |s.q| && forall i :: 0 <= i < |s.q| ==> t.q[i].id == s.q[i].id && t.q[i].req == s.q[i].req;
    forall x: nat ensures Queued(t.q, x) <==> Undecided(t, x) {
      assert Queued(t.q, x) <==> Queued(s.q, x);
    }
  }

  lemma TailQueues(q: seq<Delayed>, x: nat)
    requires q != [] && forall i, j :: 0 <= i < j < |q| ==> q[i].id != q[j].id
    ensures Queued(q[1..], x) <==> Queued(q, x) && x != q[0].id
  {
    if Queued(q, x) && x != q[0].id {
      var i :| 0 <= i < |q| && q[i].id == x;
      assert q[1..][i - 1].id == x;
    }
  }

  lemma RetryHolds(s: State, e: Event)
    requires HoldsUndecided(s) && e.Retry? && HeadIsDue(s.q, e.now)
    ensures HoldsUndecided(Step(s, e))
  {
    var t, d := Step(s, e), s.q[0];
    assert Queued(s.q, d.id);
    forall x: nat ensures Queued(t.q, x) <==> Undecided(t, x) {
      JudgedQueues(s.q[1..], d.id, d.req, e.decided, e.later, x);
      TailQueues(s.q, x);
      if x < |s.arrivals| { UndecidedAfter(s, t, Attempt(d.id, e.now, e.later, e.decided), x); }
    }
  }

  /** Whatever the clock does, in every run each undecided request waits in the queue exactly once. */
  lemma {:induction false} RunHoldsUndecided(s: State, run: seq<Event>)
    requires HoldsUndecided(s)
    ensures HoldsUndecided(After(s, run))
    decreases |run|
  {
    hide HoldsUndecided;
    if run != [] {
      match run[0] {
        case Arrival(_, _, _, _) => ArrivalHolds(s, run[0]);
        case Prepare(_) => PrepareHolds(s, run[0]);
        case Retry(_, _, _) => if HeadIsDue(s.q, run[0].now) { RetryHolds(s, run[0]); }
      }
      RunHoldsUndecided(Step(s, run[0]), run[1..]);
    }
  }

  // ----- nothing is retried early ------------------------------------------

  /** Between two attempts at one request there are at least RETRY_SEC seconds. */
  ghost predicate Spaced(history: seq<Attempt>) {
    forall i, j :: 0 <= i < j < |history| && history[i].id == history[j].id ==>
      history[i].ends + RETRY_SEC <= history[j].begins
  }

  /** The time of a queued request is the end of the last attempt at it. */
  ghost predicate IsLastAttempt(history: seq<Attempt>, d: Delayed) {
    && (exists i :: 0 <= i < |history| && history[i].id == d.id && history[i].ends == d.lastAttempt)
    && (forall i :: 0 <= i < |history| && history[i].id == d.id ==> history[i].ends <= d.lastAttempt)
  }

  ghost predicate TimesAreLast(s: State) {
    && (forall i :: 0 <= i < |s.q| ==> IsLastAttempt(s.history, s.q[i]))
    && (forall i, j :: 0 <= i < j < |s.q| ==> s.q[i].id != s.q[j].id)
    && (forall i :: 0 <= i < |s.q| ==> s.q[i].id < |s.arrivals|)
    && (forall k :: 0 <= k < |s.history| ==> s.history[k].id < |s.arrivals|)
  }

  lemma OtherAttempt(history: seq<Attempt>, a: Attempt, d: Delayed)
    requires IsLastAttempt(history, d) && a.id != d.id
    ensures IsLastAttempt(history + [a], d)
  {
    var i :| 0 <= i < |history| && history[i].id == d.id && history[i].ends == d.lastAttempt;
    assert (history + [a])[i] == history[i];
  }

  lemma OwnAttempt(history: seq<Attempt>, a: Attempt, req: Request)
    requires forall i :: 0 <= i < |history| && history[i].id == a.id ==> history[i].ends <= a.ends
    ensures IsLastAttempt(history + [a], Delayed(a.id, req, a.ends))
  {
    assert (history + [a])[|history|] == a;
  }

  lemma ArrivalIsSpaced(s: State, e: Event)
    requires Spaced(s.history) && TimesAreLast(s) && e.Arrival?
    ensures Spaced(Step(s, e).history) && TimesAreLast(Step(s, e))
  {
    var a := Attempt(|s.arrivals|, e.now, e.later, e.decided);
    OwnAttempt(s.history, a, e.req);
    forall i | 0 <= i < |s.q| ensures IsLastAttempt(s.history + [a], s.q[i]) { OtherAttempt(s.history, a, s.q[i]); }
  }

  lemma RetryIsSpaced(s: State, e: Event)
    requires Spaced(s.history) && TimesAreLast(s) && e.Retry? && HeadIsDue(s.q, e.now) && e.now <= e.later
    ensures Spaced(Step(s, e).history) && TimesAreLast(Step(s, e))
  {
    var d := s.q[0];
    var a := Attempt(d.id, e.now, e.later, e.decided);
    assert IsLastAttempt(s.history, d);
    OwnAttempt(s.history, a, d.req);
    forall i | 1 <= i < |s.q| ensures IsLastAttempt(s.history + [a], s.q[i]) { OtherAttempt(s.history, a, s.q[i]); }
  }

  lemma {:induction false} RunIsSpaced(s: State, clock: int, run: seq<Event>)
    requires InOrder(s.q, clock) && Timely(clock, run) && Spaced(s.history) && TimesAreLast(s)
    ensures Spaced(After(s, run).history) && TimesAreLast(After(s, run))
    decreases |run|
  {
    hide TimesAreLast, Spaced;
    if run != [] {
      StepKeepsOrder(s, clock, run[0]);
      match run[0] {
        case Arrival(_, _, _, _) => ArrivalIsSpaced(s, run[0]);
        case Prepare(_) =>
        case Retry(_, _, _) => if HeadIsDue(s.q, run[0].now) { RetryIsSpaced(s, run[0]); }
      }
      RunIsSpaced(Step(s, run[0]), Ends(run[0]), run[1..]);
    }
  }

  /**
   With a clock that does not go back, every attempt at a request begins at
   least RETRY_SEC after every earlier attempt at it has ended, and the queue
   remembers when the last one did.
   */
  lemma NothingIsRetriedEarly(clock: int, run: seq<Event>)
    requires Timely(clock, run)
    ensures Spaced(After(START, run).history)
    ensures forall d :: d in After(START, run).q ==> IsLastAttempt(After(START, run).history, d)
  {
    RunIsSpaced(START, clock, run);
  }

  /** When the clock goes back the head is tried again at once, and the guarantee is gone. */
  lemma ClockBackRetriesEarly(req: Request, attempt: int, now: int)
    requires now < attempt
    ensures var run := [Arrival(attempt, req, false, attempt), Prepare(now), Retry(now, false, now)];
            !Spaced(After(START, run).history)
  {
    var arrival, prepare, retry := Arrival(attempt, req, false, attempt), Prepare(now), Retry(now, false, now);
    var run := [arrival, prepare, retry];
    assert run[1..] == [prepare, retry] && [prepare, retry][1..] == [retry] && [retry][1..] == [];
    var s1 := Step(START, arrival);
    var s2 := Step(s1, prepare);
    assert s2.q[0] == Delayed(0, req, now - RETRY_SEC);
    var s3 := Step(s2, retry);
    assert s3.history[0] == Attempt(0, attempt, attempt, false) && s3.history[1] == Attempt(0, now, now, false);
    assert After(s2, [retry]) == After(s3, []) == s3;
    assert After(s1, [prepare, retry]) == After(s2, [retry]);
    assert After(START, run) == After(s1, [prepare, retry]);
  }

  // ----- the list of the source --------------------------------------------

  /** A struct delayed; its number is not in the source. */
  class Node {
    ghost const id: nat
    const req: Request
    var lastAttempt: int
    var next: Node?

    constructor (ghost id: nat, req: Request, lastAttempt: int)
      ensures this.id == id && this.req == req && this.lastAttempt == lastAttempt && next == null
    {
      this.id, this.req, this.lastAttempt := id, req, lastAttempt;
      next := null;
    }

    ghost function Value(): Delayed
      reads this`lastAttempt
    {
      Delayed(id, req, lastAttempt)
    }
  }

  ghost function Values(nodes: seq<Node>): (v: seq<Delayed>)
    reads nodes`lastAttempt
    ensures |v| == |nodes| && forall i :: 0 <= i < |nodes| ==> v[i] == nodes[i].Value()
  {
    if nodes == [] then [] else [nodes[0].Value()] + Values(nodes[1..])
  }

  lemma ValuesSnoc(nodes: seq<Node>, d: Node)
    ensures Values(nodes + [d]) == Values(nodes) + [d.Value()]
  {
  }

  lemma HeadAndRest(nodes: seq<Node>)
    requires nodes != []
    ensures Values(nodes)[0] == nodes[0].Value() && Values(nodes)[1..] == Values(nodes[1..])
  {
  }

  /** The `delayed` list of cache.c, linked node by node. */
  class Queue {
    var delayed: Node?
    ghost var nodes: seq<Node>
    ghost var state: State

    ghost predicate Linked()
      reads this`delayed, this`nodes, nodes`next
    {
      && (forall i, j :: 0 <= i < j < |nodes| ==> nodes[i] != nodes[j])
      && delayed == (if nodes == [] then null else nodes[0])
      && (forall i :: 0 <= i < |nodes| - 1 ==> nodes[i].next == nodes[i + 1])
      && (nodes != [] ==> nodes[|nodes| - 1].next == null)
    }

    ghost predicate Valid()
      reads this, nodes
    {
      Linked() && Values(nodes) == state.q && HoldsUndecided(state)
    }

    constructor ()
      ensures Valid() && state == START
    {
      delayed, nodes, state := null, [], START;
    }

    /** The walk to the last link and the store there (cache.c:1065-1069, 1082-1086). */
    method Append(d: Node)
      requires Linked() && d !in nodes
      modifies this`delayed, this`nodes, nodes`next, d`next
      ensures Linked() && nodes == old(nodes) + [d]
    {
      d.next := null;
      if delayed == null {
        delayed := d;
      } else {
        var p := delayed;
        ghost var i := 0;
        while p.next != null
          invariant 0 <= i < |nodes| && p == nodes[i] && p.next == if i + 1 < |nodes| then nodes[i + 1] else null
          decreases |nodes| - i
        {
          p := p.next;
          i := i + 1;
        }
        p.next := d;
      }
      nodes := nodes + [d];
    }

    /** nfsd_fh (cache.c:1031-1070); `decided` is the answer of nfsd_handle_fh, which came at `later`. */
    method NfsdFh(req: Request, decided: bool, ghost now: int, later: int)
      requires Valid()
      modifies this, nodes`next
      ensures Valid() && state == Step(old(state), Arrival(now, req, decided, later))
      ensures forall i :: 0 <= i < |nodes| ==> nodes[i] in old(nodes) || fresh(nodes[i])
    {
      hide Linked, HoldsUndecided, Values;
      ghost var e := Arrival(now, req, decided, later);
      ArrivalHolds(state, e);
      if !decided {
        var d := new Node(|state.arrivals|, req, later);
        ValuesSnoc(nodes, d);
        Append(d);
      }
      state := Step(state, e);
    }

    lemma HeadIsFirst()
      requires Linked()
      ensures delayed == if nodes == [] then null else nodes[0]
      ensures forall i :: 1 <= i < |nodes| ==> nodes[i] != nodes[0]
    {
    }

    /** The part of cache_process before the wait (cache.c:1845-1855). */
    method BeforeWait(now: int) returns (tv: int)
      requires Valid()
      modifies this`state, nodes`lastAttempt
      ensures Valid() && nodes == old(nodes) && state == Step(old(state), Prepare(now))
      ensures tv == Timeout(state.q, now)
      ensures state.q != [] ==> 0 <= tv && HeadIsDue(state.q, now + tv)
      ensures state.q != [] ==> forall t :: now <= t < now + tv ==> !HeadIsDue(state.q, t)
    {
      hide Linked, HoldsUndecided;
      HeadIsFirst();
      PrepareHolds(state, Prepare(now));
      state := Step(state, Prepare(now));
      tv := DAY;
      if delayed != null {
        if delayed.lastAttempt > now {
          delayed.lastAttempt := now - RETRY_SEC;
        }
        var delay := delayed.lastAttempt + RETRY_SEC - now;
        if delay < 0 {
          delay := 0;
        }
        tv := delay;
      }
    }

    /** Takes the head out of the list (cache.c:1863-1864). */
    method Unlink() returns (d: Node)
      requires Linked() && delayed != null
      modifies this`delayed, this`nodes, delayed`next
      ensures Linked() && old(nodes) == [d] + nodes && d !in nodes
    {
      d := delayed;
      delayed := d.next;
      nodes := nodes[1..];
      d.next := null;
    }

    /** The part after it: the head is unlinked when it is due, and tried again (cache.c:1858-1867). */
    method AfterWait(now: int, decided: bool, later: int)
      requires Valid()
      modifies this, nodes
      ensures Valid() && state == Step(old(state), Retry(now, decided, later))
      ensures forall i :: 0 <= i < |nodes| ==> nodes[i] in old(nodes)
    {
      hide Linked, Values, Judged, HoldsUndecided;
      HeadIsFirst();
      if HeadIsDue(state.q, now) { RetryHolds(state, Retry(now, decided, later)); }
      if delayed != null {
        if delayed.lastAttempt + RETRY_SEC <= now {
          RetryHead(decided, later);
        }
      }
      state := Step(state, Retry(now, decided, later));
    }

    method RetryHead(decided: bool, later: int)
      requires Linked() && delayed != null && nodes != []
      modifies this`delayed, this`nodes, nodes
      ensures Linked()
      ensures var d := old(Values(nodes))[0];
              Values(nodes) == Judged(old(Values(nodes))[1..], d.id, d.req, decided, later)
      ensures nodes == old(nodes)[1..] || nodes == old(nodes)[1..] + [old(nodes)[0]]
    {
      hide Linked, Values, Judged;
      HeadIsFirst();
      HeadAndRest(nodes);
      ghost var was, rest := Values(nodes), nodes[1..];
      var d := Unlink();
      assert nodes == rest && was[0] == d.Value() && was[1..] == Values(nodes);
      RetryFh(d, decided, later);
    }

    /** nfsd_retry_fh (cache.c:1072-1087) on the unlinked node. */
    method RetryFh(d: Node, decided: bool, later: int)
      requires Linked() && d !in nodes
      modifies this`delayed, this`nodes, nodes`next, d
      ensures Linked() && Values(nodes) == Judged(old(Values(nodes)), d.id, d.req, decided, later)
      ensures nodes == old(nodes) || nodes == old(nodes) + [d]
    {
      hide Linked;
      if decided {
        return;
      }
      d.lastAttempt := later;
      Append(d);
    }

    /** Any sequence of calls: the list is what the run makes of it. */
    method Drive(run: seq<Event>)
      requires Valid()
      modifies this, nodes
      ensures Valid() && state == After(old(state), run)
      ensures forall i :: 0 <= i < |nodes| ==> nodes[i] in old(nodes) || fresh(nodes[i])
    {
      hide Linked, Step;
      for k := 0 to |run|
        invariant Valid() && After(state, run[k..]) == After(old(state), run)
        invariant forall i :: 0 <= i < |nodes| ==> nodes[i] in old(nodes) || fresh(nodes[i])
      {
        assert run[k..][0] == run[k] && run[k..][1..] == run[k + 1..];
        match run[k] {
          case Arrival(now, req, decided, later) => NfsdFh(req, decided, now, later);
          case Prepare(now) => var _ := BeforeWait(now);
          case Retry(now, decided, later) => AfterWait(now, decided, later);
        }
      }
    }
  }

  /**
   The whole life of a server's queue.  Whatever happens, the linked list holds
   every undecided request exactly once; while the clock does not go back it is
   sorted by last attempt, and no request is tried again early.
   */
  method Life(clock: int, run: seq<Event>) returns (queue: Queue)
    ensures fresh(queue) && queue.Valid() && queue.state == After(START, run) && HoldsUndecided(queue.state)
    ensures Timely(clock, run) ==> InOrder(Values(queue.nodes), Clock(clock, run)) && Spaced(queue.state.history)
  {
    queue := new Queue();
    queue.Drive(run);
    if Timely(clock, run) {
      RunKeepsOrder(START, clock, run);
      NothingIsRetriedEarly(clock, run);
    }
  }
}
