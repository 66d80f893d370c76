/**
 The NSM state number on disk (support/nsm/file.c): nsm_get_state and
 nsm_atomic_write as a sequence of system calls, any of which can fail, with a
 crash possible between any two of them.

 The number is odd while the host is up (chapter 11 of the Open Group's XNFS,
 Version 3W), and peers rely on it only ever growing.  A file that was written
 with O_SYNC and renamed is assumed to survive a crash, and a rename to be atomic.
 */
module NsmState {
  import opened Wrappers

  // ----- the number as bytes -----------------------------------------------

  const INT_MAX := 0x7fff_ffff

  /** A four-byte integer in memory order. */
  function Bytes(v: int): (b: seq<int>)
    ensures |b| == 4
  {
    [v % 256, v / 256 % 256, v / 65536 % 256, v / 16777216 % 256]
  }

  function Value(b: seq<int>): int
    requires |b| == 4
  {
    b[0] + 256 * b[1] + 65536 * b[2] + 16777216 * b[3]
  }

  lemma ValueOfBytes(v: int)
    requires 0 <= v <= INT_MAX
    ensures Value(Bytes(v)) == v
  {
  }

  // ----- the steps ---------------------------------------------------------

  /** The state file and its temporary sibling. */
  datatype Disk = Disk(state: Option<seq<int>>, temp: Option<seq<int>>)

  /**
   Where a call stands.  `updated` tells a return that stored a number from one
   that only read it; zero is the error return.
   */
  datatype Pc =
    | Idle
    | Opening(update: bool)
    | Reading(update: bool)
    | Creating(v: int)
    | Writing(v: int)
    | Closing(v: int)
    | Renaming(v: int)
    | Unlinking
    | Returning(v: int, updated: bool)

  datatype Action =
    | Call(update: bool)
    | OpenMissing | OpenFails | OpenOk
    | ReadOk | ReadError
    | CreateOk | CreateFails
    | WriteOk | WriteShort(n: nat)
    | CloseOk | CloseFails
    | RenameOk | RenameFails
    | Unlink
    | Return
    | Crash

  /** `stored` lists the numbers the state file has held. */
  datatype State = State(disk: Disk, pc: Pc, stored: seq<int>)

  /** An even number is never in force while the host is up. */
  function MakeOdd(v: int): int { if v % 2 == 0 then v + 1 else v }

  /** Nothing in the file, or not a whole number: start over at 1 and store. */
  function Initialise(): Pc { Creating(1 + 2) }

  /** Counting past INT_MAX is undefined in C: such a run is not considered. */
  predicate Enabled(s: State, a: Action) {
    match a
    case Call(_) => s.pc == Idle
    case OpenMissing => s.pc.Opening? && s.disk.state == None
    case OpenFails => s.pc.Opening?
    case OpenOk => s.pc.Opening? && s.disk.state.Some?
    case ReadOk => s.pc.Reading? && s.disk.state.Some?
                   && (s.pc.update && |s.disk.state.value| == 4 ==> Value(s.disk.state.value) <= INT_MAX - 3)
    case ReadError => s.pc.Reading?
    case CreateOk => s.pc.Creating?
    case CreateFails => s.pc.Creating?
    case WriteOk => s.pc.Writing?
    case WriteShort(n) => s.pc.Writing? && n < 4
    case CloseOk => s.pc.Closing?
    case CloseFails => s.pc.Closing?
    case RenameOk => s.pc.Renaming? && s.disk.temp.Some?
    case RenameFails => s.pc.Renaming?
    case Unlink => s.pc == Unlinking
    case Return => s.pc.Returning?
    case Crash => true
  }

  /** The number in a whole file goes on to be returned or stored; anything else starts over. */
  function AfterRead(content: seq<int>, update: bool): Pc {
    if |content| != 4 then Initialise()
    else if update then Creating(MakeOdd(Value(content)) + 2)
    else Returning(MakeOdd(Value(content)), false)
  }

  function Do(s: State, a: Action): State
    requires Enabled(s, a)
  {
    match a
    case Call(update) => s.(pc := Opening(update))
    case OpenMissing => s.(pc := Initialise())
    case OpenFails => s.(pc := Returning(0, false))
    case OpenOk => s.(pc := Reading(s.pc.update))
    case ReadOk => s.(pc := AfterRead(s.disk.state.value, s.pc.update))
    case ReadError => s.(pc := Initialise())
    case CreateOk => s.(pc := Writing(s.pc.v), disk := s.disk.(temp := Some([])))
    case CreateFails => s.(pc := Returning(0, false))
    case WriteOk => s.(pc := Closing(s.pc.v), disk := s.disk.(temp := Some(Bytes(s.pc.v))))
    case WriteShort(n) => s.(pc := Unlinking, disk := s.disk.(temp := Some(Bytes(s.pc.v)[..n])))
    case CloseOk => s.(pc := Renaming(s.pc.v))
    case CloseFails => s.(pc := Unlinking)
    case RenameOk =>
      s.(pc := Returning(s.pc.v, true), disk := Disk(s.disk.temp, None), stored := s.stored + [s.pc.v])
    case RenameFails => s.(pc := Unlinking)
    case Unlink => s.(pc := Returning(0, false), disk := s.disk.(temp := None))
    case Return => s.(pc := Idle)
    case Crash => s.(pc := Idle)
  }

  predicate IsRun(s: State, run: seq<Action>)
    decreases |run|
  {
    run == [] || (Enabled(s, run[0]) && IsRun(Do(s, run[0]), run[1..]))
  }

  function After(s: State, run: seq<Action>): State
    requires IsRun(s, run)
    decreases |run|
  {
    if run == [] then s else After(Do(s, run[0]), run[1..])
  }

  // ----- what every run keeps ----------------------------------------------

  /** The state file is absent or holds one complete number. */
  ghost predicate Complete(d: Disk) {
    d.state.Some? ==> |d.state.value| == 4
  }

  ghost predicate Growing(stored: seq<int>) {
    forall i, j :: 0 <= i < j < |stored| ==> stored[i] < stored[j]
  }

  /** `v` is odd and greater than every number stored so far. */
  ghost predicate Next(v: int, stored: seq<int>) {
    v % 2 == 1 && 0 < v && forall i :: 0 <= i < |stored| ==> stored[i] < v
  }

  ghost predicate Inv(s: State) {
    && Complete(s.disk)
    && Growing(s.stored)
    && (forall i :: 0 <= i < |s.stored| ==> 0 <= s.stored[i] <= INT_MAX)
    && (s.stored == [] <==> s.disk.state == None)
    && (s.stored != [] ==> s.disk.state == Some(Bytes(s.stored[|s.stored| - 1])))
    && match s.pc
       case Creating(v) => Next(v, s.stored) && v <= INT_MAX
       case Writing(v) => Next(v, s.stored) && v <= INT_MAX && s.disk.temp == Some([])
       case Closing(v) => Next(v, s.stored) && v <= INT_MAX && s.disk.temp == Some(Bytes(v))
       case Renaming(v) => Next(v, s.stored) && v <= INT_MAX && s.disk.temp == Some(Bytes(v))
       case Returning(v, updated) =>
         && (updated ==> v % 2 == 1 && 0 < v && s.stored != [] && v == s.stored[|s.stored| - 1])
         && (!updated && v != 0 ==> v % 2 == 1 && s.stored != [] && v == MakeOdd(s.stored[|s.stored| - 1]))
       case _ => true
  }

  lemma LastIsGreatest(stored: seq<int>)
    requires Growing(stored) && stored != []
    ensures forall i :: 0 <= i < |stored| ==> stored[i] <= stored[|stored| - 1]
  {
  }

  lemma ReadKeepsInv(s: State)
    requires Inv(s) && Enabled(s, ReadOk)
    ensures Inv(Do(s, ReadOk))
  {
    hide Bytes;
    LastIsGreatest(s.stored);
    ValueOfBytes(s.stored[|s.stored| - 1]);
  }

  lemma RenameKeepsInv(s: State)
    requires Inv(s) && Enabled(s, RenameOk)
    ensures Inv(Do(s, RenameOk))
  {
    hide Bytes;
  }

  /** So few numbers have been stored that starting over at 3 repeats none of them. */
  ghost predicate Young(stored: seq<int>) { forall i :: 0 <= i < |stored| ==> stored[i] < 3 }

  lemma StepKeepsInv(s: State, a: Action)
    requires Inv(s) && Enabled(s, a) && (a.ReadError? ==> Young(s.stored))
    ensures Inv(Do(s, a))
  {
    hide Bytes, Value;
    if a.ReadOk? {
      ReadKeepsInv(s);
    } else if a.RenameOk? {
      RenameKeepsInv(s);
    }
  }

  /** Every read that fails on a file that is there fails before a number of 3 or more was stored. */
  ghost predicate ReadErrorsComeEarly(s: State, run: seq<Action>)
    requires IsRun(s, run)
    decreases |run|
  {
    run == [] || ((run[0].ReadError? ==> Young(s.stored)) && ReadErrorsComeEarly(Do(s, run[0]), run[1..]))
  }

  lemma {:induction false} RunKeepsInv(s: State, run: seq<Action>)
    requires Inv(s) && IsRun(s, run) && ReadErrorsComeEarly(s, run)
    ensures Inv(After(s, run))
    decreases |run|
  {
    if run != [] {
      StepKeepsInv(s, run[0]);
      RunKeepsInv(Do(s, run[0]), run[1..]);
    }
  }

  /** A host that has not stored anything, or one that has stored `v` before; stray temporaries do not matter. */
  function Start(v: Option<int>, temp: Option<seq<int>>): State {
    match v
    case None => State(Disk(None, temp), Idle, [])
    case Some(x) => State(Disk(Some(Bytes(x)), temp), Idle, [x])
  }

  /** The temporary is renamed only when it holds the whole number. */
  ghost predicate Whole(s: State) {
    Complete(s.disk) && (s.pc.Closing? || s.pc.Renaming? ==> s.disk.temp == Some(Bytes(s.pc.v)))
  }

  lemma {:induction false} RunKeepsWhole(s: State, run: seq<Action>)
    requires Whole(s) && IsRun(s, run)
    ensures Whole(After(s, run))
    decreases |run|
  {
    hide Bytes, Value;
    if run != [] { RunKeepsWhole(Do(s, run[0]), run[1..]); }
  }

  /** Whatever fails and wherever the host crashes, the state file is absent or holds one complete number. */
  lemma StateFileIsAlwaysWhole(v: Option<int>, temp: Option<seq<int>>, run: seq<Action>)
    requires IsRun(Start(v, temp), run)
    ensures Complete(After(Start(v, temp), run).disk)
  {
    RunKeepsWhole(Start(v, temp), run);
  }

  /** The numbers it holds one after the other only grow, and the last one stored is the one in the file. */
  lemma StoredNumbersGrow(v: Option<int>, temp: Option<seq<int>>, run: seq<Action>)
    requires v.Some? ==> 0 <= v.value <= INT_MAX
    requires IsRun(Start(v, temp), run) && ReadErrorsComeEarly(Start(v, temp), run)
    ensures var s := After(Start(v, temp), run);
            Growing(s.stored) && (s.stored != [] ==> s.disk.state == Some(Bytes(s.stored[|s.stored| - 1])))
  {
    RunKeepsInv(Start(v, temp), run);
  }

  /** A successful update returns an odd number, greater than every number stored before it. */
  lemma UpdatesReturnGrowingOddNumbers(v: Option<int>, temp: Option<seq<int>>, run: seq<Action>)
    requires v.Some? ==> 0 <= v.value <= INT_MAX
    requires IsRun(Start(v, temp), run) && ReadErrorsComeEarly(Start(v, temp), run)
    ensures var s := After(Start(v, temp), run);
            s.pc.Returning? && s.pc.updated ==>
              && s.pc.v % 2 == 1 && s.stored != [] && s.pc.v == s.stored[|s.stored| - 1]
              && forall i :: 0 <= i < |s.stored| - 1 ==> s.stored[i] < s.pc.v
    ensures var s := After(Start(v, temp), run);
            s.pc.Returning? && !s.pc.updated && s.pc.v != 0 ==>
              s.stored != [] && IsLeastOdd(s.pc.v, s.stored[|s.stored| - 1])
  {
    RunKeepsInv(Start(v, temp), run);
  }

  // ----- calls in which nothing fails --------------------------------------

  /** `w` is the least odd number that is not below `bound`. */
  ghost predicate IsLeastOdd(w: int, bound: int) {
    w % 2 == 1 && bound <= w && forall u :: u % 2 == 1 && bound <= u ==> w <= u
  }

  lemma {:induction false} Extend(s: State, run: seq<Action>, a: Action) returns (longer: seq<Action>)
    requires IsRun(s, run) && Enabled(After(s, run), a)
    ensures IsRun(s, longer) && After(s, longer) == Do(After(s, run), a)
    ensures longer == run + [a]
    decreases |run|
  {
    hide Bytes, Value;
    longer := run + [a];
    if run != [] {
      var rest := Extend(Do(s, run[0]), run[1..], a);
      assert longer[1..] == rest;
    }
  }

  /** nsm_atomic_write in which nothing fails. */
  lemma Store(s: State, run: seq<Action>) returns (longer: seq<Action>)
    requires IsRun(s, run) && After(s, run).pc.Creating?
    ensures longer == run + [CreateOk, WriteOk, CloseOk, RenameOk] && IsRun(s, longer)
    ensures var at := After(s, run);
            After(s, longer)
            == State(Disk(Some(Bytes(at.pc.v)), None), Returning(at.pc.v, true), at.stored + [at.pc.v])
  {
    hide Bytes, IsRun, After;
    longer := Extend(s, run, CreateOk);
    longer := Extend(s, longer, WriteOk);
    longer := Extend(s, longer, CloseOk);
    longer := Extend(s, longer, RenameOk);
  }

  /** An update stores and returns the least odd number that is more than one greater than the last. */
  lemma UpdateStoresTheNextOdd(v: int, temp: Option<seq<int>>) returns (run: seq<Action>, w: int)
    requires 0 <= v <= INT_MAX - 3
    ensures run == [Call(true), OpenOk, ReadOk, CreateOk, WriteOk, CloseOk, RenameOk]
    ensures IsLeastOdd(w, v + 2) && IsRun(Start(Some(v), temp), run)
    ensures After(Start(Some(v), temp), run) == State(Disk(Some(Bytes(w)), None), Returning(w, true), [v, w])
  {
    hide Bytes, Value;
    var s := Start(Some(v), temp);
    ValueOfBytes(v);
    w := MakeOdd(v) + 2;
    run := Extend(s, [], Call(true));
    run := Extend(s, run, OpenOk);
    run := Extend(s, run, ReadOk);
    run := Store(s, run);
  }

  /** A call that does not update returns the least odd number not below the last, and leaves the disk alone. */
  lemma ReadReturnsAnOdd(v: int, temp: Option<seq<int>>) returns (run: seq<Action>, w: int)
    requires 0 <= v <= INT_MAX
    ensures run == [Call(false), OpenOk, ReadOk]
    ensures IsLeastOdd(w, v) && IsRun(Start(Some(v), temp), run)
    ensures After(Start(Some(v), temp), run) == Start(Some(v), temp).(pc := Returning(w, false))
  {
    hide Bytes, Value;
    var s := Start(Some(v), temp);
    ValueOfBytes(v);
    w := MakeOdd(v);
    run := Extend(s, [], Call(false));
    run := Extend(s, run, OpenOk);
    run := Extend(s, run, ReadOk);
  }

  /** The first call of all stores and returns 3, whether it was to update or not. */
  lemma FirstCallStoresThree(temp: Option<seq<int>>, update: bool) returns (run: seq<Action>)
    ensures run == [Call(update), OpenMissing, CreateOk, WriteOk, CloseOk, RenameOk]
    ensures IsRun(Start(None, temp), run)
    ensures After(Start(None, temp), run) == State(Disk(Some(Bytes(3)), None), Returning(3, true), [3])
  {
    hide Bytes, Value;
    var s := Start(None, temp);
    run := Extend(s, [], Call(update));
    run := Extend(s, run, OpenMissing);
    run := Store(s, run);
  }

  // ----- calls in which something fails ------------------------------------

  predicate IsFailure(a: Action) {
    a.OpenFails? || a.CreateFails? || a.WriteShort? || a.CloseFails? || a.RenameFails?
  }

  /** The last call of the run has a step that failed. */
  ghost predicate LastCallFailed(run: seq<Action>) {
    exists i :: 0 <= i < |run| && IsFailure(run[i]) && forall j :: i < j < |run| ==> !run[j].Call?
  }

  /** What is known of a call of which `failed` tells whether a step has failed. */
  ghost predicate FailInv(s: State, failed: bool) {
    && (s.disk.state.Some? ==> |s.disk.state.value| == 4 && 0 <= Value(s.disk.state.value) <= INT_MAX)
    && match s.pc
       case Idle => true
       case Opening(_) => !failed
       case Reading(_) => !failed
       case Creating(v) => !failed && 0 < v <= INT_MAX
       case Writing(v) => !failed && 0 < v <= INT_MAX
       case Closing(v) => !failed && 0 < v <= INT_MAX && s.disk.temp == Some(Bytes(v))
       case Renaming(v) => !failed && 0 < v <= INT_MAX && s.disk.temp == Some(Bytes(v))
       case Unlinking => failed
       case Returning(v, _) => v == 0 <==> failed
  }

  function FailedBy(failed: bool, a: Action): bool { !a.Call? && (failed || IsFailure(a)) }

  lemma StepKeepsFailInv(s: State, failed: bool, a: Action)
    requires FailInv(s, failed) && Enabled(s, a)
    ensures FailInv(Do(s, a), FailedBy(failed, a))
  {
    hide Bytes, Value;
    if a.RenameOk? { ValueOfBytes(s.pc.v); }
  }

  lemma {:induction false} ZeroFromHere(s: State, failed: bool, run: seq<Action>)
    requires FailInv(s, failed) && IsRun(s, run) && After(s, run).pc.Returning?
    ensures After(s, run).pc.v == 0 <==>
            LastCallFailed(run) || (failed && forall j :: 0 <= j < |run| ==> !run[j].Call?)
    decreases |run|
  {
    hide Do, Enabled, FailInv;
    if run == [] {
      ZeroNow(s, failed);
    } else {
      StepKeepsFailInv(s, failed, run[0]);
      ZeroFromHere(Do(s, run[0]), FailedBy(failed, run[0]), run[1..]);
      FailedLater(failed, run);
    }
  }

  lemma ZeroNow(s: State, failed: bool)
    requires FailInv(s, failed) && s.pc.Returning?
    ensures s.pc.v == 0 <==> failed
  {
  }

  lemma FailedLater(failed: bool, run: seq<Action>)
    requires run != []
    ensures LastCallFailed(run) || (failed && forall j :: 0 <= j < |run| ==> !run[j].Call?) <==>
            LastCallFailed(run[1..])
            || (FailedBy(failed, run[0]) && forall j :: 0 <= j < |run[1..]| ==> !run[1..][j].Call?)
  {
    var rest := run[1..];
    assert forall j :: 0 < j < |run| ==> run[j] == rest[j - 1];
    assert forall j :: 0 <= j < |rest| ==> rest[j] == run[j + 1];
    if LastCallFailed(rest) {
      var i :| 0 <= i < |rest| && IsFailure(rest[i]) && forall j :: i < j < |rest| ==> !rest[j].Call?;
      assert IsFailure(run[i + 1]);
    }
  }

  /** Over every run, a call returns zero exactly when one of its own steps failed. */
  lemma ReturnsZeroExactlyWhen(v: Option<int>, temp: Option<seq<int>>, run: seq<Action>)
    requires v.Some? ==> 0 <= v.value <= INT_MAX
    requires IsRun(Start(v, temp), run) && After(Start(v, temp), run).pc.Returning?
    ensures After(Start(v, temp), run).pc.v == 0 <==> LastCallFailed(run)
  {
    if v.Some? { ValueOfBytes(v.value); }
    ZeroFromHere(Start(v, temp), false, run);
  }

  // ----- where the guarantees end ------------------------------------------

  /**
   A read that fails on a file that is there starts the count over.  If the
   update then succeeds, the numbers still grow exactly when none of 3 or more
   had been stored.
   */
  lemma ReadErrorRestarts(s: State) returns (run: seq<Action>)
    requires Inv(s) && Enabled(s, ReadError)
    ensures IsRun(s, run) && run == [ReadError, CreateOk, WriteOk, CloseOk, RenameOk]
    ensures After(s, run).stored == s.stored + [3] && After(s, run).pc == Returning(3, true)
    ensures Growing(After(s, run).stored) <==> Young(s.stored)
  {
    hide Bytes, Value;
    run := Extend(s, [], ReadError);
    run := Store(s, run);
    OneMore(s.stored);
  }

  lemma OneMore(stored: seq<int>)
    requires Growing(stored)
    ensures Growing(stored + [3]) <==> Young(stored)
  {
    if Growing(stored + [3]) {
      forall i | 0 <= i < |stored| ensures stored[i] < 3 {
        assert (stored + [3])[i] < (stored + [3])[|stored|];
      }
    }
  }

  /** Whether the call in hand began with a read error. */
  function Restarted(restarted: bool, a: Action): bool {
    match a
    case Call(_) => false
    case ReadError => true
    case _ => restarted
  }

  /** No update that began with a read error takes effect once a number of 3 or more has been stored. */
  ghost predicate NoLateRestart(s: State, restarted: bool, run: seq<Action>)
    requires IsRun(s, run)
    decreases |run|
  {
    run == [] ||
    ((run[0].RenameOk? && restarted ==> Young(s.stored))
     && NoLateRestart(Do(s, run[0]), Restarted(restarted, run[0]), run[1..]))
  }

  /** The invariant without the claim that a number about to be stored is the greatest, for a call that restarted. */
  ghost predicate RestartInv(s: State, restarted: bool) {
    if restarted then
      && Inv(s.(pc := Idle))
      && match s.pc
         case Idle => true
         case Creating(v) => v == 3
         case Writing(v) => v == 3 && s.disk.temp == Some([])
         case Closing(v) => v == 3 && s.disk.temp == Some(Bytes(v))
         case Renaming(v) => v == 3 && s.disk.temp == Some(Bytes(v))
         case Unlinking => true
         case Returning(_, _) => Inv(s)
         case _ => false
    else Inv(s)
  }

  lemma StepKeepsRestartInv(s: State, restarted: bool, a: Action)
    requires RestartInv(s, restarted) && Enabled(s, a) && (a.RenameOk? && restarted ==> Young(s.stored))
    ensures RestartInv(Do(s, a), Restarted(restarted, a))
  {
    hide Bytes, Value;
    if !restarted && !a.ReadError? { StepKeepsInv(s, a); }
  }

  lemma LateRestartBreaksGrowth(s: State)
    requires RestartInv(s, true) && Enabled(s, RenameOk) && !Young(s.stored)
    ensures !Growing(Do(s, RenameOk).stored)
  {
    hide Bytes, Value;
    OneMore(s.stored);
  }

  lemma {:induction false} StoredOnlyGrowsLonger(s: State, run: seq<Action>)
    requires IsRun(s, run)
    ensures s.stored <= After(s, run).stored
    decreases |run|
  {
    hide Bytes, Value;
    if run != [] { StoredOnlyGrowsLonger(Do(s, run[0]), run[1..]); }
  }

  lemma PrefixGrows(a: seq<int>, b: seq<int>)
    requires a <= b && Growing(b)
    ensures Growing(a)
  {
  }

  lemma {:induction false} GrowsFromHere(s: State, restarted: bool, run: seq<Action>)
    requires RestartInv(s, restarted) && IsRun(s, run)
    ensures Growing(After(s, run).stored) <==> NoLateRestart(s, restarted, run)
    decreases |run|
  {
    hide Bytes, Value, Do, Enabled, Young, Growing, RestartInv;
    if run == [] {
      RestartInvGrows(s, restarted);
    } else if run[0].RenameOk? && restarted && !Young(s.stored) {
      LateRestartBreaksGrowth(s);
      StoredOnlyGrowsLonger(Do(s, run[0]), run[1..]);
      if Growing(After(s, run).stored) { PrefixGrows(Do(s, run[0]).stored, After(s, run).stored); }
    } else {
      StepKeepsRestartInv(s, restarted, run[0]);
      GrowsFromHere(Do(s, run[0]), Restarted(restarted, run[0]), run[1..]);
    }
  }

  lemma RestartInvGrows(s: State, restarted: bool)
    requires RestartInv(s, restarted)
    ensures Growing(s.stored)
  {
  }

  /**
   Over every run, with any failures and crashes: the stored numbers grow if and
   only if no update that began with a read error took effect after a number of
   3 or more had been stored.
   */
  lemma StoredNumbersGrowExactlyWhen(v: Option<int>, temp: Option<seq<int>>, run: seq<Action>)
    requires v.Some? ==> 0 <= v.value <= INT_MAX
    requires IsRun(Start(v, temp), run)
    ensures Growing(After(Start(v, temp), run).stored) <==> NoLateRestart(Start(v, temp), false, run)
  {
    GrowsFromHere(Start(v, temp), false, run);
  }

  /** The failing case on a host that has stored `v` and calls once more. */
  lemma ReadErrorLosesTheCount(v: int) returns (run: seq<Action>)
    requires 3 <= v <= INT_MAX
    ensures IsRun(Start(Some(v), None), run) && After(Start(Some(v), None), run).stored == [v, 3]
  {
    hide Bytes, Value;
    var s := Start(Some(v), None);
    run := Extend(s, [], Call(true));
    run := Extend(s, run, OpenOk);
    run := Extend(s, run, ReadError);
    run := Store(s, run);
  }
}
