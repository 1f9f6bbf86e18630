/**
 * Every interleaving of the drain thread with any number of calling threads. Locked
 * sections change the `Shared` value exactly as the methods of `AsyncRing.AsyncIo` do;
 * between them the lock, the counting semaphore and each thread's position are explicit.
 */
module AsyncProtocol {
  import opened Bytes
  import opened AsyncShared

  /** Where the drain thread is in `aio_thread`. */
  datatype Drainer =
    | AtLock                      // about to take the lock
    | AtWait                      // in sphore_wait
    | Writing(local: seq<byte>)   // holding local bytes, about to io_write them
    | Exited

  /** What a call takes the lock for. */
  datatype Call = ForWrite | ForError | ForClose | ForWait | ForFree

  /** Where a calling thread is. */
  datatype Caller =
    | Idle                        // outside the API
    | AtMutex(call: Call)         // in a call, in lock_wait
    | Locked                      // between aio_lock and aio_unlock
    | Owes(thenJoin: bool)        // past the unlock, before sphore_signal
    | Joining                     // in thread_wait

  /** Which caller is inside the lock, or in `aio_free`. */
  datatype Holder = Nobody | HeldBy(t: nat)

  datatype State = State(
    shared: Shared,
    lock: Holder,                 // the drain thread's locked sections are single steps
    sem: nat,
    drainer: Drainer,
    callers: map<nat, Caller>,
    hasThread: bool,              // aio->thread != 0
    freer: Holder,                // who is in aio_free, waiting for the lock
    clientFreed: bool,            // aio_free has given up its ownership
    freed: bool,                  // so has the last owner: the memory may be gone at any time
    ioClosed: bool,
    enqueued: seq<byte>,          // everything ever passed to aio_write_unlocked
    written: seq<byte>,           // everything ever passed to io_write
    atExit: nat                   // how much had been enqueued when the drain thread left
  )

  datatype Event =
    | Enter(t: nat, call: Call)
    | Acquire(t: nat)
    | Write(t: nat, data: seq<byte>)
    | Unlock(t: nat)
    | Signal(t: nat)
    | Join(t: nat)
    | DrainSection
    | DrainWakeup
    | DrainWrite

  function Init(threads: set<nat>): State {
    State(Shared([], Running, 2), Nobody, 0, AtLock, map t | t in threads :: Idle,
          true, Nobody, false, false, false, [], [], 0)
  }

  predicate Enabled(s: State, e: Event) {
    match e
    // A call may begin until aio_free has given up the handle; the handle is freed once.
    case Enter(t, call) =>
      t in s.callers && s.callers[t] == Idle && !s.clientFreed && (call == ForFree ==> s.freer == Nobody)
    case Acquire(t) => t in s.callers && s.callers[t].AtMutex? && s.lock == Nobody
    case Write(t, data) =>
      t in s.callers && s.callers[t] == Locked && HasRoom(s.shared, data)
    case Unlock(t) => t in s.callers && s.callers[t] == Locked
    case Signal(t) => t in s.callers && s.callers[t].Owes?
    case Join(t) => t in s.callers && s.callers[t] == Joining && s.drainer == Exited
    case DrainSection => s.drainer == AtLock && s.lock == Nobody
    case DrainWakeup => s.drainer == AtWait && s.sem > 0
    case DrainWrite => s.drainer.Writing?
  }

  /** Whether the step uses the memory of the ASYNCIO object. */
  predicate Touches(e: Event) {
    !e.Join?
  }

  /** The step does not touch memory that is gone. */
  predicate Safe(s: State, e: Event) {
    Touches(e) ==> s.shared.refcount > 0
  }

  function Moved(s: State, t: nat, pc: Caller): State {
    s.(callers := s.callers[t := pc])
  }

  /** Where a caller is after its locked section, or in it for a call that keeps the lock. */
  function Behind(call: Call, hasThread: bool): Caller {
    match call
    case ForWrite => Locked
    case ForError => Idle
    case ForClose => Owes(false)
    case ForWait => Owes(hasThread)    // without a thread, the join returns at once
    case ForFree => Idle
  }

  /** What the locked section makes of the shared value. */
  function SharedAfter(call: Call, s: Shared): Shared
    requires s.refcount > 0
  {
    match call
    case ForClose => Closed(s)
    case ForWait => Exiting(s)
    case ForFree => Released(s)
    case _ => s
  }

  /** The locked section of a call, or its beginning. */
  function Section(s: State, t: nat, call: Call): State
    requires s.shared.refcount > 0
  {
    var shared := SharedAfter(call, s.shared);
    s.(shared := shared,
       lock := if call == ForWrite then HeldBy(t) else s.lock,
       callers := s.callers[t := Behind(call, s.hasThread)],
       hasThread := s.hasThread && call != ForWait && call != ForFree,
       freer := if call == ForFree then Nobody else s.freer,
       clientFreed := s.clientFreed || call == ForFree,
       freed := shared.refcount == 0)
  }

  function Apply(s: State, e: Event): State
    requires Enabled(s, e) && Safe(s, e)
  {
    match e
    case Enter(t, call) => Moved(s, t, AtMutex(call)).(freer := if call == ForFree then HeldBy(t) else s.freer)
    case Acquire(t) => Section(s, t, s.callers[t].call)
    case Write(t, data) =>
      s.(shared := Enqueue(s.shared, data), enqueued := s.enqueued + data)
    case Unlock(t) => Moved(s, t, Owes(false)).(lock := Nobody)
    case Signal(t) => Moved(s, t, if s.callers[t].thenJoin then Joining else Idle).(sem := s.sem + 1)
    case Join(t) => Moved(s, t, Idle)
    case DrainSection =>
      var (outcome, shared) := Drain(s.shared);
      (match outcome
       case Sleep => s.(drainer := AtWait)
       case Take(local) => s.(shared := shared, drainer := Writing(local))
       case Leave(closeIo) =>
         s.(shared := shared, freed := shared.refcount == 0, drainer := Exited,
            ioClosed := closeIo, atExit := |s.enqueued|))
    case DrainWakeup => s.(drainer := AtLock, sem := s.sem - 1)
    case DrainWrite => s.(drainer := AtLock, written := s.written + s.drainer.local)
  }

  // ----- what every reachable state satisfies

  function InFlight(s: State): seq<byte> {
    if s.drainer.Writing? then s.drainer.local else []
  }

  /** Written, then in the thread's hands, then in the ring: the payloads in order. */
  predicate BytesInOrder(s: State) {
    s.written + InFlight(s) + s.shared.queue == s.enqueued
  }

  /** Caller `t` will still signal the semaphore. */
  predicate WillSignal(s: State, t: nat) {
    t in s.callers && (s.callers[t] == Locked || s.callers[t].Owes?)
  }

  /** A drain thread that waits although there is something to do is about to be woken. */
  ghost predicate NoLostWakeup(s: State) {
    s.drainer == AtWait && s.sem == 0 && (s.shared.queue != [] || s.shared.finish != Running) ==>
      exists t :: WillSignal(s, t)
  }

  /** Exactly the holder of the lock is inside it. */
  predicate MutualExclusion(s: State) {
    && (forall t :: t in s.callers && s.callers[t] == Locked ==> s.lock == HeldBy(t))
    && (s.lock.HeldBy? ==> s.lock.t in s.callers && s.callers[s.lock.t] == Locked)
  }

  /** The reference count is the number of owners left, and the memory goes with the last. */
  predicate Ownership(s: State) {
    && s.shared.refcount == (if s.drainer == Exited then 0 else 1) + (if s.clientFreed then 0 else 1)
    && (s.freed <==> s.shared.refcount == 0)
    && (s.freed ==> s.lock == Nobody)
  }

  /** At most one caller is in `aio_free`, and none after the handle has been given up. */
  predicate FreedOnce(s: State) {
    && (forall t :: t in s.callers && s.callers[t] == AtMutex(ForFree) ==> s.freer == HeldBy(t))
    && (s.clientFreed ==> s.freer == Nobody)
  }

  /** The thread leaves only when told to, with everything enqueued by then written out. */
  predicate ExitComplete(s: State) {
    && (s.ioClosed ==> s.drainer == Exited && s.shared.finish == Close)
    && (s.drainer == Exited ==>
          && s.shared.finish != Running
          && s.atExit <= |s.enqueued|
          && s.written == s.enqueued[..s.atExit])
  }

  predicate JoinersReleased(s: State) {
    forall t :: t in s.callers && (s.callers[t] == Joining || s.callers[t] == Owes(true)) ==>
      s.shared.finish != Running
  }

  ghost predicate Inv(s: State) {
    && BytesInOrder(s)
    && NoLostWakeup(s)
    && MutualExclusion(s)
    && Ownership(s)
    && ExitComplete(s)
    && JoinersReleased(s)
    && FreedOnce(s)
  }

  lemma InitInv(threads: set<nat>)
    ensures Inv(Init(threads))
  {
  }

  lemma SectionKeepsBytes(s: State, t: nat, call: Call)
    requires Inv(s) && s.shared.refcount > 0
    ensures BytesInOrder(Section(s, t, call)) && ExitComplete(Section(s, t, call))
  {
    hide NoLostWakeup, MutualExclusion, JoinersReleased, FreedOnce;
  }

  lemma SectionKeepsOwnership(s: State, t: nat)
    requires Inv(s) && Enabled(s, Acquire(t)) && s.shared.refcount > 0
    ensures var s' := Section(s, t, s.callers[t].call);
            MutualExclusion(s') && Ownership(s') && JoinersReleased(s') && FreedOnce(s')
  {
    hide BytesInOrder, NoLostWakeup;
  }

  lemma SectionKeepsWakeup(s: State, t: nat)
    requires Inv(s) && Enabled(s, Acquire(t)) && s.shared.refcount > 0
    ensures NoLostWakeup(Section(s, t, s.callers[t].call))
  {
    hide BytesInOrder, MutualExclusion, JoinersReleased, FreedOnce, Ownership, ExitComplete;
    var s' := Section(s, t, s.callers[t].call);
    if s'.drainer == AtWait && s'.sem == 0 && (s'.shared.queue != [] || s'.shared.finish != Running) {
      if s.shared.queue != [] || s.shared.finish != Running {
        var u: nat :| WillSignal(s, u);
        assert WillSignal(s', u);
      } else {
        assert WillSignal(s', t);
      }
    }
  }

  lemma StepKeepsWakeup(s: State, e: Event)
    requires Inv(s) && Enabled(s, e) && Safe(s, e)
    ensures NoLostWakeup(Apply(s, e))
  {
    hide Section, BytesInOrder, MutualExclusion, JoinersReleased, FreedOnce, ExitComplete;
    var s' := Apply(s, e);
    if e.Acquire? {
      SectionKeepsWakeup(s, e.t);
    } else if s'.drainer == AtWait && s'.sem == 0 && (s'.shared.queue != [] || s'.shared.finish != Running) {
      if s.shared.queue != [] || s.shared.finish != Running {
        var u :| WillSignal(s, u);
        assert WillSignal(s', u);
      } else {
        assert WillSignal(s', e.t);
      }
    }
  }

  lemma StepKeepsExit(s: State, e: Event)
    requires Inv(s) && Enabled(s, e) && Safe(s, e)
    ensures ExitComplete(Apply(s, e))
  {
    hide NoLostWakeup, MutualExclusion, JoinersReleased, FreedOnce, Section;
    if e.Acquire? { SectionKeepsBytes(s, e.t, s.callers[e.t].call); }
  }

  lemma StepKeepsBytes(s: State, e: Event)
    requires Inv(s) && Enabled(s, e) && Safe(s, e)
    ensures BytesInOrder(Apply(s, e)) && ExitComplete(Apply(s, e))
  {
    StepKeepsExit(s, e);
    hide NoLostWakeup, MutualExclusion, JoinersReleased, FreedOnce, Section, ExitComplete, Ownership;
    if e.Acquire? { SectionKeepsBytes(s, e.t, s.callers[e.t].call); }
  }

  lemma StepKeepsOwnership(s: State, e: Event)
    requires Inv(s) && Enabled(s, e) && Safe(s, e)
    ensures MutualExclusion(Apply(s, e)) && Ownership(Apply(s, e)) && JoinersReleased(Apply(s, e))
    ensures FreedOnce(Apply(s, e))
  {
    hide BytesInOrder, NoLostWakeup, Section;
    if e.Acquire? { SectionKeepsOwnership(s, e.t); }
  }

  lemma StepKeepsInv(s: State, e: Event)
    requires Inv(s) && Enabled(s, e) && Safe(s, e)
    ensures Inv(Apply(s, e))
  {
    hide Enabled, Apply, BytesInOrder, NoLostWakeup, MutualExclusion, ExitComplete, JoinersReleased, FreedOnce;
    StepKeepsBytes(s, e);
    StepKeepsOwnership(s, e);
    StepKeepsWakeup(s, e);
  }

  // ----- runs

  /** `s'` is reached from `s` by the steps of `run`, each enabled and safe where it is taken. */
  ghost predicate Reaches(s: State, run: seq<Event>, s': State)
    decreases |run|
  {
    if run == [] then s == s'
    else
      && Enabled(s, run[0]) && Safe(s, run[0])
      && Reaches(Apply(s, run[0]), run[1..], s')
  }

  /** What holds of the asynchronous writer in every interleaving, from creation on. */
  lemma {:induction false} RunKeepsInv(s: State, run: seq<Event>, s': State)
    requires Inv(s) && Reaches(s, run, s')
    ensures Inv(s')
    decreases |run|
  {
    if run != [] {
      StepKeepsInv(s, run[0]);
      RunKeepsInv(Apply(s, run[0]), run[1..], s');
    }
  }

  lemma EveryRunIsSafe(threads: set<nat>, run: seq<Event>, s: State)
    requires Reaches(Init(threads), run, s)
    ensures Inv(s)
  {
    InitInv(threads);
    RunKeepsInv(Init(threads), run, s);
  }

  // ----- what the calls have asked for

  /** The call that has its locked section in the step, if any. */
  function CallOf(s: State, e: Event): seq<Call>
    requires Enabled(s, e)
  {
    if e.Acquire? then [s.callers[e.t].call] else []
  }

  /** The calls that have had their locked section in a run, in order. */
  ghost function Sections(s: State, run: seq<Event>): seq<Call>
    decreases |run|
  {
    if run == [] || !(Enabled(s, run[0]) && Safe(s, run[0])) then []
    else CallOf(s, run[0]) + Sections(Apply(s, run[0]), run[1..])
  }

  /** Those before the drain thread has left. */
  ghost function SectionsInTime(s: State, run: seq<Event>): seq<Call>
    decreases |run|
  {
    if run == [] || s.drainer == Exited || !(Enabled(s, run[0]) && Safe(s, run[0])) then []
    else CallOf(s, run[0]) + SectionsInTime(Apply(s, run[0]), run[1..])
  }

  /** What the finish flag, the thread handle and the ownership are after the calls. */
  ghost predicate AskedFor(s: State, calls: seq<Call>, s': State) {
    && (s'.shared.finish == Close <==> s.shared.finish == Close || ForClose in calls)
    && (s'.shared.finish == Running <==> s.shared.finish == Running && ForClose !in calls && ForWait !in calls)
    && (s'.hasThread <==> s.hasThread && ForWait !in calls && ForFree !in calls)
    && (s'.clientFreed <==> s.clientFreed || ForFree in calls)
  }

  lemma AskedByStep(s: State, e: Event)
    requires Enabled(s, e) && Safe(s, e)
    ensures AskedFor(s, CallOf(s, e), Apply(s, e))
  {
  }

  lemma AskedNothing(s: State)
    ensures AskedFor(s, [], s)
  {
  }

  lemma AskedThen(s: State, a: seq<Call>, t: State, b: seq<Call>, s': State)
    requires AskedFor(s, a, t) && AskedFor(t, b, s')
    ensures AskedFor(s, a + b, s')
  {
  }

  lemma {:induction false} AskedByRun(s: State, run: seq<Event>, s': State)
    requires Reaches(s, run, s')
    ensures AskedFor(s, Sections(s, run), s')
    decreases |run|
  {
    hide Apply, Enabled, AskedFor;
    if run == [] {
      AskedNothing(s);
    } else {
      AskedByStep(s, run[0]);
      AskedByRun(Apply(s, run[0]), run[1..], s');
      AskedThen(s, CallOf(s, run[0]), Apply(s, run[0]), Sections(Apply(s, run[0]), run[1..]), s');
    }
  }

  /** How often the semaphore has been signalled in a run, less the times it has been waited for. */
  function Signals(run: seq<Event>): int
    decreases |run|
  {
    if run == [] then 0
    else (if run[0].Signal? then 1 else if run[0].DrainWakeup? then -1 else 0) + Signals(run[1..])
  }

  lemma SignalStep(s: State, e: Event)
    requires Enabled(s, e) && Safe(s, e)
    ensures Apply(s, e).sem == s.sem + if e.Signal? then 1 else if e.DrainWakeup? then -1 else 0
  {
  }

  lemma {:induction false} SemaphoreChanges(s: State, run: seq<Event>, s': State)
    requires Reaches(s, run, s')
    ensures s'.sem == s.sem + Signals(run)
    decreases |run|
  {
    hide Apply, Enabled;
    if run != [] {
      SignalStep(s, run[0]);
      SemaphoreChanges(Apply(s, run[0]), run[1..], s');
    }
  }

  /** The semaphore counts the signals that have not woken the drain thread yet. */
  lemma SemaphoreCounts(threads: set<nat>, run: seq<Event>, s: State)
    requires Reaches(Init(threads), run, s)
    ensures s.sem == Signals(run)
  {
    SemaphoreChanges(Init(threads), run, s);
  }

  lemma LeftForGood(s: State, e: Event)
    requires Inv(s) && Enabled(s, e) && Safe(s, e) && s.drainer == Exited
    ensures Apply(s, e).drainer == Exited && Apply(s, e).ioClosed == s.ioClosed
    ensures Apply(s, e).written == s.written && Apply(s, e).atExit == s.atExit
  {
    hide Inv;
  }

  lemma LeavesNow(s: State, e: Event)
    requires Inv(s) && Enabled(s, e) && Safe(s, e) && s.drainer != Exited
    ensures Apply(s, e).drainer != Exited ==> !Apply(s, e).ioClosed
    ensures Apply(s, e).drainer == Exited ==>
      && !e.Acquire? && (Apply(s, e).ioClosed <==> s.shared.finish == Close) && Apply(s, e).shared.finish == s.shared.finish
      && Apply(s, e).atExit == |s.enqueued|
  {
    hide NoLostWakeup, MutualExclusion, JoinersReleased, FreedOnce, Ownership, BytesInOrder;
  }

  lemma {:induction false} ClosedInTime(s: State, run: seq<Event>, s': State)
    requires Inv(s) && Reaches(s, run, s')
    ensures s'.drainer != Exited ==> !s'.ioClosed
    ensures s.drainer == Exited ==> s'.drainer == Exited && s'.ioClosed == s.ioClosed
    ensures s.drainer != Exited && s'.drainer == Exited ==>
      (s'.ioClosed <==> s.shared.finish == Close || ForClose in SectionsInTime(s, run))
    decreases |run|
  {
    hide Apply, Enabled, Inv;
    if run == [] {
      NotClosedYet(s);
    } else {
      var next := Apply(s, run[0]);
      StepKeepsInv(s, run[0]);
      ClosedInTime(next, run[1..], s');
      if s.drainer == Exited { LeftForGood(s, run[0]); } else { LeavesNow(s, run[0]); }
      AskedByStep(s, run[0]);
    }
  }

  lemma NotClosedYet(s: State)
    requires Inv(s)
    ensures s.drainer != Exited ==> !s.ioClosed
  {
  }

  /**
   * From creation on, the thread is told to close by `aio_close` alone, and to leave by
   * `aio_close` and `aio_wait`; it has closed the file if and only if an `aio_close` came before
   * it left.
   */
  lemma ClosesIff(threads: set<nat>, run: seq<Event>, s: State)
    requires Reaches(Init(threads), run, s)
    ensures s.shared.finish == Close <==> ForClose in Sections(Init(threads), run)
    ensures s.shared.finish == Running <==>
      ForClose !in Sections(Init(threads), run) && ForWait !in Sections(Init(threads), run)
    ensures s.ioClosed <==> s.drainer == Exited && ForClose in SectionsInTime(Init(threads), run)
  {
    InitInv(threads);
    AskedByRun(Init(threads), run, s);
    ClosedInTime(Init(threads), run, s);
  }

  // ----- progress

  /** No caller is inside the lock or between its unlock and its signal. */
  predicate Quiet(s: State) {
    forall t :: t in s.callers ==> s.callers[t] != Locked && !s.callers[t].Owes?
  }

  /** The one step the drain thread can take. */
  function DrainStep(s: State): (e: Event)
    requires s.drainer != Exited
  {
    match s.drainer
    case AtLock => DrainSection
    case AtWait => DrainWakeup
    case Writing(_) => DrainWrite
  }

  function Rank(d: Drainer): nat {
    match d
    case Writing(_) => 3
    case AtLock => 2
    case AtWait => 1
    case Exited => 0
  }

  /** The drain thread has nothing left to do. */
  predicate Settled(s: State) {
    s.drainer == Exited || (s.drainer == AtWait && s.sem == 0 && s.shared.queue == [])
  }

  /** In a quiet state the drain thread is never stuck before its work is done. */
  lemma DrainNotStuck(s: State)
    requires Inv(s) && Quiet(s) && !Settled(s)
    ensures Enabled(s, DrainStep(s))
  {
    assert forall t :: !WillSignal(s, t);
  }

  /**
   * Left alone, the drain thread reaches a state where every byte ever enqueued has been
   * written, in order; it has left exactly if it was told to, and then has closed the file
   * exactly if `aio_close` was called.
   */
  lemma {:induction false} DrainFlushes(s: State) returns (run: seq<Event>, s': State)
    requires Inv(s) && Quiet(s) && s.drainer != Exited
    ensures Reaches(s, run, s') && Inv(s')
    ensures forall e :: e in run ==> e.DrainSection? || e.DrainWakeup? || e.DrainWrite?
    ensures s'.written == s.enqueued == s'.enqueued && s'.callers == s.callers
    ensures s'.drainer == Exited <==> s.shared.finish != Running
    ensures s'.shared.finish == s.shared.finish
    ensures s'.ioClosed <==> s.shared.finish == Close
    decreases |s.shared.queue|, s.sem, Rank(s.drainer)
  {
    if Settled(s) {
      assert forall t :: !WillSignal(s, t);
      return [], s;
    }
    DrainNotStuck(s);
    var e := DrainStep(s);
    StepKeepsInv(s, e);
    var next := Apply(s, e);
    if next.drainer == Exited {
      assert Reaches(next, [], next);
      run, s' := [e], next;
    } else {
      var rest, last := DrainFlushes(next);
      run, s' := [e] + rest, last;
    }
    assert run[0] == e;
  }

  /**
   * When the other callers are done, the drain thread's only run ends where the join in
   * `aio_wait` is enabled, with everything written.
   */
  lemma WaitReturns(s: State, t: nat) returns (run: seq<Event>, s': State)
    requires Inv(s) && Quiet(s) && t in s.callers && s.callers[t] == Joining
    ensures Reaches(s, run, s') && Enabled(s', Join(t))
    ensures s.drainer != Exited ==> s'.written == s.enqueued
  {
    if s.drainer == Exited {
      return [], s;
    }
    run, s' := DrainFlushes(s);
  }

  /** The `aio_wait` of caller `t` has not joined yet, or has the thread's end behind it. */
  predicate Waits(s: State, t: nat) {
    && t in s.callers
    && (s.callers[t] == Owes(true) || s.callers[t] == Joining || s.drainer == Exited)
  }

  lemma WaitsOn(s: State, e: Event, t: nat)
    requires Inv(s) && Enabled(s, e) && Safe(s, e) && Waits(s, t)
    ensures Waits(Apply(s, e), t)
    ensures s.enqueued <= Apply(s, e).enqueued
    ensures s.drainer != Exited && Apply(s, e).drainer == Exited ==> Apply(s, e).atExit == |s.enqueued|
  {
    hide Inv;
    if e.Acquire? && e.t == t { assert s.callers[t].AtMutex?; }
  }

  lemma {:induction false} WaitsUntil(s: State, run: seq<Event>, s': State, t: nat)
    requires Inv(s) && Waits(s, t) && Reaches(s, run, s')
    ensures Inv(s') && Waits(s', t) && s.enqueued <= s'.enqueued
    ensures s.drainer != Exited && s'.drainer == Exited ==> |s.enqueued| <= s'.atExit
    ensures s.drainer == Exited ==> s'.drainer == Exited && s'.atExit == s.atExit
    decreases |run|
  {
    hide Apply, Enabled, Inv, Waits;
    if run != [] {
      StepKeepsInv(s, run[0]);
      WaitsOn(s, run[0], t);
      if s.drainer == Exited { LeftForGood(s, run[0]); }
      WaitsUntil(Apply(s, run[0]), run[1..], s', t);
    }
  }

  /**
   * The `aio_wait` that takes the thread handle returns only after the drain thread has left;
   * if that had not left before, everything enqueued up to the call has then been written.
   */
  lemma WaitFlushes(s: State, t: nat, run: seq<Event>, s': State)
    requires Inv(s) && Enabled(s, Acquire(t)) && s.callers[t] == AtMutex(ForWait) && s.hasThread && s.shared.refcount > 0
    requires Reaches(Apply(s, Acquire(t)), run, s')
    requires t in s'.callers && s'.callers[t] != Owes(true) && s'.callers[t] != Joining
    ensures s'.drainer == Exited
    ensures s.drainer != Exited ==> s.enqueued <= s'.written
  {
    hide NoLostWakeup, MutualExclusion, JoinersReleased, FreedOnce, Ownership, BytesInOrder, Reaches;
    StepKeepsInv(s, Acquire(t));
    WaitsUntil(Apply(s, Acquire(t)), run, s', t);
  }

  // ----- every call returns

  /** The steps that finish what has been begun: no caller enters the API or writes. */
  predicate Finishing(e: Event) {
    !e.Enter? && !e.Write?
  }

  function Weight(c: Caller): nat {
    match c
    case AtMutex(_) => 5
    case Locked => 4
    case Owes(thenJoin) => if thenJoin then 4 else 3
    case Joining => 1
    case Idle => 0
  }

  /** What is left to do for the callers below `n`. */
  function CallerWork(callers: map<nat, Caller>, n: nat): nat {
    if n == 0 then 0
    else CallerWork(callers, n - 1) + if n - 1 in callers then Weight(callers[n - 1]) else 0
  }

  lemma {:induction false} CallerWorkMoved(callers: map<nat, Caller>, n: nat, t: nat, pc: Caller)
    requires t in callers
    ensures CallerWork(callers[t := pc], n) == CallerWork(callers, n) + if t < n then Weight(pc) - Weight(callers[t]) else 0
  {
    hide Weight;
    if n > 0 { CallerWorkMoved(callers, n - 1, t, pc); }
  }

  predicate Below(callers: map<nat, Caller>, n: nat) {
    forall t :: t in callers ==> t < n
  }

  /** How many finishing steps there can be at most. */
  function Work(s: State, n: nat): nat {
    CallerWork(s.callers, n) + 2 * s.sem + 2 * |s.shared.queue| + Rank(s.drainer)
  }

  lemma SectionWorks(s: State, t: nat, n: nat)
    requires Below(s.callers, n) && Enabled(s, Acquire(t)) && s.shared.refcount > 0
    ensures var s' := Section(s, t, s.callers[t].call);
            Work(s', n) < Work(s, n) && Below(s'.callers, n)
  {
    var pc := Behind(s.callers[t].call, s.hasThread);
    assert Weight(pc) < 5;
    CallerWorkMoved(s.callers, n, t, pc);
  }

  lemma DrainStepWorks(s: State, e: Event, n: nat)
    requires Enabled(s, e) && Safe(s, e) && (e.DrainSection? || e.DrainWakeup? || e.DrainWrite?)
    ensures Work(Apply(s, e), n) < Work(s, n) && Apply(s, e).callers == s.callers
  {
    hide Section, CallerWork;
  }

  lemma FinishingStepWorks(s: State, e: Event, n: nat)
    requires Below(s.callers, n) && Enabled(s, e) && Safe(s, e) && Finishing(e)
    ensures Work(Apply(s, e), n) < Work(s, n) && Below(Apply(s, e).callers, n)
  {
    hide Section, CallerWork, Drain;
    match e {
      case Acquire(t) => SectionWorks(s, t, n);
      case Unlock(t) => CallerWorkMoved(s.callers, n, t, Owes(false));
      case Signal(t) => CallerWorkMoved(s.callers, n, t, if s.callers[t].thenJoin then Joining else Idle);
      case Join(t) => CallerWorkMoved(s.callers, n, t, Idle);
      case _ => DrainStepWorks(s, e, n);
    }
  }

  /** No step that finishes something is left. */
  ghost predicate Finished(s: State) {
    forall e :: Finishing(e) ==> !Enabled(s, e)
  }

  lemma FinishedMeans(s: State)
    requires Inv(s) && Finished(s)
    ensures forall t :: t in s.callers ==> s.callers[t] == Idle
    ensures s.drainer == Exited || (s.drainer == AtWait && s.shared.queue == [] && s.shared.finish == Running)
    ensures s.drainer != Exited ==> s.written == s.enqueued
  {
    forall t | t in s.callers ensures s.callers[t] != Locked && !s.callers[t].Owes? {
      assert !Enabled(s, Unlock(t)) && !Enabled(s, Signal(t));
    }
    assert forall t :: !WillSignal(s, t);
    assert !Enabled(s, DrainSection) && !Enabled(s, DrainWakeup) && !Enabled(s, DrainWrite);
    forall t | t in s.callers ensures s.callers[t] == Idle {
      assert !Enabled(s, Join(t)) && !Enabled(s, Acquire(t));
    }
  }

  /**
   * Once no caller enters the API or writes any more, every run is finite, whatever the order
   * of its steps, and it can only end with every call returned: every `aio_wait` has come back
   * from its join, and the drain thread has left or sleeps with everything written.
   */
  lemma {:induction false} EveryCallReturns(s: State, run: seq<Event>, s': State, n: nat)
    requires Inv(s) && Below(s.callers, n) && Reaches(s, run, s') && forall e :: e in run ==> Finishing(e)
    ensures |run| + Work(s', n) <= Work(s, n)
    ensures Finished(s') ==>
      && (forall t :: t in s'.callers ==> s'.callers[t] == Idle)
      && (s'.drainer != Exited ==> s'.shared.finish == Running && s'.written == s'.enqueued)
    decreases |run|
  {
    hide Inv, Apply, Enabled, Work, Finishing, Below;
    if run == [] {
      if Finished(s') { FinishedMeans(s'); }
    } else {
      assert run[0] in run;
      FinishingStepWorks(s, run[0], n);
      StepKeepsInv(s, run[0]);
      EveryCallReturns(Apply(s, run[0]), run[1..], s', n);
    }
  }

  // ----- the free

  /** A step is possible that touches memory that is gone. */
  predicate TouchesFreed(s: State, e: Event) {
    Enabled(s, e) && !Safe(s, e)
  }

  /**
   * Only a caller past its unlock, with its signal, or one that still waits for the lock can
   * take such a step, once the last owner has let go.
   */
  lemma TouchesFreedIff(s: State, e: Event)
    requires Inv(s) && Enabled(s, e)
    ensures TouchesFreed(s, e) <==> s.freed && (e.Signal? || e.Acquire?)
  {
  }

  /** A call other than `aio_free` that still has to touch the object. */
  predicate Pending(s: State, t: nat) {
    t in s.callers && match s.callers[t]
                      case AtMutex(call) => call != ForFree
                      case Locked => true
                      case Owes(_) => true
                      case _ => false
  }

  /** A call that is going to tell the drain thread to leave. */
  predicate WillFinish(s: State, t: nat) {
    t in s.callers && (s.callers[t] == AtMutex(ForClose) || s.callers[t] == AtMutex(ForWait))
  }

  /** The drain thread goes on without another signal. */
  predicate Awake(s: State) {
    s.drainer != AtWait || s.sem > 0
  }

  /**
   * The drain thread can leave while a call is still pending: it has been told to leave, or a
   * pending call is going to tell it; and if it sleeps, one call can wake it and leave another
   * one behind.
   */
  ghost predicate Risky(s: State) {
    if s.shared.finish != Running then
      exists t: nat :: Pending(s, t) && (Awake(s) || exists u: nat :: u != t && Pending(s, u))
    else
      exists t: nat :: WillFinish(s, t) && (Awake(s) || exists u: nat :: u != t && Pending(s, u))
  }

  lemma NotRiskyIsSafe(s: State, e: Event)
    requires Inv(s) && s.clientFreed && !Risky(s) && Enabled(s, e)
    ensures Safe(s, e)
  {
    if e.Signal? || e.Acquire? { assert Pending(s, e.t); }
  }

  lemma NotRiskyStays(s: State, e: Event)
    requires Inv(s) && s.clientFreed && !Risky(s) && Enabled(s, e) && Safe(s, e)
    ensures Apply(s, e).clientFreed && !Risky(Apply(s, e))
  {
    var s' := Apply(s, e);
    if Risky(s') {
      PendingBefore(s, e);
      if s'.shared.finish != Running {
        var t: nat :| Pending(s', t) && (Awake(s') || exists u: nat :: u != t && Pending(s', u));
        RiskyBefore(s, e, t);
      } else {
        var t: nat :| WillFinish(s', t) && (Awake(s') || exists u: nat :: u != t && Pending(s', u));
        FinishingBefore(s, e, t);
      }
    }
  }

  /** Once the handle has been given up, no call becomes pending any more. */
  lemma PendingBefore(s: State, e: Event)
    requires Inv(s) && s.clientFreed && Enabled(s, e) && Safe(s, e)
    ensures forall t :: Pending(Apply(s, e), t) ==> Pending(s, t)
    ensures forall t :: WillFinish(Apply(s, e), t) ==> WillFinish(s, t)
    ensures Awake(Apply(s, e)) ==> Awake(s) || e.Signal?
  {
    hide Inv, Section;
    if e.Acquire? { SectionPending(s, e.t); }
  }

  lemma SectionPending(s: State, t: nat)
    requires Inv(s) && s.clientFreed && Enabled(s, Acquire(t)) && s.shared.refcount > 0
    ensures var s' := Section(s, t, s.callers[t].call);
            && (forall u :: Pending(s', u) ==> Pending(s, u))
            && (forall u :: WillFinish(s', u) ==> WillFinish(s, u))
            && (Awake(s') <==> Awake(s))
  {
    hide BytesInOrder, NoLostWakeup, MutualExclusion, ExitComplete, JoinersReleased;
  }

  lemma FinishingBefore(s: State, e: Event, t: nat)
    requires Inv(s) && s.clientFreed && Enabled(s, e) && Safe(s, e)
    requires var s' := Apply(s, e);
             && s'.shared.finish == Running && WillFinish(s', t)
             && (Awake(s') || exists u: nat :: u != t && Pending(s', u))
    ensures Risky(s)
  {
    PendingBefore(s, e);
    assert WillFinish(s, t);
    if e.Signal? && !Awake(s) { assert Pending(s, e.t); }
  }

  lemma RiskyBefore(s: State, e: Event, t: nat)
    requires Inv(s) && s.clientFreed && Enabled(s, e) && Safe(s, e)
    requires var s' := Apply(s, e);
             && s'.shared.finish != Running && Pending(s', t)
             && (Awake(s') || exists u: nat :: u != t && Pending(s', u))
    ensures Risky(s)
  {
    var s' := Apply(s, e);
    PendingBefore(s, e);
    if e.Signal? { assert Pending(s, e.t) && e.t != t; }
    if s.shared.finish == Running {
      assert WillFinish(s, e.t);
      if !Awake(s) {
        var u: nat :| u != t && Pending(s', u);
        assert Pending(s, t) && Pending(s, u);
      }
    }
  }

  lemma {:induction false} NotRiskyRun(s: State, run: seq<Event>, s': State)
    requires Inv(s) && s.clientFreed && !Risky(s) && Reaches(s, run, s')
    ensures Inv(s') && s'.clientFreed && !Risky(s')
    decreases |run|
  {
    hide Inv, Apply, Enabled, Risky;
    if run != [] {
      NotRiskyStays(s, run[0]);
      StepKeepsInv(s, run[0]);
      NotRiskyRun(Apply(s, run[0]), run[1..], s');
    }
  }

  /** The drain thread, told to leave and not asleep, leaves without any caller's help. */
  lemma {:induction false} DrainLeaves(s: State) returns (run: seq<Event>, s': State)
    requires Inv(s) && s.shared.finish != Running && Awake(s) && s.lock == Nobody
    ensures Reaches(s, run, s') && Inv(s')
    ensures s'.drainer == Exited && s'.callers == s.callers && s'.clientFreed == s.clientFreed
    decreases |s.shared.queue|, s.sem, Rank(s.drainer)
  {
    if s.drainer == Exited {
      return [], s;
    }
    var e := DrainStep(s);
    StepKeepsInv(s, e);
    var rest, last := DrainLeaves(Apply(s, e));
    run, s' := [e] + rest, last;
    assert run[1..] == rest;
  }

  /** Some run leads to a step that touches memory that is gone. */
  ghost predicate CanTouchFreed(s: State) {
    exists run, s', e :: Reaches(s, run, s') && TouchesFreed(s', e)
  }

  /** The step that gives up the handle. */
  predicate GivesUp(s: State, e: Event) {
    e.Acquire? && e.t in s.callers && s.callers[e.t] == AtMutex(ForFree)
  }

  /**
   * When `aio_free` gives up the handle, memory that is gone can be touched from then on if and
   * only if that is risky; so it cannot when every other call has returned or is in its join.
   */
  lemma FreeIsSafeIff(s: State, e: Event)
    requires Inv(s) && Enabled(s, e) && Safe(s, e) && GivesUp(s, e)
    ensures CanTouchFreed(Apply(s, e)) <==> Risky(s)
    ensures (forall u :: u in s.callers && u != e.t ==> s.callers[u] == Idle || s.callers[u] == Joining) ==> !Risky(s)
  {
    hide Inv, Reaches;
    var after := Apply(s, e);
    StepKeepsInv(s, e);
    FreeKeepsRisk(s, e);
    if Risky(s) {
      RiskyTouches(after);
    }
    if CanTouchFreed(after) && !Risky(after) {
      var run, s', f :| Reaches(after, run, s') && TouchesFreed(s', f);
      NotRiskyRun(after, run, s');
      NotRiskyIsSafe(s', f);
    }
  }

  lemma FreeKeepsRisk(s: State, e: Event)
    requires Inv(s) && Enabled(s, e) && Safe(s, e) && GivesUp(s, e)
    ensures Apply(s, e).clientFreed && Apply(s, e).lock == Nobody && (Risky(Apply(s, e)) <==> Risky(s))
    ensures (forall u :: u in s.callers && u != e.t ==> s.callers[u] == Idle || s.callers[u] == Joining) ==> !Risky(s)
  {
    var after := Apply(s, e);
    assert forall u :: Pending(after, u) == Pending(s, u);
    assert forall u :: WillFinish(after, u) == WillFinish(s, u);
  }

  lemma RiskyTouches(s: State)
    requires Inv(s) && s.clientFreed && s.lock == Nobody && Risky(s)
    ensures CanTouchFreed(s)
  {
    hide Reaches, Inv;
    if s.shared.finish != Running {
      var t: nat :| Pending(s, t) && (Awake(s) || exists u: nat :: u != t && Pending(s, u));
      if Awake(s) {
        LeftBehind(s, t);
      } else {
        var u: nat :| u != t && Pending(s, u);
        var w := Waker(s);
        OneSignals(s, w, if w == t then u else t);
      }
    } else {
      var t: nat :| WillFinish(s, t) && (Awake(s) || exists u: nat :: u != t && Pending(s, u));
      TellsToLeave(s, t);
      var s' := Apply(s, Acquire(t));
      if Awake(s) {
        LeftBehind(s', t);
      } else {
        var u: nat :| u != t && Pending(s, u);
        OneSignals(s', t, u);
      }
      ComesToTouch(s, Acquire(t));
    }
  }

  /** A sleeping drain thread that has been told to leave is about to be woken. */
  lemma Waker(s: State) returns (w: nat)
    requires Inv(s) && s.lock == Nobody && s.shared.finish != Running && !Awake(s)
    ensures w in s.callers && s.callers[w].Owes? && Pending(s, w)
  {
    w :| WillSignal(s, w);
  }

  lemma TellsToLeave(s: State, t: nat)
    requires Inv(s) && s.clientFreed && s.lock == Nobody && s.shared.finish == Running && WillFinish(s, t)
    ensures Enabled(s, Acquire(t)) && Safe(s, Acquire(t))
    ensures var s' := Apply(s, Acquire(t));
            && Inv(s') && s'.clientFreed && s'.lock == Nobody && s'.shared.finish != Running && (Awake(s') <==> Awake(s))
            && s'.callers[t].Owes? && Pending(s', t) && forall u :: Pending(s', u) == Pending(s, u)
  {
    StepKeepsInv(s, Acquire(t));
  }

  /** One call wakes the drain thread, and another one is left behind. */
  lemma OneSignals(s: State, w: nat, t: nat)
    requires Inv(s) && s.clientFreed && s.lock == Nobody && s.shared.finish != Running && s.drainer == AtWait
    requires w in s.callers && s.callers[w].Owes? && t != w && Pending(s, t)
    ensures CanTouchFreed(s)
  {
    hide Reaches;
    StepKeepsInv(s, Signal(w));
    LeftBehind(Apply(s, Signal(w)), t);
    ComesToTouch(s, Signal(w));
  }

  lemma LeftBehind(s: State, t: nat)
    requires Inv(s) && s.clientFreed && s.lock == Nobody && s.shared.finish != Running && Awake(s) && Pending(s, t)
    ensures CanTouchFreed(s)
  {
    hide Reaches;
    var run, s' := DrainLeaves(s);
    assert TouchesFreed(s', if s.callers[t].Owes? then Signal(t) else Acquire(t));
  }

  lemma ComesToTouch(s: State, e: Event)
    requires Enabled(s, e) && Safe(s, e) && CanTouchFreed(Apply(s, e))
    ensures CanTouchFreed(s)
  {
    hide Apply, Enabled, Reaches;
    var rest, s', f :| Reaches(Apply(s, e), rest, s') && TouchesFreed(s', f);
    Prepend(s, e, rest, s');
  }

  lemma Prepend(s: State, e: Event, rest: seq<Event>, s': State)
    requires Enabled(s, e) && Safe(s, e) && Reaches(Apply(s, e), rest, s')
    ensures Reaches(s, [e] + rest, s')
  {
    hide Apply, Enabled;
    assert ([e] + rest)[1..] == rest;
  }

  /** The handle is given up in a state that is not risky. */
  ghost predicate FreesSafely(s: State, run: seq<Event>)
    decreases |run|
  {
    run == [] || (Enabled(s, run[0]) && Safe(s, run[0]) && (GivesUp(s, run[0]) ==> !Risky(s))
                  && FreesSafely(Apply(s, run[0]), run[1..]))
  }

  /** In every run from creation whose free is not risky, no step can touch memory that is gone. */
  lemma NoUseAfterFree(threads: set<nat>, run: seq<Event>, s: State, e: Event)
    requires Reaches(Init(threads), run, s) && FreesSafely(Init(threads), run) && Enabled(s, e)
    ensures Safe(s, e) && (Touches(e) ==> !s.freed)
  {
    InitInv(threads);
    SafeRun(Init(threads), run, s);
    if s.clientFreed { NotRiskyIsSafe(s, e); }
  }

  lemma {:induction false} SafeRun(s: State, run: seq<Event>, s': State)
    requires Inv(s) && (s.clientFreed ==> !Risky(s)) && Reaches(s, run, s') && FreesSafely(s, run)
    ensures Inv(s') && (s'.clientFreed ==> !Risky(s'))
    decreases |run|
  {
    hide Inv, Enabled, Risky, Apply, GivesUp;
    if run != [] {
      StepKeepsInv(s, run[0]);
      SafeStep(s, run[0]);
      SafeRun(Apply(s, run[0]), run[1..], s');
    }
  }

  lemma SafeStep(s: State, e: Event)
    requires Inv(s) && (s.clientFreed ==> !Risky(s)) && Enabled(s, e) && Safe(s, e) && (GivesUp(s, e) ==> !Risky(s))
    ensures Apply(s, e).clientFreed ==> !Risky(Apply(s, e))
  {
    hide Inv, Risky;
    if GivesUp(s, e) { FreeKeepsRisk(s, e); }
    else if s.clientFreed { NotRiskyStays(s, e); }
  }

  // ----- runs in which the free comes too early

  lemma {:induction false} Extend(s: State, run: seq<Event>, s': State, e: Event)
    requires Reaches(s, run, s') && Enabled(s', e) && Safe(s', e)
    ensures Reaches(s, run + [e], Apply(s', e))
    decreases |run|
  {
    hide Enabled, Apply;
    if run == [] {
      assert (run + [e])[1..] == [];
    } else {
      assert (run + [e])[1..] == run[1..] + [e];
      Extend(Apply(s, run[0]), run[1..], s', e);
    }
  }

  lemma Then(s0: State, run: seq<Event>, s: State, e: Event) returns (run': seq<Event>, s': State)
    requires Reaches(s0, run, s) && Enabled(s, e) && Safe(s, e)
    ensures Reaches(s0, run', s') && s' == Apply(s, e)
  {
    run', s' := run + [e], Apply(s, e);
    Extend(s0, run, s, e);
  }

  /** A caller has unlocked but not signalled when another one closes and frees. */
  lemma SignalAfterFree() returns (run: seq<Event>, s: State)
    ensures Reaches(Init({0, 1}), run, s) && TouchesFreed(s, Signal(0))
  {
    hide Reaches;
    var s0 := Init({0, 1});
    run, s := Start(s0);
    run, s := Then(s0, run, s, Enter(0, ForWrite));
    run, s := Then(s0, run, s, Acquire(0));
    run, s := Then(s0, run, s, Unlock(0));
    run, s := Closes(s0, run, s);
    run, s := Frees(s0, run, s);
  }

  /** A caller waits for the lock when another one frees a closed handle. */
  lemma LockAfterFree() returns (run: seq<Event>, s: State)
    ensures Reaches(Init({0, 1}), run, s) && TouchesFreed(s, Acquire(0))
  {
    hide Reaches;
    var s0 := Init({0, 1});
    run, s := Start(s0);
    run, s := Closes(s0, run, s);
    run, s := Then(s0, run, s, Enter(0, ForWrite));
    run, s := Frees(s0, run, s);
  }

  lemma Start(s0: State) returns (run: seq<Event>, s: State)
    ensures Reaches(s0, run, s) && s == s0
  {
    run, s := [], s0;
  }

  lemma Closes(s0: State, run: seq<Event>, s: State) returns (run': seq<Event>, s': State)
    requires Reaches(s0, run, s) && 1 in s.callers && s.callers[1] == Idle && !s.clientFreed && s.lock == Nobody
    requires s.shared.refcount == 2 && !s.freed
    ensures Reaches(s0, run', s')
    ensures s' == s.(shared := s.shared.(finish := Close), sem := s.sem + 1, callers := s.callers[1 := Idle])
  {
    hide Reaches;
    run', s' := Then(s0, run, s, Enter(1, ForClose));
    run', s' := Then(s0, run', s', Acquire(1));
    run', s' := Then(s0, run', s', Signal(1));
    assert s'.callers == s.callers[1 := Idle];
  }

  /** Caller 1 frees the handle, and the drain thread leaves. */
  lemma Frees(s0: State, run: seq<Event>, s: State) returns (run': seq<Event>, s': State)
    requires Reaches(s0, run, s) && 1 in s.callers && s.callers[1] == Idle && !s.clientFreed && s.freer == Nobody
    requires s.lock == Nobody && s.shared == Shared([], Close, 2) && s.drainer == AtLock
    ensures Reaches(s0, run', s')
    ensures s'.freed && s'.lock == Nobody && s'.shared.refcount == 0 && s'.callers == s.callers[1 := Idle]
  {
    hide Reaches;
    run', s' := Then(s0, run, s, Enter(1, ForFree));
    run', s' := Then(s0, run', s', Acquire(1));
    run', s' := Then(s0, run', s', DrainSection);
  }
}
