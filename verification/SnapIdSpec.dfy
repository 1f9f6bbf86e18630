/**
 * What the snapshot id pool means: a stack of free ids, a queue of ids in quarantine with
 * their stored timeouts, and the set of ids in use.
 */
module SnapIdSpec {
  import opened Ranges

  const MAX_IDS: nat := 32768
  const INT_MAX: int := 0x7FFF_FFFF

  datatype Quarantined = Quarantined(id: int, timeout: int)

  datatype Pool = Pool(free: seq<int>, timed: seq<Quarantined>, used: set<int>)

  /** A 64-bit value stored in the `int m_Timeout` of an id. */
  function StoredInt(x: int): (r: int)
    ensures -0x8000_0000 <= r <= INT_MAX
    ensures r == x <==> -0x8000_0000 <= x <= INT_MAX
  {
    (x + 0x8000_0000) % 0x1_0000_0000 - 0x8000_0000
  }

  function Ids(q: seq<Quarantined>): (s: seq<int>)
    ensures |s| == |q|
    ensures forall i :: 0 <= i < |q| ==> s[i] == q[i].id
  {
    if q == [] then [] else [q[0].id] + Ids(q[1..])
  }

  /** The ids in all three places, each counted as often as it occurs. */
  ghost function Everywhere(p: Pool): multiset<int> {
    multiset(p.free) + multiset(Ids(p.timed)) + multiset(p.used)
  }

  /** Each id is in exactly one place, once, and every stored timeout is an int. */
  ghost predicate WellFormed(p: Pool) {
    && Everywhere(p) == multiset(Below(MAX_IDS))
    && (forall q :: q in p.timed ==> q.timeout <= INT_MAX)
  }

  function Initial(): Pool {
    Pool(seq(MAX_IDS, i => i), [], {})
  }

  /** `RemoveFirstTimeout`: the oldest quarantined id goes on top of the free stack. */
  function ReleaseOldest(p: Pool): Pool
    requires p.timed != []
  {
    Pool([p.timed[0].id] + p.free, p.timed[1..], p.used)
  }

  /** The loop at the start of `NewID`. */
  function ReleaseExpired(p: Pool, now: int): Pool
    decreases |p.timed|
  {
    if p.timed != [] && p.timed[0].timeout < now then ReleaseExpired(ReleaseOldest(p), now) else p
  }

  function ReleaseAll(p: Pool): Pool
    decreases |p.timed|
  {
    if p.timed != [] then ReleaseAll(ReleaseOldest(p)) else p
  }

  function New(p: Pool, now: int): (Pool, int) {
    var q := ReleaseExpired(p, now);
    if q.free == [] then (q, -1)
    else (Pool(q.free[1..], q.timed, q.used + {q.free[0]}), q.free[0])
  }

  function Free(p: Pool, id: int, now: int, freq: int): Pool {
    if id < 0 then p
    else Pool(p.free, p.timed + [Quarantined(id, StoredInt(now + freq * 5))], p.used - {id})
  }

  // ----- runs

  datatype Event =
    | NewId(now: int)
    | FreeId(id: int, now: int)
    | Timeouts

  /** `FreeID` asserts that the id is in use; negative ids are ignored. */
  predicate Legal(p: Pool, e: Event) {
    e.FreeId? && e.id >= 0 ==> e.id in p.used
  }

  function Step(p: Pool, e: Event, freq: int): Pool {
    match e
    case NewId(now) => New(p, now).0
    case FreeId(id, now) => Free(p, id, now, freq)
    case Timeouts => ReleaseAll(p)
  }

  function Run(p: Pool, run: seq<Event>, freq: int): Pool
    decreases |run|
  {
    if run == [] then p else Run(Step(p, run[0], freq), run[1..], freq)
  }

  ghost predicate LegalRun(p: Pool, run: seq<Event>, freq: int)
    decreases |run|
  {
    run == [] || (Legal(p, run[0]) && LegalRun(Step(p, run[0], freq), run[1..], freq))
  }

  // ----- every id in exactly one place

  lemma ReleaseOldestKeeps(p: Pool)
    requires WellFormed(p) && p.timed != []
    ensures WellFormed(ReleaseOldest(p))
  {
    assert Ids(p.timed) == [p.timed[0].id] + Ids(p.timed[1..]);
  }

  lemma {:induction false} ReleaseExpiredKeeps(p: Pool, now: int)
    requires WellFormed(p)
    ensures WellFormed(ReleaseExpired(p, now))
    ensures ReleaseExpired(p, now).used == p.used
    decreases |p.timed|
  {
    hide WellFormed;
    if p.timed != [] && p.timed[0].timeout < now {
      ReleaseOldestKeeps(p);
      ReleaseExpiredKeeps(ReleaseOldest(p), now);
    }
  }

  lemma {:induction false} ReleaseAllKeeps(p: Pool)
    requires WellFormed(p)
    ensures WellFormed(ReleaseAll(p))
    ensures ReleaseAll(p).timed == [] && ReleaseAll(p).used == p.used
    decreases |p.timed|
  {
    hide WellFormed;
    if p.timed != [] {
      ReleaseOldestKeeps(p);
      ReleaseAllKeeps(ReleaseOldest(p));
    }
  }

  /** The top of the free stack is an id that nobody is using, and can be taken. */
  lemma TakingKeeps(q: Pool)
    requires WellFormed(q) && q.free != []
    ensures var id := q.free[0];
            && 0 <= id < MAX_IDS && id !in q.used
            && WellFormed(Pool(q.free[1..], q.timed, q.used + {id}))
  {
    hide Ids;
    var id := q.free[0];
    assert q.free == [id] + q.free[1..];
    assert Everywhere(q)[id] == 1 by {
      assert id in multiset(q.free);
    }
    assert multiset(q.used + {id}) == multiset(q.used) + multiset{id};
  }

  /** `NewID` hands out an id that nobody is using, or -1 when none is free after releasing. */
  lemma NewKeeps(p: Pool, now: int)
    requires WellFormed(p)
    ensures WellFormed(New(p, now).0)
    ensures var (p', id) := New(p, now);
            if id == -1 then p'.free == [] && p'.used == p.used
            else 0 <= id < MAX_IDS && id !in p.used && p'.used == p.used + {id}
  {
    hide WellFormed;
    ReleaseExpiredKeeps(p, now);
    var q := ReleaseExpired(p, now);
    if q.free != [] { TakingKeeps(q); }
  }

  lemma IdsAppend(q: seq<Quarantined>, x: Quarantined)
    ensures Ids(q + [x]) == Ids(q) + [x.id]
  {
  }

  lemma FreeKeeps(p: Pool, id: int, now: int, freq: int)
    requires WellFormed(p) && (id >= 0 ==> id in p.used)
    ensures WellFormed(Free(p, id, now, freq))
  {
    if id >= 0 {
      IdsAppend(p.timed, Quarantined(id, StoredInt(now + freq * 5)));
      assert multiset(p.used) == multiset(p.used - {id}) + multiset{id};
    }
  }

  /** In every run, each id is free, quarantined or in use: exactly one of the three, once. */
  lemma {:induction false} RunKeeps(p: Pool, run: seq<Event>, freq: int)
    requires WellFormed(p) && LegalRun(p, run, freq)
    ensures WellFormed(Run(p, run, freq))
    decreases |run|
  {
    if run != [] {
      match run[0] {
        case NewId(now) => NewKeeps(p, now);
        case FreeId(id, now) => FreeKeeps(p, id, now, freq);
        case Timeouts => ReleaseAllKeeps(p);
      }
      RunKeeps(Step(p, run[0], freq), run[1..], freq);
    }
  }

  lemma InitialWellFormed()
    ensures WellFormed(Initial())
  {
    InitialFree(MAX_IDS);
  }

  lemma {:induction false} InitialFree(n: nat)
    ensures multiset(seq(n, i => i)) == multiset(Below(n))
  {
    if n > 0 {
      InitialFree(n - 1);
      assert seq(n, i => i) == seq(n - 1, i => i) + [n - 1];
      assert Below(n) == Below(n - 1) + {n - 1};
    }
  }

  /** The sizes of the three places add up to the number of ids. */
  lemma Conservation(p: Pool)
    requires WellFormed(p)
    ensures |p.free| + |p.timed| + |p.used| == MAX_IDS
  {
    BelowCount(MAX_IDS);
    assert |Everywhere(p)| == |p.free| + |Ids(p.timed)| + |p.used|;
  }

  /** No id is in two of the three places. */
  lemma Apart(p: Pool, id: int)
    requires WellFormed(p)
    ensures 0 <= id < MAX_IDS <==> id in p.free || id in Ids(p.timed) || id in p.used
    ensures !(id in p.free && id in Ids(p.timed)) && !(id in p.free && id in p.used)
            && !(id in Ids(p.timed) && id in p.used)
  {
    assert Everywhere(p)[id] == if 0 <= id < MAX_IDS then 1 else 0;
    assert id in p.free <==> multiset(p.free)[id] > 0;
    assert id in Ids(p.timed) <==> multiset(Ids(p.timed))[id] > 0;
  }

  // ----- what the loop of `NewID` releases

  ghost predicate Sorted(q: seq<Quarantined>) {
    forall i, j :: 0 <= i < j < |q| ==> q[i].timeout <= q[j].timeout
  }

  /** No entry that has not expired stands before one that has. */
  ghost predicate ExpiredFirst(q: seq<Quarantined>, now: int) {
    forall i, j :: 0 <= i < j < |q| && q[j].timeout < now ==> q[i].timeout < now
  }

  /** The loop of `NewID` leaves exactly the entries that have not expired. */
  ghost predicate ReleasesExactly(p: Pool, now: int) {
    forall x :: x in ReleaseExpired(p, now).timed <==> x in p.timed && x.timeout >= now
  }

  /** The loop releases exactly the expired ids if and only if they all stand in front. */
  lemma {:induction false} ReleaseExactIff(p: Pool, now: int)
    ensures ReleasesExactly(p, now) <==> ExpiredFirst(p.timed, now)
    decreases |p.timed|
  {
    if p.timed != [] {
      var first, rest := p.timed[0], p.timed[1..];
      assert p.timed == [first] + rest;
      if first.timeout < now {
        ReleaseExactIff(ReleaseOldest(p), now);
        FirstExpired(p.timed, now);
      } else {
        FirstUnexpired(p.timed, now);
      }
    }
  }

  lemma FirstExpired(q: seq<Quarantined>, now: int)
    requires q != [] && q[0].timeout < now
    ensures ExpiredFirst(q, now) <==> ExpiredFirst(q[1..], now)
  {
    if ExpiredFirst(q[1..], now) {
      forall i, j | 0 <= i < j < |q| && q[j].timeout < now
        ensures q[i].timeout < now
      {
        if i > 0 { assert q[1..][j - 1] == q[j] && q[1..][i - 1] == q[i]; }
      }
    }
  }

  lemma FirstUnexpired(q: seq<Quarantined>, now: int)
    requires q != [] && q[0].timeout >= now
    ensures ExpiredFirst(q, now) <==> forall x :: x in q ==> x.timeout >= now
  {
    if ExpiredFirst(q, now) {
      forall x | x in q ensures x.timeout >= now {
        var j :| 0 <= j < |q| && q[j] == x;
      }
    }
  }

  /** So the loop is exact at every time if and only if the queue is sorted. */
  lemma SortedIff(q: seq<Quarantined>)
    ensures Sorted(q) <==> forall now :: ExpiredFirst(q, now)
  {
    if !Sorted(q) {
      var i, j :| 0 <= i < j < |q| && q[i].timeout > q[j].timeout;
      assert !ExpiredFirst(q, q[j].timeout + 1);
    }
  }

  lemma {:induction false} ReleaseSuffix(p: Pool, now: int)
    ensures Sorted(p.timed) ==> Sorted(ReleaseExpired(p, now).timed)
    decreases |p.timed|
  {
    if p.timed != [] && p.timed[0].timeout < now { ReleaseSuffix(ReleaseOldest(p), now); }
  }

  // ----- when the queue is sorted

  /** An id that is freed gets a stored timeout that is not before the last one. */
  predicate KeepsOrder(p: Pool, e: Event, freq: int) {
    e.FreeId? && e.id >= 0 && p.timed != [] ==> p.timed[|p.timed| - 1].timeout <= StoredInt(e.now + freq * 5)
  }

  predicate InOrder(p: Pool, run: seq<Event>, freq: int)
    decreases |run|
  {
    run != [] ==> KeepsOrder(p, run[0], freq) && InOrder(Step(p, run[0], freq), run[1..], freq)
  }

  /** The queue is sorted before, between and after the events. */
  ghost predicate AlwaysSorted(p: Pool, run: seq<Event>, freq: int)
    decreases |run|
  {
    Sorted(p.timed) && (run != [] ==> AlwaysSorted(Step(p, run[0], freq), run[1..], freq))
  }

  lemma SortedAppend(q: seq<Quarantined>, x: Quarantined)
    requires Sorted(q) && q != []
    ensures Sorted(q + [x]) <==> q[|q| - 1].timeout <= x.timeout
  {
    var all, n := q + [x], |q|;
    assert all[n] == x && all[n - 1] == q[n - 1];
    if q[n - 1].timeout <= x.timeout {
      forall i, j | 0 <= i < j < |all| ensures all[i].timeout <= all[j].timeout {
        assert all[i] == q[i];
        if j < n { assert all[j] == q[j]; } else if i < n - 1 { assert q[i].timeout <= q[n - 1].timeout; }
      }
    }
  }

  lemma SortedStep(p: Pool, e: Event, freq: int)
    requires Sorted(p.timed)
    ensures Sorted(Step(p, e, freq).timed) <==> KeepsOrder(p, e, freq)
  {
    match e {
      case NewId(now) => ReleaseSuffix(p, now);
      case FreeId(id, now) =>
        if id >= 0 && p.timed != [] { SortedAppend(p.timed, Quarantined(id, StoredInt(now + freq * 5))); }
      case Timeouts => ReleaseAllEmpties(p);
    }
  }

  /** The queue stays sorted through a run if and only if every id is freed in order. */
  lemma {:induction false} RunStaysSortedIff(p: Pool, run: seq<Event>, freq: int)
    requires Sorted(p.timed)
    ensures AlwaysSorted(p, run, freq) <==> InOrder(p, run, freq)
    decreases |run|
  {
    hide Sorted, Step, KeepsOrder;
    if run != [] {
      SortedStep(p, run[0], freq);
      if KeepsOrder(p, run[0], freq) { RunStaysSortedIff(Step(p, run[0], freq), run[1..], freq); }
      assert !AlwaysSorted(Step(p, run[0], freq), run[1..], freq) || Sorted(Step(p, run[0], freq).timed);
    }
  }

  /** Two times less than 2^32 apart are stored in order unless the int wraps in between. */
  lemma StoredInOrderIff(s: int, t: int)
    requires s <= t < s + 0x1_0000_0000
    ensures StoredInt(s) <= StoredInt(t) <==> (s + 0x8000_0000) / 0x1_0000_0000 == (t + 0x8000_0000) / 0x1_0000_0000
  {
  }

  /** No timeout in the run is cut down to an int, and the clock does not go back. */
  ghost predicate Clocked(run: seq<Event>, freq: int, start: int) {
    && (forall i :: 0 <= i < |run| && run[i].FreeId? ==>
          start <= run[i].now && run[i].now + freq * 5 <= INT_MAX)
    && (forall i, j :: 0 <= i < j < |run| && run[i].FreeId? && run[j].FreeId? ==> run[i].now <= run[j].now)
  }

  /** Ids are freed in order as long as the timeouts fit an int, on a clock of any other unit. */
  lemma {:induction false} ClockedInOrder(p: Pool, run: seq<Event>, freq: int, start: int)
    requires freq >= 0 && start >= 0 && Clocked(run, freq, start)
    requires forall x :: x in p.timed ==> x.timeout <= start + freq * 5
    ensures InOrder(p, run, freq)
    decreases |run|
  {
    if run != [] {
      var p' := Step(p, run[0], freq);
      match run[0] {
        case NewId(now) => ReleasedWere(p, now);
        case FreeId(id, now) =>
        case Timeouts => ReleaseAllEmpties(p);
      }
      var start' := if run[0].FreeId? then run[0].now else start;
      assert forall x :: x in p'.timed ==> x.timeout <= start' + freq * 5;
      ClockedInOrder(p', run[1..], freq, start');
    }
  }

  lemma {:induction false} ReleasedWere(p: Pool, now: int)
    ensures forall x :: x in ReleaseExpired(p, now).timed ==> x in p.timed
    decreases |p.timed|
  {
    if p.timed != [] && p.timed[0].timeout < now { ReleasedWere(ReleaseOldest(p), now); }
  }

  const TIME_FREQ: int := 1_000_000_000

  /** The run of `UnsortedInNanoseconds`: two ids are taken, and freed a tenth of a second apart. */
  function WrappingRun(): seq<Event> {
    [NewId(0), NewId(0), FreeId(0, 1_400_000_000), FreeId(1, 1_500_000_000)]
  }

  /**
   * With nanoseconds, the int wraps between the two stored timeouts: the queue is not sorted,
   * and at 1.6 seconds the loop releases nothing although the second entry has expired.
   */
  lemma UnsortedInNanoseconds()
    ensures LegalRun(Initial(), WrappingRun(), TIME_FREQ)
    ensures var p := Run(Initial(), WrappingRun(), TIME_FREQ);
            && p.timed == [Quarantined(0, 2_105_032_704), Quarantined(1, -2_089_934_592)]
            && !Sorted(p.timed)
            && ReleaseExpired(p, 1_600_000_000) == p && !ReleasesExactly(p, 1_600_000_000)
  {
    var run := WrappingRun();
    var p0 := Initial();
    var p1, p2 := Step(p0, run[0], TIME_FREQ), Step(Step(p0, run[0], TIME_FREQ), run[1], TIME_FREQ);
    assert p1.used == {0} && p1.free == p0.free[1..] && p1.timed == [];
    assert p2.used == {0, 1} && p2.timed == [];
    var p3 := Step(p2, run[2], TIME_FREQ);
    assert p3.timed == [Quarantined(0, 2_105_032_704)] && p3.used == {1};
    var p4 := Step(p3, run[3], TIME_FREQ);
    var t := [Quarantined(0, 2_105_032_704), Quarantined(1, -2_089_934_592)];
    assert p4.timed == t;
    FourSteps(p0, run, TIME_FREQ);
    assert t[0].timeout > t[1].timeout;
    assert Quarantined(1, -2_089_934_592) in t;
  }

  lemma FourSteps(p: Pool, run: seq<Event>, freq: int)
    requires |run| == 4
    ensures var q := Step(Step(p, run[0], freq), run[1], freq);
            && Run(p, run, freq) == Step(Step(q, run[2], freq), run[3], freq)
            && (LegalRun(p, run, freq) <==>
                  && Legal(p, run[0]) && Legal(Step(p, run[0], freq), run[1])
                  && Legal(q, run[2]) && Legal(Step(q, run[2], freq), run[3]))
  {
    hide Step, Legal;
    var r1, r2, r3 := run[1..], run[1..][1..], run[1..][1..][1..];
    assert r1[0] == run[1] && r2[0] == run[2] && r3[0] == run[3] && r3[1..] == [];
    var q1 := Step(p, run[0], freq);
    var q2 := Step(q1, run[1], freq);
    var q3 := Step(q2, run[2], freq);
    assert Run(q3, r3, freq) == Step(q3, run[3], freq);
    assert Run(q2, r2, freq) == Run(q3, r3, freq);
    assert LegalRun(q3, r3, freq) <==> Legal(q3, run[3]);
    assert LegalRun(q2, r2, freq) <==> Legal(q2, run[2]) && LegalRun(q3, r3, freq);
    assert LegalRun(q1, r1, freq) <==> Legal(q1, run[1]) && LegalRun(q2, r2, freq);
  }

  // ----- the five seconds of quarantine

  lemma {:induction false} ReleaseAllEmpties(p: Pool)
    ensures ReleaseAll(p).timed == []
    decreases |p.timed|
  {
    if p.timed != [] { ReleaseAllEmpties(ReleaseOldest(p)); }
  }

  lemma {:induction false} UnexpiredStays(p: Pool, x: Quarantined, now: int)
    requires x in p.timed && x.timeout >= now
    ensures x in ReleaseExpired(p, now).timed
    decreases |p.timed|
  {
    if p.timed != [] && p.timed[0].timeout < now {
      UnexpiredStays(ReleaseOldest(p), x, now);
    }
  }

  /** No clock reading is later than `limit`, and `TimeoutIDs` does not run. */
  predicate Within(run: seq<Event>, limit: int) {
    forall e :: e in run ==> !e.Timeouts? && (e.NewId? ==> e.now <= limit)
  }

  /**
   * When the timeout fits an int, an id freed at `t` stays in quarantine through every run
   * whose clock has not passed `t` by more than five seconds.
   */
  lemma {:induction false} HeldThroughRun(p: Pool, x: Quarantined, run: seq<Event>, freq: int)
    requires x in p.timed && Within(run, x.timeout)
    ensures x in Run(p, run, freq).timed
    decreases |run|
  {
    if run != [] {
      if run[0].NewId? { UnexpiredStays(p, x, run[0].now); }
      HeldThroughRun(Step(p, run[0], freq), x, run[1..], freq);
    }
  }

  /** When every timeout has passed, the youngest quarantined id ends on top of the stack. */
  lemma {:induction false} ReleasesEverything(p: Pool, now: int)
    requires p.timed != [] && forall x :: x in p.timed ==> x.timeout < now
    ensures var q := ReleaseExpired(p, now);
            q.timed == [] && q.free != [] && q.free[0] == p.timed[|p.timed| - 1].id
    decreases |p.timed|
  {
    var p' := ReleaseOldest(p);
    if p'.timed != [] {
      ReleasesEverything(p', now);
    }
  }

  /**
   * Past 2^31 - 1 on the clock there is no quarantine: an id that is freed is the very next
   * one `NewID` hands out, even at the same instant.
   */
  lemma FreedIsReissuedAtOnce(p: Pool, id: int, t: int, now: int, freq: int)
    requires WellFormed(p) && id >= 0
    requires now > INT_MAX
    ensures New(Free(p, id, t, freq), now).1 == id
    ensures New(Free(p, id, t, freq), now).0.timed == []
  {
    var p' := Free(p, id, t, freq);
    assert p'.timed[|p.timed|].id == id;
    ReleasesEverything(p', now);
  }

  /** Whether an id freed at `t` is still held back at every instant of the next five seconds. */
  ghost predicate QuarantineKept(p: Pool, id: int, t: int, freq: int) {
    forall now :: t <= now <= t + freq * 5 ==>
      New(Free(p, id, t, freq), now).1 != id
  }

  /** The quarantine works exactly while the clock plus five seconds fits an `int`. */
  lemma QuarantineKeptIff(p: Pool, id: int, t: int, freq: int)
    requires WellFormed(p) && id in p.used
    requires t >= 0 && freq >= 0
    ensures QuarantineKept(p, id, t, freq) <==> t + freq * 5 <= INT_MAX
  {
    hide WellFormed;
    var p' := Free(p, id, t, freq);
    FreeKeeps(p, id, t, freq);
    Apart(p, id);
    if t + freq * 5 <= INT_MAX {
      forall now | t <= now <= t + freq * 5
        ensures New(p', now).1 != id
      {
        var x := Quarantined(id, t + freq * 5);
        assert p'.timed[|p.timed|] == x;
        UnexpiredStays(p', x, now);
        ReleaseExpiredKeeps(p', now);
        assert id in Ids(ReleaseExpired(p', now).timed);
        Apart(ReleaseExpired(p', now), id);
      }
    } else {
      FreedIsReissuedAtOnce(p, id, t, t + freq * 5, freq);
      assert New(p', t + freq * 5).1 == id;
    }
  }

  /** The clock counts nanoseconds, so the five seconds never fit: no quarantine is ever kept. */
  lemma QuarantineNeverKept(p: Pool, id: int, t: int)
    requires WellFormed(p) && id in p.used && t >= 0
    ensures !QuarantineKept(p, id, t, TIME_FREQ)
  {
    QuarantineKeptIff(p, id, t, TIME_FREQ);
  }

  /** An id freed at `t` is in quarantine after every run of the next five seconds. */
  ghost predicate HeldThroughout(p: Pool, id: int, t: int, freq: int) {
    forall run :: Within(run, t + freq * 5) ==> id in Ids(Run(Free(p, id, t, freq), run, freq).timed)
  }

  /** It is, through every run without `TimeoutIDs`, exactly if the timeout fits an int. */
  lemma HeldForFiveSecondsIff(p: Pool, id: int, t: int, freq: int)
    requires WellFormed(p) && id in p.used && t >= 0 && freq >= 0
    ensures HeldThroughout(p, id, t, freq) <==> t + freq * 5 <= INT_MAX
  {
    hide WellFormed, Run;
    Apart(p, id);
    var p' := Free(p, id, t, freq);
    var x := Quarantined(id, StoredInt(t + freq * 5));
    assert p'.timed[|p.timed|] == x;
    if t + freq * 5 <= INT_MAX {
      forall run | Within(run, t + freq * 5)
        ensures id in Ids(Run(p', run, freq).timed)
      {
        HeldThroughRun(p', x, run, freq);
        IdsHas(Run(p', run, freq).timed, x);
      }
    } else {
      var run := [NewId(t + freq * 5)];
      OneStep(p', run, freq);
      FreedIsReissuedAtOnce(p, id, t, t + freq * 5, freq);
      assert Within(run, t + freq * 5);
      assert Run(p', run, freq).timed == [];
    }
  }

  lemma IdsHas(q: seq<Quarantined>, x: Quarantined)
    requires x in q
    ensures x.id in Ids(q)
  {
    var k :| 0 <= k < |q| && q[k] == x;
    assert Ids(q)[k] == x.id;
  }

  lemma OneStep(p: Pool, run: seq<Event>, freq: int)
    requires |run| == 1
    ensures Run(p, run, freq) == Step(p, run[0], freq)
  {
    assert run[1..] == [];
  }

  // ----- when there is no id left

  /** Every id is in use or has a timeout that has not passed. */
  ghost predicate Exhausted(p: Pool, now: int) {
    forall i :: 0 <= i < MAX_IDS ==>
      i in p.used || exists x :: x in p.timed && x.id == i && x.timeout >= now
  }

  /** An entry that has not expired stands first, nothing is free, and something has expired. */
  ghost predicate Stuck(p: Pool, now: int) {
    && p.free == [] && p.timed != [] && p.timed[0].timeout >= now
    && exists x :: x in p.timed && x.timeout < now
  }

  /**
   * For every pool, -1 means that the pool is exhausted, or that its expired ids wait behind
   * an entry that has not expired.
   */
  lemma ExhaustedMeans(p: Pool, now: int)
    requires WellFormed(p)
    ensures New(p, now).1 == -1 <==> Exhausted(p, now) || Stuck(p, now)
    ensures !(Exhausted(p, now) && Stuck(p, now))
  {
    hide WellFormed;
    ReleaseExpiredKeeps(p, now);
    var q := ReleaseExpired(p, now);
    Apart(q, -1);
    if New(p, now).1 == -1 {
      EmptyAfter(p, now);
      if forall x :: x in p.timed ==> x.timeout >= now { NoneFree(p, now); }
    } else {
      var i := q.free[0];
      Apart(q, i);
      forall x | x in p.timed && x.id == i ensures x.timeout < now {
        if x.timeout >= now { UnexpiredStays(p, x, now); IdsHas(q.timed, x); }
      }
      NewKeeps(p, now);
    }
    if Stuck(p, now) {
      var x :| x in p.timed && x.timeout < now;
      IdsHas(p.timed, x);
      Apart(p, x.id);
      OneEntry(p, x);
    }
  }

  /** The loop can only end without a free id if it has released nothing. */
  lemma EmptyAfter(p: Pool, now: int)
    requires ReleaseExpired(p, now).free == []
    ensures ReleaseExpired(p, now) == p && (p.timed != [] ==> p.timed[0].timeout >= now)
  {
    if p.timed != [] && p.timed[0].timeout < now { FreeGrows(ReleaseOldest(p), now); }
  }

  lemma {:induction false} FreeGrows(p: Pool, now: int)
    ensures |ReleaseExpired(p, now).free| >= |p.free|
    decreases |p.timed|
  {
    if p.timed != [] && p.timed[0].timeout < now { FreeGrows(ReleaseOldest(p), now); }
  }

  lemma NoneFree(p: Pool, now: int)
    requires WellFormed(p) && p.free == [] && forall x :: x in p.timed ==> x.timeout >= now
    ensures Exhausted(p, now)
  {
    hide WellFormed;
    forall i | 0 <= i < MAX_IDS && i !in p.used
      ensures exists x :: x in p.timed && x.id == i && x.timeout >= now
    {
      Apart(p, i);
      var k :| 0 <= k < |p.timed| && p.timed[k].id == i;
      assert p.timed[k] in p.timed;
    }
  }

  /** An id has one entry in the queue at most. */
  lemma OneEntry(p: Pool, x: Quarantined)
    requires WellFormed(p) && x in p.timed
    ensures forall y :: y in p.timed && y.id == x.id ==> y == x
  {
    forall y | y in p.timed && y.id == x.id ensures y == x {
      var i, j :| 0 <= i < |p.timed| && 0 <= j < |p.timed| && p.timed[i] == x && p.timed[j] == y;
      AtMostOnce(p, x.id);
      if i != j { TwoIn(Ids(p.timed), i, j); }
    }
  }

  lemma AtMostOnce(p: Pool, id: int)
    requires WellFormed(p)
    ensures multiset(Ids(p.timed))[id] <= 1
  {
    assert Everywhere(p)[id] <= 1;
  }

  lemma TwoIn(s: seq<int>, i: nat, j: nat)
    requires i < |s| && j < |s| && i != j && s[i] == s[j]
    ensures multiset(s)[s[i]] >= 2
  {
    var (a, b) := if i < j then (i, j) else (j, i);
    assert s == s[..a] + [s[a]] + s[a + 1..b] + [s[b]] + s[b + 1..];
  }

  /**
   * What every pool does once the clock is past 2^31 - 1: the queue is emptied by each
   * `NewID`, and -1 means that all ids are in use.
   */
  lemma EmptiedPastIntMax(p: Pool, now: int)
    requires WellFormed(p) && now > INT_MAX
    ensures New(p, now).0.timed == []
    ensures New(p, now).1 == -1 <==> p.used == Below(MAX_IDS)
  {
    ReleaseExpiredKeeps(p, now);
    if p.timed != [] { ReleasesEverything(p, now); }
    var q := ReleaseExpired(p, now);
    assert q.timed == [] && q.used == p.used;
    Apart(q, -1);
    AllUsed(q);
  }

  lemma AllUsed(p: Pool)
    requires WellFormed(p) && p.timed == []
    ensures p.free == [] <==> p.used == Below(MAX_IDS)
  {
    if p.free == [] {
      forall i ensures i in p.used <==> i in Below(MAX_IDS) {
        Apart(p, i);
      }
    } else if p.used == Below(MAX_IDS) {
      BelowCount(MAX_IDS);
      Conservation(p);
    }
  }

  /**
   * In every legal run of the server, at any reading of its clock past 2^31 - 1: each id is
   * in one place, the queue is empty after `NewID`, and -1 means that all ids are in use.
   */
  lemma EveryRunInNanoseconds(run: seq<Event>, now: int)
    requires LegalRun(Initial(), run, TIME_FREQ) && now > INT_MAX
    ensures var p := Run(Initial(), run, TIME_FREQ);
            && WellFormed(p)
            && New(p, now).0.timed == []
            && (New(p, now).1 == -1 <==> p.used == Below(MAX_IDS))
  {
    hide WellFormed;
    InitialWellFormed();
    RunKeeps(Initial(), run, TIME_FREQ);
    EmptiedPastIntMax(Run(Initial(), run, TIME_FREQ), now);
  }

  /**
   * Every run from the start, at any time: the queue has been sorted throughout if and only if
   * every id was freed in order; `NewID` releases exactly the expired ids if and only if they
   * stand in front; and it returns -1 if and only if the pool is exhausted or stuck.
   */
  lemma EveryRun(run: seq<Event>, freq: int, now: int)
    requires LegalRun(Initial(), run, freq)
    ensures var p := Run(Initial(), run, freq);
            && (AlwaysSorted(Initial(), run, freq) <==> InOrder(Initial(), run, freq))
            && (ReleasesExactly(p, now) <==> ExpiredFirst(p.timed, now))
            && (New(p, now).1 == -1 <==> Exhausted(p, now) || Stuck(p, now))
  {
    hide WellFormed, New, Exhausted, Stuck, ReleasesExactly;
    InitialWellFormed();
    RunKeeps(Initial(), run, freq);
    RunStaysSortedIff(Initial(), run, freq);
    ReleaseExactIff(Run(Initial(), run, freq), now);
    ExhaustedMeans(Run(Initial(), run, freq), now);
  }

  // ----- a server that gets stuck

  lemma {:induction false} RunThen(p: Pool, run: seq<Event>, e: Event, freq: int)
    ensures Run(p, run + [e], freq) == Step(Run(p, run, freq), e, freq)
    ensures LegalRun(p, run + [e], freq) <==> LegalRun(p, run, freq) && Legal(Run(p, run, freq), e)
    decreases |run|
  {
    hide Step, Legal;
    var all := run + [e];
    if run == [] {
      assert all[0] == e && all[1..] == [];
      assert Run(Step(p, e, freq), all[1..], freq) == Step(p, e, freq);
      assert LegalRun(Step(p, e, freq), all[1..], freq);
    } else {
      assert all[0] == run[0] && all[1..] == run[1..] + [e];
      RunThen(Step(p, run[0], freq), run[1..], e, freq);
    }
  }

  function Takes(n: nat): seq<Event> {
    seq(n, i => NewId(0))
  }

  lemma TakeOne(free: seq<int>, n: nat, freq: int)
    requires n < |free| && free[n] == n
    ensures Step(Pool(free[n..], [], Below(n)), NewId(0), freq) == Pool(free[n + 1..], [], Below(n + 1))
  {
    assert free[n..][0] == n && free[n..][1..] == free[n + 1..];
    assert Below(n + 1) == Below(n) + {n};
  }

  lemma InitialIs(n: nat)
    requires n == MAX_IDS
    ensures |Initial().free| == n && (forall i :: 0 <= i < n ==> Initial().free[i] == i)
    ensures Initial() == Pool(Initial().free[0..], [], Below(0))
  {
    assert Below(0) == {};
    assert Initial().free[0..] == Initial().free;
  }

  /** Taking ids from the start takes them in order. */
  lemma {:induction false} AfterTakes(n: nat, freq: int)
    requires n <= MAX_IDS
    ensures |Initial().free| == MAX_IDS && LegalRun(Initial(), Takes(n), freq)
    ensures Run(Initial(), Takes(n), freq) == Pool(Initial().free[n..], [], Below(n))
  {
    hide Initial, Step;
    InitialIs(MAX_IDS);
    if n > 0 {
      AfterTakes(n - 1, freq);
      assert Takes(n) == Takes(n - 1) + [NewId(0)];
      RunThen(Initial(), Takes(n - 1), NewId(0), freq);
      TakeOne(Initial().free, n - 1, freq);
    }
  }

  /**
   * With nanoseconds: all ids are taken, two are freed a tenth of a second apart, and at 1.6
   * seconds there is no id although the second one has expired.
   */
  lemma StuckInNanoseconds(n: nat)
    requires n == MAX_IDS
    ensures var run := Takes(n) + [FreeId(0, 1_400_000_000)] + [FreeId(1, 1_500_000_000)];
            && LegalRun(Initial(), run, TIME_FREQ)
            && var p := Run(Initial(), run, TIME_FREQ);
               Stuck(p, 1_600_000_000) && !Exhausted(p, 1_600_000_000) && New(p, 1_600_000_000).1 == -1
  {
    hide Run, LegalRun, New, Exhausted, Initial, Takes, WellFormed;
    AfterTakes(n, TIME_FREQ);
    NoneLeft(n);
    var taken := Pool([], [], Below(n));
    RunThen(Initial(), Takes(n), FreeId(0, 1_400_000_000), TIME_FREQ);
    RunThen(Initial(), Takes(n) + [FreeId(0, 1_400_000_000)], FreeId(1, 1_500_000_000), TIME_FREQ);
    TwoFreed(taken, n);
    var run := Takes(n) + [FreeId(0, 1_400_000_000)] + [FreeId(1, 1_500_000_000)];
    InitialWellFormed();
    RunKeeps(Initial(), run, TIME_FREQ);
    ExhaustedMeans(Run(Initial(), run, TIME_FREQ), 1_600_000_000);
  }

  lemma NoneLeft(n: nat)
    requires n == MAX_IDS
    ensures Initial().free[n..] == []
  {
  }

  lemma TwoFreed(p: Pool, n: nat)
    requires n >= 2 && p == Pool([], [], Below(n))
    ensures var e, f := FreeId(0, 1_400_000_000), FreeId(1, 1_500_000_000);
            && Legal(p, e) && Legal(Step(p, e, TIME_FREQ), f)
            && Stuck(Step(Step(p, e, TIME_FREQ), f, TIME_FREQ), 1_600_000_000)
  {
    var q := Step(p, FreeId(0, 1_400_000_000), TIME_FREQ);
    assert q.timed == [Quarantined(0, 2_105_032_704)] && 1 in q.used;
    var r := Step(q, FreeId(1, 1_500_000_000), TIME_FREQ);
    assert r.timed[1] == Quarantined(1, -2_089_934_592);
  }
}
