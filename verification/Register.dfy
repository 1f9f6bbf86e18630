/**
 * Registration with the master server: the counters that request jobs and the main thread
 * share. Each method of the classes below is one locked section of register.cpp.
 */
module RegisterShared {
  datatype Status = NONE | OK | NEEDCHALLENGE | NEEDINFO

  /** What one protocol's requests share. */
  datatype Replies = Replies(numTotal: nat, status: Status, index: int)

  /** A reply counts if no newer request has been answered before. */
  function Answered(r: Replies, index: int, status: Status): Replies {
    if index > r.index then r.(index := index, status := status) else r
  }

  /** What all protocols share. */
  datatype Info = Info(serial: int, latest: int)

  function Judged(g: Info, serial: int, status: Status): Info {
    if status == OK && serial > g.latest then g.(latest := serial)
    else if status == NEEDINFO && serial == g.latest then g.(latest := g.latest - 1)
    else g
  }

  /** `CGlobal`. */
  class Global {
    var infoSerial: int
    var latestSuccessfulInfoSerial: int

    ghost function View(): Info
      reads this
    {
      Info(infoSerial, latestSuccessfulInfoSerial)
    }

    constructor ()
      ensures View() == Info(-1, -1)
    {
      infoSerial, latestSuccessfulInfoSerial := -1, -1;
    }

    method NewInfo()
      modifies this
      ensures View() == old(View()).(serial := old(infoSerial) + 1)
    {
      infoSerial := infoSerial + 1;
    }

    method Judge(serial: int, status: Status)
      modifies this
      ensures View() == Judged(old(View()), serial, status)
    {
      if status == OK {
        if serial > latestSuccessfulInfoSerial {
          latestSuccessfulInfoSerial := serial;
        }
      } else if status == NEEDINFO {
        if serial == latestSuccessfulInfoSerial {
          latestSuccessfulInfoSerial := latestSuccessfulInfoSerial - 1;
        }
      }
    }
  }

  /** `CProtocol` with its `CShared`. */
  class Protocol {
    const global: Global
    var numTotalRequests: nat
    var latestResponseStatus: Status
    var latestResponseIndex: int
    var newChallengeToken: bool
    var prevRegister: int
    var nextRegister: int

    ghost function View(): Replies
      reads this
    {
      Replies(numTotalRequests, latestResponseStatus, latestResponseIndex)
    }

    constructor (global: Global)
      ensures this.global == global && View() == Replies(0, NONE, -1)
      ensures !newChallengeToken && prevRegister == -1 && nextRegister == -1
    {
      this.global := global;
      numTotalRequests, latestResponseStatus, latestResponseIndex := 0, NONE, -1;
      newChallengeToken, prevRegister, nextRegister := false, -1, -1;
    }

    /** `SendRegister`: the number of the request, and whether it carries the info. */
    method SendRegister(now: int, freq: int) returns (index: nat, serial: int, sendInfo: bool)
      modifies this
      ensures serial == global.infoSerial && (sendInfo <==> serial > global.latestSuccessfulInfoSerial)
      ensures index == old(numTotalRequests) && View() == old(View()).(numTotal := index + 1)
      ensures !newChallengeToken && prevRegister == now && nextRegister == now + 15 * freq
    {
      serial := global.infoSerial;
      sendInfo := serial > global.latestSuccessfulInfoSerial;
      index := numTotalRequests;
      numTotalRequests := numTotalRequests + 1;
      newChallengeToken := false;
      prevRegister := now;
      nextRegister := now + 15 * freq;
    }

    /** The locked section of `SendDeleteIfRegistered`. */
    method Delete() returns (shouldSendDelete: bool)
      modifies this`latestResponseStatus
      ensures shouldSendDelete <==> old(latestResponseStatus) == OK
      ensures View() == old(View()).(status := NONE)
    {
      shouldSendDelete := latestResponseStatus == OK;
      latestResponseStatus := NONE;
    }

    /** The first locked section of `CJob::Run`. */
    method Answer(index: int, status: Status)
      modifies this`latestResponseIndex, this`latestResponseStatus
      ensures View() == Answered(old(View()), index, status)
    {
      if index > latestResponseIndex {
        latestResponseIndex := index;
        latestResponseStatus := status;
      }
    }

    /** `CheckChallengeStatus`: the next request is due at once if the last one asks for more. */
    method CheckChallengeStatus(now: int)
      modifies this`nextRegister
      ensures nextRegister ==
        if latestResponseIndex == numTotalRequests - 1
           && (latestResponseStatus == NEEDINFO || (latestResponseStatus == NEEDCHALLENGE && newChallengeToken))
        then now else old(nextRegister)
    {
      if latestResponseIndex == numTotalRequests - 1 {
        match latestResponseStatus
        case NEEDCHALLENGE =>
          if newChallengeToken {
            nextRegister := now;
          }
        case NEEDINFO =>
          nextRegister := now;
        case _ =>
      }
    }
  }

  // ----- when new info is sent

  predicate Waiting(enabled: seq<bool>, next: seq<int>, k: int)
    requires |next| == |enabled|
  {
    0 <= k < |enabled| && enabled[k] && next[k] != -1
  }

  /** The waiting protocol that is due first, the one with the smallest number among several. */
  ghost predicate DueFirst(enabled: seq<bool>, next: seq<int>, i: int)
    requires |next| == |enabled|
  {
    && Waiting(enabled, next, i)
    && forall k :: Waiting(enabled, next, k) ==> next[i] < next[k] || (next[i] == next[k] && i <= k)
  }

  /** A second has passed since any waiting protocol has sent a request. */
  ghost predicate SecondPassed(enabled: seq<bool>, prev: seq<int>, next: seq<int>, now: int, freq: int)
    requires |next| == |prev| == |enabled|
  {
    now >= freq - 1 && forall k :: Waiting(enabled, next, k) ==> now >= prev[k] + freq
  }

  ghost predicate SendsNow(enabled: seq<bool>, prev: seq<int>, next: seq<int>, now: int, freq: int, i: int)
    requires |next| == |prev| == |enabled| && 0 <= i < |enabled|
  {
    && enabled[i]
    && (next[i] == -1 || now >= next[i] || (DueFirst(enabled, next, i) && SecondPassed(enabled, prev, next, now, freq)))
  }

  /** What is left of the time at which a protocol that does not send now is due. */
  ghost predicate Kept(enabled: seq<bool>, prev: seq<int>, next: seq<int>, now: int, freq: int, i: int, next': int)
    requires |next| == |prev| == |enabled| && 0 <= i < |enabled|
  {
    && (enabled[i] ==> next' > now)
    && (next' == next[i] || (next' < next[i] && DueFirst(enabled, next, i)
                             && forall t :: SecondPassed(enabled, prev, next, t, freq) <==> t >= next'))
  }

  /** The first loop of `OnNewInfo`: the newest request, and the protocol due first or -1. */
  method ScanTimers(enabled: seq<bool>, prev: array<int>, next: array<int>, now: int)
    returns (maximumPrev: int, minimum: int)
    requires prev.Length == next.Length == |enabled| && prev != next
    modifies next
    ensures forall i :: DueFirst(enabled, old(next[..]), i) <==> i == minimum && minimum != -1
    ensures forall t, freq :: SecondPassed(enabled, prev[..], old(next[..]), t, freq) <==> t >= maximumPrev + freq
    ensures forall k :: 0 <= k < next.Length ==>
      next[k] == if enabled[k] && old(next[k]) == -1 then now else old(next[k])
  {
    ghost var prev0, next0 := prev[..], next[..];
    var minimumNext;
    maximumPrev, minimumNext, minimum := -1, -1, -1;
    for i := 0 to |enabled|
      invariant prev[..] == prev0
      invariant forall k :: 0 <= k < |enabled| ==>
        next[k] == if k < i && enabled[k] && next0[k] == -1 then now else next0[k]
      invariant minimum == -1 ==> maximumPrev == -1 && forall k :: Waiting(enabled, next0, k) ==> k >= i
      invariant minimum != -1 ==> 0 <= minimum < i && Waiting(enabled, next0, minimum) && minimumNext == next0[minimum]
      invariant minimum != -1 ==> forall k :: Waiting(enabled, next0, k) && k < i ==>
        next0[minimum] < next0[k] || (next0[minimum] == next0[k] && minimum <= k)
      invariant maximumPrev >= -1 && forall k :: Waiting(enabled, next0, k) && k < i ==> prev0[k] <= maximumPrev
      invariant maximumPrev == -1 || exists k :: Waiting(enabled, next0, k) && k < i && prev0[k] == maximumPrev
    {
      if !enabled[i] {
        continue;
      }
      if next[i] == -1 {
        next[i] := now;
        continue;
      }
      assert Waiting(enabled, next0, i);
      if prev[i] > maximumPrev {
        maximumPrev := prev[i];
      }
      if minimum == -1 || next[i] < minimumNext {
        minimum, minimumNext := i, next[i];
      }
    }
  }

  /**
   * The two loops of `OnNewInfo`: a request goes out for every protocol that is due, and for
   * the one due first also before its time, but not within a second of an earlier request.
   */
  method SendNewInfo(enabled: seq<bool>, prev: array<int>, next: array<int>, now: int, freq: int) returns (sent: seq<bool>)
    requires prev.Length == next.Length == |enabled| && prev != next && now >= 0
    modifies prev, next
    ensures |sent| == |enabled|
    ensures forall i :: 0 <= i < |sent| ==>
      (sent[i] <==> SendsNow(enabled, old(prev[..]), old(next[..]), now, freq, i))
    ensures forall i :: 0 <= i < |sent| ==> prev[i] == if sent[i] then now else old(prev[i])
    ensures forall i :: 0 <= i < |sent| && sent[i] ==> next[i] == now + 15 * freq
    ensures forall i :: 0 <= i < |sent| && !sent[i] ==> Kept(enabled, old(prev[..]), old(next[..]), now, freq, i, next[i])
  {
    hide DueFirst, SecondPassed;
    ghost var prev0, next0 := prev[..], next[..];
    var maximumPrev, minimum := ScanTimers(enabled, prev, next, now);
    ghost var next1 := next[..];
    sent := [];
    for i := 0 to |enabled|
      invariant |sent| == i
      invariant forall k :: 0 <= k < i ==> (sent[k] <==> SendsNow(enabled, prev0, next0, now, freq, k))
      invariant forall k :: 0 <= k < |enabled| ==> prev[k] == if k < i && sent[k] then now else prev0[k]
      invariant forall k :: i <= k < |enabled| ==> next[k] == next1[k]
      invariant forall k :: 0 <= k < i && sent[k] ==> next[k] == now + 15 * freq
      invariant forall k :: 0 <= k < i && !sent[k] ==> Kept(enabled, prev0, next0, now, freq, k, next[k])
    {
      if !enabled[i] {
        sent := sent + [false];
        continue;
      }
      if i == minimum {
        next[i] := if maximumPrev + freq < next[i] then maximumPrev + freq else next[i];
      }
      var due := now >= next[i];
      assert due <==> SendsNow(enabled, prev0, next0, now, freq, i);
      if due {
        prev[i] := now;
        next[i] := now + 15 * freq;
      }
      sent := sent + [due];
    }
  }

  /** At most one protocol sends before its time, and only a second after any other request. */
  lemma AtMostOncePerSecond(enabled: seq<bool>, prev: seq<int>, next: seq<int>, now: int, freq: int, i: int, j: int)
    requires |next| == |prev| == |enabled| && 0 <= i < |enabled| && 0 <= j < |enabled|
    requires SendsNow(enabled, prev, next, now, freq, i) && next[i] > now && next[i] != -1
    ensures SecondPassed(enabled, prev, next, now, freq)
    ensures SendsNow(enabled, prev, next, now, freq, j) ==> i == j || next[j] == -1
  {
    if SendsNow(enabled, prev, next, now, freq, j) && next[j] != -1 {
      assert Waiting(enabled, next, j);
    }
  }
}

/**
 * Every interleaving of the main thread with request jobs whose replies arrive out of order,
 * late, or never. A job's two locked sections, and the two of `SendRegister`, are separate
 * steps.
 */
module RegisterRuns {
  import opened RegisterShared

  const NUM_PROTOCOLS: nat := 4

  datatype Phase = InFlight | Owes(status: Status) | Finished

  /** A request and the job that waits for its reply. `seen` verdicts preceded its decision. */
  datatype Job = Job(p: nat, index: int, serial: int, omits: bool, body: string, seen: nat, phase: Phase)

  /** The main thread is outside `SendRegister`, or between its two locked sections. */
  datatype Main = Free | Building(p: nat, serial: int, omits: bool, seen: nat)

  /** What has happened to a protocol's shared fields. */
  datatype Change = Reply(p: nat, index: int, status: Status) | Deleted(p: nat)

  /** An OK or NEEDINFO that has reached the shared serial. */
  datatype Verdict = Verdict(job: nat, serial: int, status: Status)

  datatype State = State(
    info: Info,
    infos: seq<string>,          // the texts, by serial
    protocols: seq<Replies>,
    main: Main,
    jobs: seq<Job>,
    changes: seq<Change>,
    verdicts: seq<Verdict>
  )

  datatype Step =
    | NewInfo(text: string)
    | Decide(p: nat)
    | Send
    | Delete(p: nat)
    | Answer(job: nat, status: Status)
    | Judge(job: nat)
    | Lose(job: nat)

  function Init(): State {
    State(Info(-1, -1), [], [Replies(0, NONE, -1), Replies(0, NONE, -1), Replies(0, NONE, -1), Replies(0, NONE, -1)],
          Free, [], [], [])
  }

  predicate Enabled(s: State, e: Step) {
    match e
    case NewInfo(_) => s.main == Free
    case Decide(p) => s.main == Free && p < |s.protocols|
    case Send => s.main.Building? && s.main.p < |s.protocols|
    case Delete(p) => s.main == Free && p < |s.protocols|
    case Answer(j, status) =>
      j < |s.jobs| && s.jobs[j].phase == InFlight && status != NONE && s.jobs[j].p < |s.protocols|
    case Judge(j) => j < |s.jobs| && s.jobs[j].phase.Owes?
    case Lose(j) => j < |s.jobs| && s.jobs[j].phase == InFlight
  }

  /** `m_aServerInfo`. */
  function CurrentText(s: State): string {
    if s.infos == [] then "" else s.infos[|s.infos| - 1]
  }

  function Moved(s: State, j: nat, phase: Phase): State
    requires j < |s.jobs|
  {
    s.(jobs := s.jobs[j := s.jobs[j].(phase := phase)])
  }

  function Apply(s: State, e: Step): State
    requires Enabled(s, e)
  {
    match e
    case NewInfo(text) =>
      if s.infos != [] && CurrentText(s) == text then s
      else s.(info := s.info.(serial := s.info.serial + 1), infos := s.infos + [text])
    case Decide(p) =>
      s.(main := Building(p, s.info.serial, !(s.info.serial > s.info.latest), |s.verdicts|))
    case Send =>
      var (p, m) := (s.main.p, s.main);
      var r := s.protocols[p];
      s.(main := Free,
         protocols := s.protocols[p := r.(numTotal := r.numTotal + 1)],
         jobs := s.jobs + [Job(p, r.numTotal, m.serial, m.omits, if m.omits then "" else CurrentText(s), m.seen, InFlight)])
    case Delete(p) =>
      s.(protocols := s.protocols[p := s.protocols[p].(status := NONE)], changes := s.changes + [Deleted(p)])
    case Answer(j, status) =>
      var job := s.jobs[j];
      Moved(s, j, if status == NEEDCHALLENGE then Finished else Owes(status)).(
        protocols := s.protocols[job.p := Answered(s.protocols[job.p], job.index, status)],
        changes := s.changes + [Reply(job.p, job.index, status)])
    case Judge(j) =>
      var (job, status) := (s.jobs[j], s.jobs[j].phase.status);
      Moved(s, j, Finished).(
        info := Judged(s.info, job.serial, status),
        verdicts := s.verdicts + [Verdict(j, job.serial, status)])
    case Lose(j) => Moved(s, j, Finished)
  }

  ghost predicate Reaches(s: State, run: seq<Step>, s': State)
    decreases |run|
  {
    if run == [] then s == s'
    else Enabled(s, run[0]) && Reaches(Apply(s, run[0]), run[1..], s')
  }

  // ----- the newest reply is the one that is kept

  /** A delete request has been made after the `k`-th change. */
  ghost predicate DeletedAfter(changes: seq<Change>, k: nat, p: nat) {
    exists d :: k < d < |changes| && changes[d] == Deleted(p)
  }

  /**
   * The stored index is the largest of all requests answered so far. The stored status is
   * that reply's, unless a delete came after it.
   */
  ghost predicate NewestKept(changes: seq<Change>, p: nat, r: Replies) {
    && (forall k :: 0 <= k < |changes| && changes[k].Reply? && changes[k].p == p ==> 0 <= changes[k].index <= r.index)
    && if r.index == -1 then r.status == NONE
       else exists k :: IsNewest(changes, p, r, k)
  }

  ghost predicate IsNewest(changes: seq<Change>, p: nat, r: Replies, k: int) {
    && 0 <= k < |changes| && changes[k].Reply? && changes[k].p == p && changes[k].index == r.index
    && r.status == if DeletedAfter(changes, k, p) then NONE else changes[k].status
  }

  lemma OtherChange(changes: seq<Change>, c: Change, p: nat, r: Replies)
    requires NewestKept(changes, p, r)
    requires c.Deleted? ==> c.p != p
    requires c.Reply? && c.p == p ==> 0 <= c.index <= r.index
    ensures NewestKept(changes + [c], p, r)
  {
    var after := changes + [c];
    if r.index != -1 {
      var k :| IsNewest(changes, p, r, k);
      assert after[k] == changes[k];
      if DeletedAfter(changes, k, p) {
        var d :| k < d < |changes| && changes[d] == Deleted(p);
        assert after[d] == Deleted(p);
      }
      assert IsNewest(after, p, r, k);
    }
  }

  lemma NewerReply(changes: seq<Change>, p: nat, r: Replies, index: int, status: Status)
    requires NewestKept(changes, p, r) && index > r.index >= -1
    ensures NewestKept(changes + [Reply(p, index, status)], p, r.(index := index, status := status))
  {
    var after := changes + [Reply(p, index, status)];
    assert after[|changes|] == Reply(p, index, status);
    assert IsNewest(after, p, r.(index := index, status := status), |changes|);
  }

  lemma DeletedNow(changes: seq<Change>, p: nat, r: Replies)
    requires NewestKept(changes, p, r)
    ensures NewestKept(changes + [Deleted(p)], p, r.(status := NONE))
  {
    var after := changes + [Deleted(p)];
    if r.index != -1 {
      var k :| IsNewest(changes, p, r, k);
      assert after[k] == changes[k] && after[|changes|] == Deleted(p);
      assert DeletedAfter(after, k, p);
      assert IsNewest(after, p, r.(status := NONE), k);
    }
  }

  ghost predicate RepliesInv(s: State) {
    forall p :: 0 <= p < |s.protocols| ==>
      -1 <= s.protocols[p].index < s.protocols[p].numTotal && NewestKept(s.changes, p, s.protocols[p])
  }

  lemma RepliesStep(s: State, e: Step)
    requires Enabled(s, e) && Shape(s) && JobsInv(s) && RepliesInv(s)
    ensures RepliesInv(Apply(s, e))
  {
    hide NewestKept;
    var t := Apply(s, e);
    forall p | 0 <= p < |t.protocols|
      ensures -1 <= t.protocols[p].index < t.protocols[p].numTotal && NewestKept(t.changes, p, t.protocols[p])
    {
      var r := s.protocols[p];
      match e
      case Send =>
        NumTotalAside(s.changes, p, r, t.protocols[p]);
      case Delete(q) =>
        if p == q { DeletedNow(s.changes, p, r); } else { OtherChange(s.changes, Deleted(q), p, r); }
      case Answer(j, status) =>
        var job := s.jobs[j];
        if p == job.p && job.index > r.index {
          NewerReply(s.changes, p, r, job.index, status);
        } else {
          OtherChange(s.changes, Reply(job.p, job.index, status), p, r);
        }
      case _ =>
    }
  }

  lemma NumTotalAside(changes: seq<Change>, p: nat, r: Replies, r': Replies)
    requires NewestKept(changes, p, r) && r'.index == r.index && r'.status == r.status
    ensures NewestKept(changes, p, r')
  {
    if r.index != -1 {
      var k :| IsNewest(changes, p, r, k);
      assert IsNewest(changes, p, r', k);
    }
  }

  // ----- the jobs

  ghost predicate Shape(s: State) {
    && |s.protocols| == NUM_PROTOCOLS
    && |s.infos| == s.info.serial + 1
    && s.info.latest <= s.info.serial
    && (s.main.Building? ==> s.main.p < NUM_PROTOCOLS && s.main.serial == s.info.serial && s.main.seen <= |s.verdicts|)
  }

  ghost predicate JobOk(s: State, job: Job) {
    && job.p < |s.protocols| && 0 <= job.index < s.protocols[job.p].numTotal
    && job.serial <= s.info.serial && job.seen <= |s.verdicts|
    && (!job.omits && job.serial >= 0 ==> job.serial < |s.infos| && job.body == s.infos[job.serial])
    && (job.phase.Owes? ==> job.phase.status == OK || job.phase.status == NEEDINFO)
  }

  ghost predicate JobsInv(s: State) {
    forall j :: 0 <= j < |s.jobs| ==> JobOk(s, s.jobs[j])
  }

  lemma JobsStep(s: State, e: Step)
    requires Enabled(s, e) && Shape(s) && JobsInv(s)
    ensures Shape(Apply(s, e)) && JobsInv(Apply(s, e))
  {
    var t := Apply(s, e);
    if e.Judge? { assert JobOk(s, s.jobs[e.job]); }
    if e.Answer? { assert JobOk(s, s.jobs[e.job]); }
    if e.Lose? { assert JobOk(s, s.jobs[e.job]); }
    forall j | 0 <= j < |t.jobs|
      ensures JobOk(t, t.jobs[j])
    {
      if j < |s.jobs| { assert JobOk(s, s.jobs[j]); }
    }
  }

  // ----- when a request omits the info

  /** The status of the last verdict on the serial; NONE if there is none. */
  function LastVerdict(vs: seq<Verdict>, serial: int): Status
    decreases |vs|
  {
    if vs == [] then NONE
    else if vs[|vs| - 1].serial == serial then vs[|vs| - 1].status
    else LastVerdict(vs[..|vs| - 1], serial)
  }

  /** The decision on a non-negative serial follows the last verdict on it. */
  ghost predicate Decided(vs: seq<Verdict>, serial: int, omits: bool, seen: nat)
    requires seen <= |vs|
  {
    serial >= 0 ==> (omits <==> LastVerdict(vs[..seen], serial) == OK)
  }

  ghost predicate VerdictOk(s: State, k: nat)
    requires k < |s.verdicts|
  {
    var v := s.verdicts[k];
    && v.job < |s.jobs| && s.jobs[v.job].serial == v.serial <= s.info.serial
    && s.jobs[v.job].seen <= k
    && (v.status == OK || v.status == NEEDINFO)
  }

  ghost predicate VerdictsInv(s: State) {
    && (forall k :: 0 <= k < |s.verdicts| ==> VerdictOk(s, k))
    && (s.info.serial >= 0 ==> (s.info.latest == s.info.serial <==> LastVerdict(s.verdicts, s.info.serial) == OK))
    && (s.main.Building? && s.main.seen <= |s.verdicts| ==>
          Decided(s.verdicts, s.main.serial, s.main.omits, s.main.seen))
    && (forall j :: 0 <= j < |s.jobs| && s.jobs[j].seen <= |s.verdicts| ==>
          Decided(s.verdicts, s.jobs[j].serial, s.jobs[j].omits, s.jobs[j].seen))
  }

  lemma {:induction false} NoVerdict(vs: seq<Verdict>, serial: int)
    requires forall k :: 0 <= k < |vs| ==> vs[k].serial < serial
    ensures LastVerdict(vs, serial) == NONE
    decreases |vs|
  {
    if vs != [] { NoVerdict(vs[..|vs| - 1], serial); }
  }

  lemma DecidedStays(vs: seq<Verdict>, v: Verdict, serial: int, omits: bool, seen: nat)
    requires seen <= |vs| && Decided(vs, serial, omits, seen)
    ensures Decided(vs + [v], serial, omits, seen)
  {
    assert (vs + [v])[..seen] == vs[..seen];
  }

  lemma VerdictsStep(s: State, e: Step)
    requires Enabled(s, e) && Shape(s) && JobsInv(s) && VerdictsInv(s)
    ensures VerdictsInv(Apply(s, e))
  {
    hide Decided, LastVerdict;
    var t := Apply(s, e);
    VerdictsOkStep(s, e);
    match e
    case NewInfo(_) =>
      assert forall k :: 0 <= k < |s.verdicts| && VerdictOk(s, k) ==> s.verdicts[k].serial <= s.info.serial;
      if t != s { NoVerdict(s.verdicts, t.info.serial); }
    case Decide(_) =>
      DecidedNow(s);
    case Judge(j) =>
      assert JobOk(s, s.jobs[j]);
      JudgedNow(s, Verdict(j, s.jobs[j].serial, s.jobs[j].phase.status));
      forall i | 0 <= i < |t.jobs| && t.jobs[i].seen <= |t.verdicts|
        ensures Decided(t.verdicts, t.jobs[i].serial, t.jobs[i].omits, t.jobs[i].seen)
      {
        assert JobOk(s, s.jobs[i]);
        DecidedStays(s.verdicts, t.verdicts[|s.verdicts|], t.jobs[i].serial, t.jobs[i].omits, t.jobs[i].seen);
      }
      if s.main.Building? {
        DecidedStays(s.verdicts, t.verdicts[|s.verdicts|], s.main.serial, s.main.omits, s.main.seen);
      }
    case _ =>
  }

  lemma VerdictsOkStep(s: State, e: Step)
    requires Enabled(s, e) && Shape(s) && JobsInv(s) && VerdictsInv(s)
    ensures forall k :: 0 <= k < |Apply(s, e).verdicts| ==> VerdictOk(Apply(s, e), k)
  {
    hide Decided, LastVerdict;
    var t := Apply(s, e);
    if e.Judge? { assert JobOk(s, s.jobs[e.job]); }
    forall k | 0 <= k < |t.verdicts|
      ensures VerdictOk(t, k)
    {
      if k < |s.verdicts| { assert VerdictOk(s, k); }
    }
  }

  lemma DecidedNow(s: State)
    requires Shape(s) && VerdictsInv(s)
    ensures Decided(s.verdicts, s.info.serial, !(s.info.serial > s.info.latest), |s.verdicts|)
  {
    assert s.verdicts[..|s.verdicts|] == s.verdicts;
  }

  /** The successful serial is the current one exactly if its last verdict is OK. */
  lemma JudgedNow(s: State, v: Verdict)
    requires Shape(s) && VerdictsInv(s) && v.serial <= s.info.serial && (v.status == OK || v.status == NEEDINFO)
    ensures var g := Judged(s.info, v.serial, v.status);
            s.info.serial >= 0 ==> (g.latest == s.info.serial <==> LastVerdict(s.verdicts + [v], s.info.serial) == OK)
  {
    var vs := s.verdicts + [v];
    assert vs[..|vs| - 1] == s.verdicts;
  }

  // ----- every run

  ghost predicate Inv(s: State) {
    Shape(s) && JobsInv(s) && RepliesInv(s) && VerdictsInv(s)
  }

  lemma {:induction false} RunKeepsInv(s: State, run: seq<Step>, s': State)
    requires Inv(s) && Reaches(s, run, s')
    ensures Inv(s')
    decreases |run|
  {
    hide Shape, JobsInv, RepliesInv, VerdictsInv, Apply;
    if run != [] {
      JobsStep(s, run[0]);
      RepliesStep(s, run[0]);
      VerdictsStep(s, run[0]);
      RunKeepsInv(Apply(s, run[0]), run[1..], s');
    }
  }

  lemma EveryRun(run: seq<Step>, s: State)
    requires Reaches(Init(), run, s)
    ensures Inv(s)
  {
    RunKeepsInv(Init(), run, s);
  }

  /** In every interleaving, each protocol keeps the newest reply so far. */
  lemma NewestReplyWins(run: seq<Step>, s: State, p: nat)
    requires Reaches(Init(), run, s) && p < NUM_PROTOCOLS
    ensures |s.protocols| == NUM_PROTOCOLS && NewestKept(s.changes, p, s.protocols[p])
    ensures s.info.latest <= s.info.serial
  {
    EveryRun(run, s);
  }

  /** Outside `SendRegister`, the main thread can do anything to any protocol; inside, it can go on. */
  lemma MainNotStuck(run: seq<Step>, s: State, p: nat, text: string)
    requires Reaches(Init(), run, s) && p < NUM_PROTOCOLS
    ensures s.main == Free ==> Enabled(s, NewInfo(text)) && Enabled(s, Decide(p)) && Enabled(s, Delete(p))
    ensures s.main != Free ==> Enabled(s, Send) && !Enabled(s, NewInfo(text)) && !Enabled(s, Decide(p)) && !Enabled(s, Delete(p))
  {
    EveryRun(run, s);
  }

  /** A job whose request is on its way can get any reply, once, or none. */
  lemma JobNotStuck(run: seq<Step>, s: State, j: nat, status: Status)
    requires Reaches(Init(), run, s) && j < |s.jobs| && status != NONE
    ensures Enabled(s, Answer(j, status)) <==> s.jobs[j].phase == InFlight
    ensures Enabled(s, Lose(j)) <==> s.jobs[j].phase == InFlight
    ensures Enabled(s, Judge(j)) <==> s.jobs[j].phase == Owes(OK) || s.jobs[j].phase == Owes(NEEDINFO)
  {
    EveryRun(run, s);
    assert JobOk(s, s.jobs[j]);
  }

  /** The texts that the game has given in a run, in order. */
  function Texts(run: seq<Step>): seq<string>
    decreases |run|
  {
    if run == [] then []
    else
      var last := run[|run| - 1];
      Texts(run[..|run| - 1]) + if last.NewInfo? then [last.text] else []
  }

  /** Without those that are the same as the one before. */
  function WithoutRepeats(ts: seq<string>): (r: seq<string>)
    ensures ts != [] ==> r != [] && r[|r| - 1] == ts[|ts| - 1]
    ensures ts == [] ==> r == []
    decreases |ts|
  {
    if ts == [] then []
    else
      var front, last := ts[..|ts| - 1], ts[|ts| - 1];
      WithoutRepeats(front) + if front != [] && front[|front| - 1] == last then [] else [last]
  }

  lemma {:induction false} ReachesFront(s: State, run: seq<Step>, s': State) returns (t: State)
    requires run != [] && Reaches(s, run, s')
    ensures Reaches(s, run[..|run| - 1], t) && Enabled(t, run[|run| - 1]) && s' == Apply(t, run[|run| - 1])
    decreases |run|
  {
    hide Apply, Enabled;
    if |run| == 1 {
      t := s;
    } else {
      t := ReachesFront(Apply(s, run[0]), run[1..], s');
      assert run[..|run| - 1][1..] == run[1..][..|run| - 2];
    }
  }

  /** The serial counts the changes of the text, and names the text given last. */
  lemma {:induction false} SerialCountsChanges(run: seq<Step>, s: State)
    requires Reaches(Init(), run, s)
    ensures s.infos == WithoutRepeats(Texts(run)) && s.info.serial == |s.infos| - 1
    ensures Texts(run) != [] ==> CurrentText(s) == Texts(run)[|Texts(run)| - 1]
    decreases |run|
  {
    hide Reaches;
    if run == [] {
      Nowhere(Init(), s);
    } else {
      var front, last := run[..|run| - 1], run[|run| - 1];
      var t := ReachesFront(Init(), run, s);
      SerialCountsChanges(front, t);
      if last.NewInfo? {
        assert Texts(run)[..|Texts(front)|] == Texts(front);
      } else {
        assert Texts(run) == Texts(front);
      }
    }
  }

  lemma Nowhere(s: State, s': State)
    requires Reaches(s, [], s')
    ensures s == s'
  {
  }

  /** The `k`-th verdict says OK to a request that carried the text of its serial. */
  ghost predicate Delivered(s: State, k: nat, serial: int) {
    && k < |s.verdicts| && s.verdicts[k].status == OK && s.verdicts[k].job < |s.jobs|
    && var job := s.jobs[s.verdicts[k].job];
       job.serial == serial && !job.omits && 0 <= serial < |s.infos| && job.body == s.infos[serial]
  }

  lemma {:induction false} LastIsThere(vs: seq<Verdict>, serial: int) returns (k: nat)
    requires LastVerdict(vs, serial) == OK
    ensures k < |vs| && vs[k] == Verdict(vs[k].job, serial, OK)
    decreases |vs|
  {
    k := |vs| - 1;
    if vs[k].serial != serial { k := LastIsThere(vs[..k], serial); }
  }

  /** Going back from an OK to the one its request relied on ends at a request with the info. */
  lemma {:induction false} SomeDelivered(s: State, seen: nat, serial: int) returns (k: nat)
    requires Inv(s) && serial >= 0 && seen <= |s.verdicts| && LastVerdict(s.verdicts[..seen], serial) == OK
    ensures k < seen && Delivered(s, k, serial)
    decreases seen
  {
    hide LastVerdict, RepliesInv;
    k := LastIsThere(s.verdicts[..seen], serial);
    assert VerdictOk(s, k);
    var job := s.jobs[s.verdicts[k].job];
    assert JobOk(s, job);
    if job.omits {
      assert Decided(s.verdicts, job.serial, job.omits, job.seen);
      k := SomeDelivered(s, job.seen, serial);
    }
  }

  /**
   * A request for a serial from 0 on omits the info exactly if the last OK or NEEDINFO for
   * that serial that had been processed was OK; otherwise it carries the serial's text. When
   * it omits it, an earlier request that carried the text has been answered OK.
   */
  lemma OmitsIffAccepted(run: seq<Step>, s: State, j: nat)
    requires Reaches(Init(), run, s) && j < |s.jobs| && s.jobs[j].serial >= 0
    ensures var job := s.jobs[j];
            && job.seen <= |s.verdicts|
            && (job.omits <==> LastVerdict(s.verdicts[..job.seen], job.serial) == OK)
            && (!job.omits ==> job.serial < |s.infos| && job.body == s.infos[job.serial])
            && (job.omits ==> exists k: nat :: k < job.seen && Delivered(s, k, job.serial))
  {
    hide LastVerdict, RepliesInv, Reaches;
    EveryRun(run, s);
    var job := s.jobs[j];
    assert JobOk(s, job);
    assert Decided(s.verdicts, job.serial, job.omits, job.seen);
    if job.omits {
      var k := SomeDelivered(s, job.seen, job.serial);
    }
  }

  /** Once the newest request is answered, no reply that is still to come changes anything. */
  lemma SettledStays(run: seq<Step>, s: State, p: nat, j: nat, status: Status)
    requires Reaches(Init(), run, s) && p < NUM_PROTOCOLS && Enabled(s, Answer(j, status))
    ensures |s.protocols| == NUM_PROTOCOLS
    ensures s.protocols[p].index == s.protocols[p].numTotal - 1 ==>
      Apply(s, Answer(j, status)).protocols[p] == s.protocols[p]
  {
    EveryRun(run, s);
    assert JobOk(s, s.jobs[j]);
  }

  /**
   * The two locked sections of a job let a request overtake the verdict: the master has asked
   * for the info, the newest reply says so, and yet the request sent at once omits it.
   */
  lemma ImmediateResendMayOmit() returns (run: seq<Step>, s: State)
    ensures Reaches(Init(), run, s)
    ensures |s.jobs| == 3 && s.jobs[2].serial == 0 && s.jobs[2].omits
    ensures |s.protocols| == NUM_PROTOCOLS && s.protocols[0] == Replies(3, NEEDINFO, 1)
  {
    run, s := [], Init();
    run, s := Then(run, s, NewInfo("a"));
    run, s := Request(run, s);
    run, s := Then(run, s, Answer(0, OK));
    run, s := Then(run, s, Judge(0));
    run, s := Request(run, s);
    run, s := Then(run, s, Answer(1, NEEDINFO));
    run, s := Request(run, s);
  }

  lemma Then(run: seq<Step>, s: State, e: Step) returns (run': seq<Step>, s': State)
    requires Reaches(Init(), run, s) && Enabled(s, e)
    ensures Reaches(Init(), run', s') && s' == Apply(s, e)
  {
    run', s' := run + [e], Apply(s, e);
    Extend(Init(), run, s, e);
  }

  lemma Request(run: seq<Step>, s: State) returns (run': seq<Step>, s': State)
    requires Reaches(Init(), run, s) && Enabled(s, Decide(0))
    ensures Reaches(Init(), run', s') && s' == Apply(Apply(s, Decide(0)), Send)
  {
    hide Reaches;
    run', s' := Then(run, s, Decide(0));
    run', s' := Then(run', s', Send);
  }

  lemma {:induction false} Extend(s: State, run: seq<Step>, s': State, e: Step)
    requires Reaches(s, run, s') && Enabled(s', e)
    ensures Reaches(s, run + [e], Apply(s', e))
    decreases |run|
  {
    hide Enabled, Apply;
    if run == [] {
      assert (run + [e])[1..] == [];
    } else {
      assert (run + [e])[1..] == run[1..] + [e];
      Extend(Apply(s, run[0]), run[1..], s', e);
    }
  }
}
