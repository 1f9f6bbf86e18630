/**
 * `CSnapIDPool`: the free stack and the quarantine queue threaded through one array of
 * entries, with counters, proved against `SnapIdSpec`.
 */
module SnapIdPool {
  import opened Ranges
  import opened SnapIdSpec

  datatype IdState = FREE | ALLOCATED | TIMED

  datatype CID = CID(next: int, state: IdState, timeout: int)

  // ----- what the entries represent

  /** Following the links from `first` visits the ids of `s`, all in state `st`, and ends at -1. */
  ghost predicate Chain(ids: seq<CID>, s: seq<int>, first: int, st: IdState)
    decreases |s|
  {
    if s == [] then first == -1
    else
      && first == s[0] && 0 <= first < |ids| && ids[first].state == st
      && first !in s[1..]
      && Chain(ids, s[1..], ids[first].next, st)
  }

  /** The quarantined ids with their timeouts. */
  function Quarantine(ids: seq<CID>, s: seq<int>): (q: seq<Quarantined>)
    ensures |q| == |s|
    decreases |s|
  {
    if s == [] then []
    else [Quarantined(s[0], if 0 <= s[0] < |ids| then ids[s[0]].timeout else 0)] + Quarantine(ids, s[1..])
  }

  ghost function Used(ids: seq<CID>): set<int> {
    set i | i in Below(|ids|) && ids[i].state == ALLOCATED
  }

  ghost function Meaning(ids: seq<CID>, free: seq<int>, timed: seq<int>): SnapIdSpec.Pool {
    SnapIdSpec.Pool(free, Quarantine(ids, timed), Used(ids))
  }

  lemma {:induction false} QuarantineIds(ids: seq<CID>, s: seq<int>)
    ensures Ids(Quarantine(ids, s)) == s
  {
    if s != [] { QuarantineIds(ids, s[1..]); }
  }

  lemma {:induction false} QuarantineAppend(ids: seq<CID>, s: seq<int>, id: int)
    requires 0 <= id < |ids|
    ensures Quarantine(ids, s + [id]) == Quarantine(ids, s) + [Quarantined(id, ids[id].timeout)]
  {
    if s != [] {
      QuarantineAppend(ids, s[1..], id);
      assert (s + [id])[1..] == s[1..] + [id];
    }
  }

  lemma {:induction false} QuarantineFrame(ids: seq<CID>, s: seq<int>, id: int, e: CID)
    requires 0 <= id < |ids| && (id !in s || e.timeout == ids[id].timeout)
    ensures Quarantine(ids[id := e], s) == Quarantine(ids, s)
  {
    if s != [] { QuarantineFrame(ids, s[1..], id, e); }
  }

  /** The links that `Reset` sets up. */
  lemma {:induction false} ChainFrom(ids: seq<CID>, s: seq<int>, k: nat)
    requires |s| == |ids| && k <= |s| && forall i :: 0 <= i < |s| ==> s[i] == i
    requires forall i :: 0 <= i < |s| ==> ids[i].state == FREE && ids[i].next == if i + 1 < |s| then i + 1 else -1
    ensures Chain(ids, s[k..], if k < |s| then k else -1, FREE)
    decreases |s| - k
  {
    if k < |s| {
      ChainFrom(ids, s, k + 1);
      assert s[k..][1..] == s[k + 1..];
    }
  }

  /** An id in another state is not on the chain. */
  lemma {:induction false} NotOnChain(ids: seq<CID>, s: seq<int>, first: int, st: IdState, id: int)
    requires Chain(ids, s, first, st) && 0 <= id < |ids| && ids[id].state != st
    ensures id !in s
  {
    if s != [] { NotOnChain(ids, s[1..], ids[first].next, st, id); }
  }

  lemma {:induction false} ChainFrame(ids: seq<CID>, s: seq<int>, first: int, st: IdState, id: int, e: CID)
    requires Chain(ids, s, first, st) && 0 <= id < |ids| && id !in s
    ensures Chain(ids[id := e], s, first, st)
  {
    if s != [] { ChainFrame(ids, s[1..], ids[first].next, st, id, e); }
  }

  lemma ChainPush(ids: seq<CID>, s: seq<int>, first: int, id: int, e: CID)
    requires Chain(ids, s, first, FREE) && 0 <= id < |ids| && ids[id].state != FREE
    requires e.next == first && e.state == FREE
    ensures Chain(ids[id := e], [id] + s, id, FREE)
  {
    NotOnChain(ids, s, first, FREE, id);
    ChainFrame(ids, s, first, FREE, id, e);
    assert ([id] + s)[1..] == s;
  }

  lemma {:induction false} LastOnChain(ids: seq<CID>, s: seq<int>, first: int, st: IdState)
    requires Chain(ids, s, first, st) && s != []
    ensures 0 <= s[|s| - 1] < |ids| && ids[s[|s| - 1]].state == st
  {
    if |s| > 1 { LastOnChain(ids, s[1..], ids[first].next, st); }
  }

  lemma {:induction false} ChainAppend(ids: seq<CID>, s: seq<int>, first: int, id: int, e: CID)
    requires Chain(ids, s, first, TIMED) && s != [] && 0 <= id < |ids| && ids[id].state != TIMED
    requires e.next == -1 && e.state == TIMED
    ensures var last := s[|s| - 1];
            && 0 <= last < |ids| && last != id
            && Chain(ids[id := e][last := ids[last].(next := id)], s + [id], first, TIMED)
  {
    LastOnChain(ids, s, first, TIMED);
    NotOnChain(ids, s, first, TIMED, id);
    var last := s[|s| - 1];
    var ids' := ids[id := e][last := ids[last].(next := id)];
    assert (s + [id])[1..] == s[1..] + [id];
    if |s| > 1 {
      assert s[1..][|s| - 2] == last;
      ChainAppend(ids, s[1..], ids[first].next, id, e);
      assert first != last && first != id;
      assert ids'[first] == ids[first];
    } else {
      assert Chain(ids', [id], id, TIMED);
    }
  }

  // ----- the pool's fields, and what each operation makes of them

  datatype Table = Table(ids: seq<CID>, firstFree: int, firstTimed: int, lastTimed: int,
                         usage: int, inUsage: int)

  /** The entries, the ends of the chains and the counters agree with the two chains. */
  ghost predicate Rep(t: Table, free: seq<int>, timed: seq<int>) {
    match t
    case Table(ids, firstFree, firstTimed, lastTimed, usage, inUsage) =>
      && |ids| == MAX_IDS
      && Chain(ids, free, firstFree, FREE)
      && Chain(ids, timed, firstTimed, TIMED)
      && lastTimed == (if timed == [] then -1 else timed[|timed| - 1])
      && usage == MAX_IDS - |free|
      && inUsage == MAX_IDS - |free| - |timed|
      && WellFormed(Meaning(ids, free, timed))
  }

  ghost function Released(t: Table): Table
    requires 0 <= t.firstTimed < |t.ids|
  {
    var next := t.ids[t.firstTimed].next;
    t.(ids := t.ids[t.firstTimed := t.ids[t.firstTimed].(next := t.firstFree, state := FREE)],
       firstFree := t.firstTimed,
       firstTimed := next,
       lastTimed := if next == -1 then -1 else t.lastTimed,
       usage := t.usage - 1)
  }

  lemma ReleasingChains(t: Table, free: seq<int>, timed: seq<int>)
    requires Rep(t, free, timed) && t.firstTimed != -1
    ensures timed != [] && t.firstTimed == timed[0] && 0 <= t.firstTimed < |t.ids|
    ensures var t' := Released(t);
            && Chain(t'.ids, [timed[0]] + free, t'.firstFree, FREE)
            && Chain(t'.ids, timed[1..], t'.firstTimed, TIMED)
            && Quarantine(t'.ids, timed[1..]) == Quarantine(t.ids, timed[1..])
  {
    var ids, first := t.ids, t.firstTimed;
    var e := Released(t).ids[first];
    ChainPush(ids, free, t.firstFree, first, e);
    ChainFrame(ids, timed[1..], ids[first].next, TIMED, first, e);
    QuarantineFrame(ids, timed[1..], first, e);
  }

  /** Changing an id that is not in use to another such state. */
  lemma UsedFrame(ids: seq<CID>, id: int, e: CID)
    requires 0 <= id < |ids| && ids[id].state != ALLOCATED && e.state != ALLOCATED
    ensures Used(ids[id := e]) == Used(ids)
  {
  }

  lemma Releasing(t: Table, free: seq<int>, timed: seq<int>)
    requires Rep(t, free, timed) && t.firstTimed != -1
    ensures timed != [] && t.firstTimed == timed[0] && 0 <= t.firstTimed < |t.ids|
    ensures Rep(Released(t), [timed[0]] + free, timed[1..])
    ensures Meaning(Released(t).ids, [timed[0]] + free, timed[1..]) == ReleaseOldest(Meaning(t.ids, free, timed))
  {
    ReleasingChains(t, free, timed);
    UsedFrame(t.ids, t.firstTimed, Released(t).ids[t.firstTimed]);
    ReleaseOldestKeeps(Meaning(t.ids, free, timed));
    assert Chain(Released(t).ids, timed[1..], Released(t).firstTimed, TIMED);
    assert Released(t).firstTimed == -1 <==> timed[1..] == [];
  }

  ghost function Taken(t: Table): Table
    requires 0 <= t.firstFree < |t.ids|
  {
    t.(ids := t.ids[t.firstFree := t.ids[t.firstFree].(state := ALLOCATED)],
       firstFree := t.ids[t.firstFree].next,
       usage := t.usage + 1,
       inUsage := t.inUsage + 1)
  }

  lemma Taking(t: Table, free: seq<int>, timed: seq<int>, now: int)
    requires Rep(t, free, timed) && t.firstFree != -1
    requires ReleaseExpired(Meaning(t.ids, free, timed), now) == Meaning(t.ids, free, timed)
    ensures free != [] && t.firstFree == free[0] && 0 <= t.firstFree < |t.ids|
    ensures Rep(Taken(t), free[1..], timed)
    ensures (Meaning(Taken(t).ids, free[1..], timed), t.firstFree) == New(Meaning(t.ids, free, timed), now)
  {
    var ids, ids', first := t.ids, Taken(t).ids, t.firstFree;
    var e := ids'[first];
    NotOnChain(ids, timed, t.firstTimed, TIMED, first);
    ChainFrame(ids, free[1..], ids[first].next, FREE, first, e);
    ChainFrame(ids, timed, t.firstTimed, TIMED, first, e);
    QuarantineFrame(ids, timed, first, e);
    assert Used(ids') == Used(ids) + {first};
    NewKeeps(Meaning(ids, free, timed), now);
  }

  ghost function Freed(t: Table, id: int, timeout: int): Table
    requires 0 <= id < |t.ids| && t.lastTimed < |t.ids|
  {
    var entered := t.ids[id := CID(-1, TIMED, timeout)];
    if t.lastTimed < 0 then t.(ids := entered, firstTimed := id, lastTimed := id, inUsage := t.inUsage - 1)
    else
      t.(ids := entered[t.lastTimed := entered[t.lastTimed].(next := id)],
         lastTimed := id, inUsage := t.inUsage - 1)
  }

  lemma FreeingChains(t: Table, free: seq<int>, timed: seq<int>, id: int, timeout: int)
    requires Rep(t, free, timed) && 0 <= id < MAX_IDS && t.ids[id].state == ALLOCATED
    ensures -1 <= t.lastTimed < MAX_IDS
    ensures var t' := Freed(t, id, timeout);
            && Chain(t'.ids, free, t'.firstFree, FREE)
            && Chain(t'.ids, timed + [id], t'.firstTimed, TIMED)
  {
    var e := CID(-1, TIMED, timeout);
    var entered := t.ids[id := e];
    NotOnChain(t.ids, free, t.firstFree, FREE, id);
    ChainFrame(t.ids, free, t.firstFree, FREE, id, e);
    if timed != [] {
      var last := t.lastTimed;
      LastOnChain(t.ids, timed, t.firstTimed, TIMED);
      NotOnChain(t.ids, free, t.firstFree, FREE, last);
      ChainAppend(t.ids, timed, t.firstTimed, id, e);
      ChainFrame(entered, free, t.firstFree, FREE, last, entered[last].(next := id));
    }
  }

  lemma FreeingMeans(t: Table, free: seq<int>, timed: seq<int>, id: int, timeout: int)
    requires Rep(t, free, timed) && 0 <= id < MAX_IDS && t.ids[id].state == ALLOCATED
    ensures t.lastTimed < MAX_IDS
    ensures var ids' := Freed(t, id, timeout).ids;
            && Quarantine(ids', timed + [id]) == Quarantine(t.ids, timed) + [Quarantined(id, timeout)]
            && Used(ids') == Used(t.ids) - {id}
  {
    hide Chain, WellFormed;
    var e := CID(-1, TIMED, timeout);
    var entered := t.ids[id := e];
    NotOnChain(t.ids, timed, t.firstTimed, TIMED, id);
    QuarantineFrame(t.ids, timed, id, e);
    QuarantineAppend(entered, timed, id);
    if timed != [] {
      LastOnChain(t.ids, timed, t.firstTimed, TIMED);
      QuarantineFrame(entered, timed + [id], t.lastTimed, entered[t.lastTimed].(next := id));
    }
  }

  lemma Freeing(t: Table, free: seq<int>, timed: seq<int>, id: int, now: int, freq: int)
    requires Rep(t, free, timed) && 0 <= id < MAX_IDS && t.ids[id].state == ALLOCATED
    ensures -1 <= t.lastTimed < MAX_IDS
    ensures var t' := Freed(t, id, StoredInt(now + freq * 5));
            && Rep(t', free, timed + [id])
            && Meaning(t'.ids, free, timed + [id]) == Free(Meaning(t.ids, free, timed), id, now, freq)
  {
    var timeout := StoredInt(now + freq * 5);
    FreeingChains(t, free, timed, id, timeout);
    FreeingMeans(t, free, timed, id, timeout);
    assert id in Used(t.ids);
    FreeKeeps(Meaning(t.ids, free, timed), id, now, freq);
  }

  lemma AllFree(t: Table)
    requires |t.ids| == MAX_IDS && t == Table(t.ids, 0, -1, -1, 0, 0)
    requires forall i :: 0 <= i < MAX_IDS ==>
      t.ids[i].state == FREE && t.ids[i].next == if i + 1 < MAX_IDS then i + 1 else -1
    ensures Rep(t, Initial().free, []) && Meaning(t.ids, Initial().free, []) == Initial()
  {
    hide WellFormed;
    var free := Initial().free;
    InitialWellFormed();
    ChainFrom(t.ids, free, 0);
    assert free[0..] == free;
    assert Used(t.ids) == {};
  }

  class Pool {
    const ids: array<CID>
    var firstFree: int
    var firstTimed: int
    var lastTimed: int
    var usage: int
    var inUsage: int

    ghost var free: seq<int>
    ghost var timed: seq<int>

    ghost function Fields(): Table
      reads this, ids
    {
      Table(ids[..], firstFree, firstTimed, lastTimed, usage, inUsage)
    }

    ghost predicate Valid()
      reads this, ids
    {
      Rep(Fields(), free, timed)
    }

    ghost function View(): SnapIdSpec.Pool
      reads this, ids
      requires Valid()
    {
      Meaning(Fields().ids, free, timed)
    }

    constructor ()
      ensures Valid() && View() == Initial() && fresh(ids)
    {
      ids := new CID[MAX_IDS];
      new;
      Reset();
    }

    method Reset()
      requires ids.Length == MAX_IDS
      modifies this, ids
      ensures Valid() && View() == Initial()
    {
      for i := 0 to MAX_IDS
        invariant forall k :: 0 <= k < i ==> ids[k].next == k + 1 && ids[k].state == FREE
      {
        ids[i] := ids[i].(next := i + 1, state := FREE);
      }
      ids[MAX_IDS - 1] := ids[MAX_IDS - 1].(next := -1);
      firstFree, firstTimed, lastTimed := 0, -1, -1;
      usage, inUsage := 0, 0;
      free, timed := Initial().free, [];
      hide Rep, Meaning;
      AllFree(Fields());
    }

    method RemoveFirstTimeout()
      requires Valid() && firstTimed != -1
      modifies this, ids
      ensures Valid() && View() == ReleaseOldest(old(View()))
    {
      Releasing(Fields(), free, timed);
      ghost var released := Released(Fields());
      var nextTimed := ids[firstTimed].next;
      ids[firstTimed] := ids[firstTimed].(next := firstFree, state := FREE);
      firstFree := firstTimed;
      firstTimed := nextTimed;
      if firstTimed == -1 {
        lastTimed := -1;
      }
      usage := usage - 1;
      free, timed := [timed[0]] + free, timed[1..];
      assert Fields() == released;
    }

    method NewID(now: int) returns (id: int)
      requires Valid()
      modifies this, ids
      ensures Valid()
      ensures (View(), id) == New(old(View()), now)
    {
      while firstTimed != -1 && ids[firstTimed].timeout < now
        invariant Valid()
        invariant ReleaseExpired(View(), now) == ReleaseExpired(old(View()), now)
        decreases |timed|
      {
        Releasing(Fields(), free, timed);
        RemoveFirstTimeout();
      }
      id := firstFree;
      if id == -1 {
        return;
      }
      TakeFirst(now);
    }

    /** The rest of `NewID`, with a free id at hand. */
    method TakeFirst(ghost now: int)
      requires Valid() && firstFree != -1 && ReleaseExpired(View(), now) == View()
      modifies this, ids
      ensures Valid()
      ensures (View(), old(firstFree)) == New(old(View()), now)
    {
      hide Rep, Meaning, New, ReleaseExpired;
      Taking(Fields(), free, timed, now);
      ghost var taken := Taken(Fields());
      var id := firstFree;
      firstFree := ids[firstFree].next;
      ids[id] := ids[id].(state := ALLOCATED);
      usage := usage + 1;
      inUsage := inUsage + 1;
      free := free[1..];
      assert Fields() == taken;
    }

    method TimeoutIDs()
      requires Valid()
      modifies this, ids
      ensures Valid() && View() == ReleaseAll(old(View()))
    {
      while firstTimed != -1
        invariant Valid() && ReleaseAll(View()) == ReleaseAll(old(View()))
        decreases |timed|
      {
        RemoveFirstTimeout();
      }
    }

    /** Both assertions of the source are preconditions here; a negative id is ignored. */
    method FreeID(id: int, now: int, freq: int)
      requires Valid()
      requires id >= 0 ==> id < MAX_IDS && ids[id].state == ALLOCATED
      modifies this, ids
      ensures Valid() && View() == Free(old(View()), id, now, freq)
    {
      if id < 0 {
        return;
      }
      assert ids.Length == MAX_IDS;
      hide Rep, Meaning, Free, StoredInt;
      Freeing(Fields(), free, timed, id, now, freq);
      ghost var freed := Freed(Fields(), id, StoredInt(now + freq * 5));
      inUsage := inUsage - 1;
      ids[id] := CID(-1, TIMED, StoredInt(now + freq * 5));
      if lastTimed != -1 {
        ids[lastTimed] := ids[lastTimed].(next := id);
        lastTimed := id;
      } else {
        firstTimed := id;
        lastTimed := id;
      }
      timed := timed + [id];
      assert Fields() == freed;
    }

    /** The counters: ids handed out, and ids handed out or in quarantine. */
    lemma Counters()
      requires Valid()
      ensures inUsage == |View().used|
      ensures usage == |View().used| + |View().timed|
    {
      Conservation(View());
    }
  }
}
