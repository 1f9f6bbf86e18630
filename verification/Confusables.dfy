/**
 * Confusable strings, after section 4 of UTS #39: the packed decomposition tables, their
 * lookup, and the streaming comparison of skeletons.
 */
module ConfusableTables {
  /** `struct DECOMP_SLICE`: the bit fields hold 13 and 3 bits. */
  datatype Slice = Slice(offset: nat, length: nat)

  datatype Tables = Tables(chars: seq<int>, slices: seq<Slice>, lengths: seq<nat>, data: seq<int>)

  predicate StrictlySorted(s: seq<int>) {
    forall i, j :: 0 <= i < j < |s| ==> s[i] < s[j]
  }

  /** The slice lies in the data and holds the decomposition `d`. */
  predicate Holds(lengths: seq<nat>, data: seq<int>, s: Slice, d: seq<int>) {
    && s.length < |lengths|
    && lengths[s.length] == |d|
    && s.offset + |d| <= |data|
    && data[s.offset..s.offset + |d|] == d
  }

  /** The keys are in order, and the tables give exactly the decompositions of the map. */
  ghost predicate Represents(t: Tables, m: map<int, seq<int>>) {
    && |t.slices| == |t.chars|
    && StrictlySorted(t.chars)
    && (forall c :: c in m ==> c in t.chars)
    && (forall i :: 0 <= i < |t.chars| ==> t.chars[i] in m && Holds(t.lengths, t.data, t.slices[i], m[t.chars[i]]))
  }

  /** `str_utf8_skeleton`: where in the data the decomposition is, or nothing. */
  datatype Found = Missing | At(offset: nat, length: nat)

  method Lookup(t: Tables, ghost m: map<int, seq<int>>, ch: int) returns (r: Found)
    requires Represents(t, m)
    ensures r.Missing? <==> ch !in m
    ensures r.At? ==> r.offset + r.length <= |t.data| && t.data[r.offset..r.offset + r.length] == m[ch]
  {
    for i := 0 to |t.chars|
      invariant forall k :: 0 <= k < i ==> t.chars[k] != ch
    {
      if ch == t.chars[i] {
        var s := t.slices[i];
        assert Holds(t.lengths, t.data, s, m[ch]);
        return At(s.offset, t.lengths[s.length]);
      } else if ch < t.chars[i] {
        return Missing;
      }
    }
    return Missing;
  }

  // ----- the generator's packing

  /** Where the `k`-th of the distinct decompositions starts in the data. */
  function OffsetOf(ds: seq<seq<int>>, k: nat): nat
    requires k <= |ds|
  {
    if k == 0 then 0 else OffsetOf(ds, k - 1) + |ds[k - 1]|
  }

  function Concat(ds: seq<seq<int>>): (s: seq<int>)
    ensures |s| == OffsetOf(ds, |ds|)
    decreases |ds|
  {
    if ds == [] then []
    else
      OffsetOfPrefix(ds, |ds| - 1);
      Concat(ds[..|ds| - 1]) + ds[|ds| - 1]
  }

  lemma {:induction false} OffsetOfPrefix(ds: seq<seq<int>>, k: nat)
    requires k < |ds|
    ensures OffsetOf(ds[..|ds| - 1], k) == OffsetOf(ds, k)
  {
    if k > 0 { OffsetOfPrefix(ds, k - 1); }
  }

  lemma {:induction false} ConcatAt(ds: seq<seq<int>>, k: nat)
    requires k < |ds|
    ensures OffsetOf(ds, k) + |ds[k]| <= |Concat(ds)|
    ensures Concat(ds)[OffsetOf(ds, k)..OffsetOf(ds, k) + |ds[k]|] == ds[k]
    decreases |ds|
  {
    if k < |ds| - 1 {
      var front := ds[..|ds| - 1];
      ConcatAt(front, k);
      OffsetOfPrefix(ds, k);
      var a, b := OffsetOf(ds, k), OffsetOf(ds, k) + |ds[k]|;
      assert Concat(ds)[a..b] == Concat(front)[a..b];
    }
  }

  /** Where `x` stands first. */
  function First<T(==)>(s: seq<T>, x: T): (i: nat)
    requires x in s
    ensures i < |s| && s[i] == x
  {
    if s[0] == x then 0 else 1 + First(s[1..], x)
  }

  /** `list.index`. */
  method IndexOf<T(==)>(s: seq<T>, x: T) returns (i: nat)
    requires x in s
    ensures i == First(s, x)
  {
    i := 0;
    while s[i] != x
      invariant i < |s| && x in s[i..] && First(s, x) == i + First(s[i..], x)
      decreases |s| - i
    {
      i := i + 1;
    }
  }

  /** Every offset fits the 13 bits it is stored in. */
  predicate OffsetsFit(ds: seq<seq<int>>) {
    forall k :: 0 <= k < |ds| ==> OffsetOf(ds, k) < 0x2000
  }

  /** One initialiser of `decomp_slices`, as the bit fields store it. */
  function SliceFor(distinct: seq<seq<int>>, lengths: seq<nat>, d: seq<int>): Slice
    requires d in distinct && |d| in lengths
  {
    Slice(OffsetOf(distinct, First(distinct, d)) % 0x2000, First(lengths, |d|) % 8)
  }

  /**
   * The slice stores the decomposition's offset if and only if that fits, and then holds the
   * decomposition.
   */
  lemma SliceHolds(distinct: seq<seq<int>>, lengths: seq<nat>, d: seq<int>)
    requires d in distinct && |d| in lengths && |lengths| <= 8
    ensures var (s, offset) := (SliceFor(distinct, lengths, d), OffsetOf(distinct, First(distinct, d)));
            && (s.offset == offset <==> offset < 0x2000)
            && (offset < 0x2000 ==> Holds(lengths, Concat(distinct), s, d))
  {
    ConcatAt(distinct, First(distinct, d));
  }

  /** What the generator is given: the sorted lists Python makes of the map's keys and values. */
  ghost predicate Listed(m: map<int, seq<int>>, keys: seq<int>, distinct: seq<seq<int>>, lengths: seq<nat>) {
    && StrictlySorted(keys) && (forall c :: c in m ==> c in keys)
    && (forall i :: 0 <= i < |keys| ==> keys[i] in m && m[keys[i]] in distinct && |m[keys[i]]| in lengths)
    && |lengths| <= 8
  }

  ghost function Packed(m: map<int, seq<int>>, keys: seq<int>, distinct: seq<seq<int>>, lengths: seq<nat>): Tables
    requires Listed(m, keys, distinct, lengths)
  {
    Tables(keys, seq(|keys|, i requires 0 <= i < |keys| => SliceFor(distinct, lengths, m[keys[i]])), lengths, Concat(distinct))
  }

  /**
   * The packing of `main`. The generator itself refuses more than eight lengths; it does not
   * check the offsets.
   */
  method Pack(m: map<int, seq<int>>, keys: seq<int>, distinct: seq<seq<int>>, lengths: seq<nat>) returns (t: Tables)
    requires Listed(m, keys, distinct, lengths)
    ensures t == Packed(m, keys, distinct, lengths)
    ensures OffsetsFit(distinct) ==> Represents(t, m)
  {
    hide Represents, OffsetsFit, Holds, Concat;
    var offsets: seq<nat> := [];
    var cur := 0;
    for k := 0 to |distinct|
      invariant |offsets| == k && cur == OffsetOf(distinct, k)
      invariant forall j :: 0 <= j < k ==> offsets[j] == OffsetOf(distinct, j)
    {
      offsets := offsets + [cur];
      cur := cur + |distinct[k]|;
    }
    var slices: seq<Slice> := [];
    for k := 0 to |keys|
      invariant |slices| == k
      invariant forall j :: 0 <= j < k ==> slices[j] == SliceFor(distinct, lengths, m[keys[j]])
    {
      var d := m[keys[k]];
      var i := IndexOf(distinct, d);
      var l := IndexOf(lengths, |d|);
      slices := slices + [Slice(offsets[i] % 0x2000, l % 8)];
    }
    t := Tables(keys, slices, lengths, Concat(distinct));
    if OffsetsFit(distinct) { PackedRepresents(m, keys, distinct, lengths); }
  }

  /** What is read at the stored offset is the decomposition. */
  predicate ReadsBack(distinct: seq<seq<int>>, d: seq<int>)
    requires d in distinct
  {
    var o, data := OffsetOf(distinct, First(distinct, d)), Concat(distinct);
    o < 0x2000 || (o % 0x2000 + |d| <= |data| && data[o % 0x2000..o % 0x2000 + |d|] == d)
  }

  lemma SliceHoldsIff(distinct: seq<seq<int>>, lengths: seq<nat>, d: seq<int>)
    requires d in distinct && |d| in lengths && |lengths| <= 8
    ensures Holds(lengths, Concat(distinct), SliceFor(distinct, lengths, d), d) <==> ReadsBack(distinct, d)
  {
    hide Concat, OffsetOf;
    SliceHolds(distinct, lengths, d);
  }

  /**
   * The packed tables represent the map if and only if the offset of each key's decomposition
   * fits its 13 bits, or the same code points happen to stand where it wraps to.
   */
  lemma PackedRepresentsIff(m: map<int, seq<int>>, keys: seq<int>, distinct: seq<seq<int>>, lengths: seq<nat>)
    requires Listed(m, keys, distinct, lengths)
    ensures Represents(Packed(m, keys, distinct, lengths), m) <==>
      forall i :: 0 <= i < |keys| ==> ReadsBack(distinct, m[keys[i]])
  {
    hide Holds, Concat, SliceFor, ReadsBack;
    forall i | 0 <= i < |keys|
      ensures Holds(lengths, Concat(distinct), SliceFor(distinct, lengths, m[keys[i]]), m[keys[i]])
              <==> ReadsBack(distinct, m[keys[i]])
    {
      SliceHoldsIff(distinct, lengths, m[keys[i]]);
    }
    var t := Packed(m, keys, distinct, lengths);
    assert forall i :: 0 <= i < |keys| ==> t.slices[i] == SliceFor(distinct, lengths, m[t.chars[i]]);
  }

  /** While the offsets fit their 13 bits, the tables represent the map. */
  lemma PackedRepresents(m: map<int, seq<int>>, keys: seq<int>, distinct: seq<seq<int>>, lengths: seq<nat>)
    requires Listed(m, keys, distinct, lengths) && OffsetsFit(distinct)
    ensures Represents(Packed(m, keys, distinct, lengths), m)
  {
    hide Concat, Represents, OffsetOf;
    PackedRepresentsIff(m, keys, distinct, lengths);
  }

  function Ones(n: nat): (ds: seq<seq<int>>)
    ensures |ds| == n && forall i :: 0 <= i < n ==> ds[i] == [i + 1]
  {
    seq(n, i => [i + 1])
  }

  lemma {:induction false} OnesOffset(n: nat, k: nat)
    requires k <= n
    ensures OffsetOf(Ones(n), k) == k
  {
    if k > 0 { OnesOffset(n, k - 1); }
  }

  lemma FirstOne(n: nat, k: nat)
    requires k < n
    ensures Ones(n)[k] in Ones(n) && First(Ones(n), Ones(n)[k]) == k
  {
    assert Ones(n)[k] == [k + 1];
    var i := First(Ones(n), Ones(n)[k]);
    assert Ones(n)[i] == [i + 1];
  }

  /**
   * They need not beyond: of 8193 different decompositions into one code point, the last one
   * has offset 8192, which is stored as 0, where the first one is.
   */
  lemma PackedMayMiss() returns (m: map<int, seq<int>>, keys: seq<int>, distinct: seq<seq<int>>, lengths: seq<nat>)
    ensures Listed(m, keys, distinct, lengths) && !OffsetsFit(distinct)
    ensures !Represents(Packed(m, keys, distinct, lengths), m)
  {
    hide OffsetOf, Concat, First;
    var n: nat := 8193;
    distinct, lengths := Ones(n), [1];
    keys := seq(n, i => i + 1);
    m := map c: int | 1 <= c <= n :: [c];
    assert lengths[0] == 1;
    forall i | 0 <= i < n ensures m[keys[i]] in distinct && |m[keys[i]]| in lengths {
      assert distinct[i] == [i + 1];
    }
    forall c | c in m ensures c in keys { assert keys[c - 1] == c; }
    OnesOffset(n, n - 1);
    OnesOffset(n, 0);
    FirstOne(n, n - 1);
    ConcatAt(distinct, 0);
    assert m[keys[n - 1]] == distinct[n - 1] == [n] && distinct[0] == [1];
    assert !ReadsBack(distinct, m[keys[n - 1]]);
    hide Represents, ReadsBack, Packed;
    PackedRepresentsIff(m, keys, distinct, lengths);
  }
}

module Confusables {
  import opened Bytes
  import opened Utf8Spec
  import opened Utf8
  import opened Utf8Truncation
  import opened ConfusableTables

  /** What a code point is replaced by. */
  function Decomposition(m: map<int, seq<int>>, c: int): seq<int> {
    if c in m then m[c] else [c]
  }

  function Decomposed(m: map<int, seq<int>>, codes: seq<int>): seq<int>
    decreases |codes|
  {
    if codes == [] then [] else Decomposition(m, codes[0]) + Decomposed(m, codes[1..])
  }

  /** The skeleton of a string: the decompositions of its code points in order. */
  function SkeletonOf(m: map<int, seq<int>>, s: seq<byte>): seq<int> {
    Decomposed(m, Codes(s, 0))
  }

  /** Zero marks the end of a skeleton, so no decomposition may contain it. */
  ghost predicate NoZero(m: map<int, seq<int>>) {
    forall c :: c in m ==> 0 !in m[c]
  }

  lemma {:induction false} CodesNoZero(s: seq<byte>, at: nat)
    requires IsCString(s) && at <= |s|
    ensures 0 !in Codes(s, at)
    decreases |s| - at
  {
    hide Decoded;
    if at < |s| {
      DecodedInside(s, at);
      CodesNoZero(s, Decoded(s, at).1);
    }
  }

  lemma {:induction false} DecomposedNoZero(m: map<int, seq<int>>, codes: seq<int>)
    requires NoZero(m) && 0 !in codes
    ensures 0 !in Decomposed(m, codes)
    decreases |codes|
  {
    if codes != [] { DecomposedNoZero(m, codes[1..]); }
  }

  /** The skeleton of the string from the cursor on. */
  function SkeletonFrom(m: map<int, seq<int>>, s: seq<byte>, at: nat): seq<int>
    requires at <= |s|
  {
    Decomposed(m, Codes(s, at))
  }

  /** Decoding one code point takes its decomposition off the front. */
  lemma SkeletonStep(m: map<int, seq<int>>, s: seq<byte>, at: nat)
    requires IsCString(s) && at <= |s| && NoZero(m)
    ensures var (code, next) := Decoded(s, at);
            if code == 0 then SkeletonFrom(m, s, at) == []
            else
              && at < next <= |s|
              && SkeletonFrom(m, s, at) == Decomposition(m, code) + SkeletonFrom(m, s, next)
              && 0 !in Decomposition(m, code)
  {
    hide Decoded;
    DecodedInside(s, at);
    if at < |s| {
      var (code, next) := Decoded(s, at);
      var codes := Codes(s, at);
      assert codes == [code] + Codes(s, next);
      assert codes[1..] == Codes(s, next);
    }
  }

  /** `struct SKELETON`: the rest of the current decomposition, and the cursor. */
  class Skeleton {
    const tables: Tables
    ghost const m: map<int, seq<int>>
    const str: seq<byte>
    var skeleton: int            // index into the data; -1 for NULL
    var skeletonLen: nat
    var cursor: nat

    ghost predicate Valid()
      reads this
    {
      && Represents(tables, m) && NoZero(m)
      && IsCString(str) && cursor <= |str|
      && (skeletonLen > 0 ==> 0 <= skeleton && skeleton + skeletonLen <= |tables.data| && 0 !in Current())
    }

    function Current(): seq<int>
      reads this
      requires skeletonLen > 0 ==> 0 <= skeleton && skeleton + skeletonLen <= |tables.data|
    {
      if skeletonLen > 0 then tables.data[skeleton..skeleton + skeletonLen] else []
    }

    /** What `Next` is still going to return. */
    ghost function Rest(): seq<int>
      reads this
      requires Valid()
    {
      Current() + SkeletonFrom(m, str, cursor)
    }

    constructor (tables: Tables, ghost m: map<int, seq<int>>, str: seq<byte>)
      requires Represents(tables, m) && NoZero(m) && IsCString(str)
      ensures Valid() && Rest() == SkeletonOf(m, str) && this.m == m
    {
      this.tables, this.m, this.str := tables, m, str;
      skeleton, skeletonLen, cursor := -1, 0, 0;
    }

    /** The code point `ch` stands for itself in front of what follows the cursor. */
    ghost predicate Single(ch: int, rest: seq<int>)
      reads this
    {
      && skeletonLen == 1 && skeleton == -1
      && Represents(tables, m) && NoZero(m) && IsCString(str) && cursor <= |str|
      && rest == [ch] + SkeletonFrom(m, str, cursor)
    }

    /**
     * The body of the loop: the next code point, with its decomposition made current, or
     * with NULL and length 1 when it stands for itself.
     */
    method Fetch() returns (ch: int)
      requires Valid() && skeletonLen == 0
      modifies this
      ensures ch == 0 ==> old(Rest()) == [] && unchanged(this)
      ensures ch != 0 ==> cursor > old(cursor)
      ensures ch != 0 && skeleton >= 0 ==> Valid() && Rest() == old(Rest())
      ensures ch != 0 && skeleton < 0 ==> Single(ch, old(Rest()))
    {
      hide SkeletonFrom, Decoded, Represents;
      SkeletonStep(m, str, cursor);
      var next;
      ch, next := Decode(str, cursor);
      if ch == 0 {
        return;
      }
      cursor := next;
      var found := Lookup(tables, m, ch);
      if found.At? {
        skeleton, skeletonLen := found.offset, found.length;
      } else {
        skeleton, skeletonLen := -1, 1;
      }
    }

    /** `str_utf8_skeleton_next`: one element of the skeleton, or 0 at its end. */
    method Next() returns (ch: int)
      requires Valid()
      modifies this
      ensures ch == 0 <==> old(Rest()) == []
      ensures ch != 0 ==> Valid() && old(Rest()) == [ch] + Rest()
    {
      hide SkeletonFrom, Represents;
      ghost var rest := Rest();
      ch := 0;
      while skeletonLen == 0
        invariant skeletonLen == 0 || skeleton >= 0 ==> Valid() && Rest() == rest
        invariant skeletonLen > 0 && skeleton < 0 ==> ch != 0 && Single(ch, rest)
        decreases |str| - cursor, skeletonLen == 0
      {
        ch := Fetch();
        if ch == 0 {
          return;
        }
      }
      if skeleton >= 0 {
        ch := Take();
      } else {
        skeletonLen := skeletonLen - 1;
      }
    }

    /** The next element of the current decomposition. */
    method Take() returns (ch: int)
      requires Valid() && skeletonLen > 0
      modifies this`skeleton, this`skeletonLen
      ensures Valid() && ch != 0 && old(Rest()) == [ch] + Rest()
    {
      hide SkeletonFrom, Represents;
      ghost var current := Current();
      ch := tables.data[skeleton];
      assert current == [ch] + current[1..];
      skeletonLen := skeletonLen - 1;
      skeleton := skeleton + 1;
      assert Current() == current[1..];
    }
  }

  /** `str_utf8_to_skeleton`: as much of the skeleton as fits into the buffer. */
  method ToSkeleton(t: Tables, ghost m: map<int, seq<int>>, str: seq<byte>, buf: array<int>) returns (n: nat)
    requires Represents(t, m) && NoZero(m) && IsCString(str)
    modifies buf
    ensures n == (if |SkeletonOf(m, str)| < buf.Length then |SkeletonOf(m, str)| else buf.Length)
    ensures buf[..n] == SkeletonOf(m, str)[..n]
  {
    hide *;
    var skel := new Skeleton(t, m, str);
    n := 0;
    ghost var rest := skel.Rest();
    while n < buf.Length
      invariant 0 <= n <= buf.Length && skel.Valid() && skel.Rest() == rest && fresh(skel)
      invariant SkeletonOf(m, str) == buf[..n] + rest
    {
      var ch := skel.Next();
      if ch == 0 {
        break;
      }
      buf[n] := ch;
      rest := rest[1..];
      assert buf[..n + 1] == buf[..n] + [ch];
      n := n + 1;
    }
  }

  /** `str_utf8_comp_confusable`: 0 for equal skeletons, 1 for different ones. */
  method CompConfusable(t: Tables, ghost m: map<int, seq<int>>, str1: seq<byte>, str2: seq<byte>) returns (r: int)
    requires Represents(t, m) && NoZero(m) && IsCString(str1) && IsCString(str2)
    ensures r == if SkeletonOf(m, str1) == SkeletonOf(m, str2) then 0 else 1
  {
    hide *;
    var skel1 := new Skeleton(t, m, str1);
    var skel2 := new Skeleton(t, m, str2);
    ghost var done: seq<int> := [];
    ghost var rest1, rest2 := skel1.Rest(), skel2.Rest();
    while true
      invariant skel1.Valid() && skel2.Valid() && fresh(skel1) && fresh(skel2) && skel1 != skel2
      invariant skel1.Rest() == rest1 && skel2.Rest() == rest2
      invariant SkeletonOf(m, str1) == done + rest1 && SkeletonOf(m, str2) == done + rest2
      decreases |rest1|
    {
      var ch1 := skel1.Next();
      var ch2 := skel2.Next();
      if ch1 == 0 || ch2 == 0 {
        Ending(done, rest1, rest2);
        return if ch1 != ch2 then 1 else 0;
      }
      if ch1 != ch2 {
        assert SkeletonOf(m, str1)[|done|] == ch1 && SkeletonOf(m, str2)[|done|] == ch2;
        return 1;
      }
      assert done + rest1 == (done + [ch1]) + rest1[1..];
      assert done + rest2 == (done + [ch2]) + rest2[1..];
      done := done + [ch1];
      rest1, rest2 := rest1[1..], rest2[1..];
    }
  }

  lemma Ending(done: seq<int>, rest1: seq<int>, rest2: seq<int>)
    requires rest1 == [] || rest2 == []
    ensures done + rest1 == done + rest2 <==> rest1 == [] && rest2 == []
  {
    assert |done + rest1| == |done| + |rest1| && |done + rest2| == |done| + |rest2|;
  }
}

/**
 * The generator's decomposition map: two replacement tables applied in turn until nothing
 * changes any more, without the code points to ignore.
 */
module ConfusableGenerator {
  import opened Confusables

  /** `unicode.data`, `unicode.confusables` and the categories, as the generator reads them. */
  datatype Source = Source(nfd: map<int, seq<int>>, con: map<int, seq<int>>, ignore: set<int>)

  /** One round of `gen`; `apply` is the replacement of every code point. */
  function Replaced(src: Source, r: seq<int>): seq<int> {
    Decomposed(src.con, Decomposed(src.nfd, r))
  }

  function Rounds(src: Source, c: int, n: nat): seq<int> {
    if n == 0 then [c] else Replaced(src, Rounds(src, c, n - 1))
  }

  /** The condition for leaving the loop of `gen`. */
  predicate Converged(src: Source, r: seq<int>) {
    r == Decomposed(src.nfd, r) && r == Replaced(src, r)
  }

  function Kept(r: seq<int>, ignore: set<int>): (k: seq<int>)
    ensures forall c :: c in k <==> c in r && c !in ignore
  {
    if r == [] then []
    else if r[0] in ignore then Kept(r[1..], ignore)
    else [r[0]] + Kept(r[1..], ignore)
  }

  /** With nothing to ignore, all is kept as it stands. */
  lemma {:induction false} KeepsAll(r: seq<int>)
    ensures Kept(r, {}) == r
  {
    if r != [] { KeepsAll(r[1..]); }
  }

  /** What is kept of each part stays in its place. */
  lemma {:induction false} KeptParts(a: seq<int>, b: seq<int>, ignore: set<int>)
    ensures Kept(a + b, ignore) == Kept(a, ignore) + Kept(b, ignore)
    decreases |a|
  {
    if a == [] {
      assert a + b == b;
    } else {
      assert (a + b)[1..] == a[1..] + b;
      KeptParts(a[1..], b, ignore);
    }
  }

  /** `k` is what is left of `r`, in order, when the places `at` are the ones that stay. */
  ghost predicate IsFiltered(r: seq<int>, ignore: set<int>, k: seq<int>, at: seq<nat>) {
    && |at| == |k|
    && (forall i, j :: 0 <= i < j < |at| ==> at[i] < at[j])
    && (forall i :: 0 <= i < |at| ==> at[i] < |r| && k[i] == r[at[i]])
    && (forall i :: 0 <= i < |r| ==> (r[i] !in ignore <==> i in at))
  }

  lemma {:induction false} KeptInOrder(r: seq<int>, ignore: set<int>) returns (at: seq<nat>)
    ensures IsFiltered(r, ignore, Kept(r, ignore), at)
    decreases |r|
  {
    hide IsFiltered;
    if r == [] {
      FilteredNone(ignore);
      at := [];
    } else {
      var front, last := r[..|r| - 1], r[|r| - 1];
      assert r == front + [last];
      KeptParts(front, [last], ignore);
      at := KeptInOrder(front, ignore);
      KeptOne(last, ignore);
      FilteredMore(front, last, ignore, Kept(front, ignore), at);
      if last !in ignore { at := at + [|front|]; } else { assert Kept(front, ignore) + [] == Kept(front, ignore); }
    }
  }

  lemma FilteredNone(ignore: set<int>)
    ensures IsFiltered([], ignore, Kept([], ignore), [])
  {
  }

  lemma KeptOne(c: int, ignore: set<int>)
    ensures Kept([c], ignore) == if c in ignore then [] else [c]
  {
    assert [c][1..] == [];
  }

  lemma FilteredMore(front: seq<int>, last: int, ignore: set<int>, k: seq<int>, at: seq<nat>)
    requires IsFiltered(front, ignore, k, at)
    ensures if last in ignore then IsFiltered(front + [last], ignore, k, at)
            else IsFiltered(front + [last], ignore, k + [last], at + [|front|])
  {
  }

  lemma {:induction false} ConvergedStays(src: Source, c: int, k: nat, n: nat)
    requires k <= n && Converged(src, Rounds(src, c, k))
    ensures Rounds(src, c, n) == Rounds(src, c, k)
    decreases n
  {
    if k < n { ConvergedStays(src, c, k, n - 1); }
  }

  /** `gen`, for a code point whose replacements converge after `n` rounds at the latest. */
  method Gen(src: Source, c: int, ghost n: nat) returns (d: seq<int>)
    requires Converged(src, Rounds(src, c, n))
    ensures d == Kept(Rounds(src, c, n), src.ignore)
    ensures exists at :: IsFiltered(Rounds(src, c, n), src.ignore, d, at)
  {
    hide Replaced, Converged, IsFiltered;
    var result := [c];
    ghost var k := 0;
    while true
      invariant 0 <= k <= n && result == Rounds(src, c, k)
      decreases n - k
    {
      var first := Decomposed(src.nfd, result);
      var second := Decomposed(src.con, first);
      Leaves(src, result);
      if result == first && result == second {
        ConvergedStays(src, c, k, n);
        break;
      }
      result := second;
      k := k + 1;
    }
    d := Kept(result, src.ignore);
    ghost var at := KeptInOrder(result, src.ignore);
  }

  lemma Leaves(src: Source, r: seq<int>)
    ensures Replaced(src, r) == Decomposed(src.con, Decomposed(src.nfd, r))
    ensures Converged(src, r) <==> r == Decomposed(src.nfd, r) && r == Replaced(src, r)
  {
  }

  /** Code point `c` is mapped to what `gen` makes of it. */
  ghost predicate IsGen(src: Source, c: int, d: seq<int>) {
    exists n: nat :: Converged(src, Rounds(src, c, n)) && d == Kept(Rounds(src, c, n), src.ignore)
  }

  /** The map that `generate_decompositions` returns. */
  ghost predicate Generated(src: Source, m: map<int, seq<int>>) {
    && (forall c :: c in m <==> c in src.ignore || c in src.nfd || c in src.con)
    && (forall c :: c in m ==> IsGen(src, c, m[c]))
  }

  /**
   * No replacement by the first table is empty, and none by the second contains a code point
   * that the second removes.
   */
  ghost predicate Clean(src: Source) {
    && (forall c :: c in src.nfd ==> src.nfd[c] != [])
    && (forall c, d :: c in src.con && d in src.con[c] && d in src.con ==> src.con[d] != [])
  }

  lemma {:induction false} NoShorter(m: map<int, seq<int>>, r: seq<int>)
    requires forall c :: c in r ==> Decomposition(m, c) != []
    ensures |Decomposed(m, r)| >= |r|
    decreases |r|
  {
    hide Decomposition;
    if r != [] { NoShorter(m, r[1..]); }
  }

  /** What replacement does not change, it leaves alone code point by code point. */
  lemma {:induction false} EachFixed(m: map<int, seq<int>>, r: seq<int>, c: int)
    requires (forall x :: x in r ==> Decomposition(m, x) != []) && Decomposed(m, r) == r && c in r
    ensures Decomposition(m, c) == [c]
    decreases |r|
  {
    hide Decomposition;
    var head, rest := Decomposition(m, r[0]), r[1..];
    NoShorter(m, rest);
    assert head + Decomposed(m, rest) == r;
    assert |head| == 1;
    assert Decomposed(m, rest) == (head + Decomposed(m, rest))[1..];
    if c != r[0] { EachFixed(m, rest, c); }
  }

  /** After a round, no code point is left that the second table removes. */
  lemma {:induction false} NothingToRemove(src: Source, r: seq<int>, c: int)
    requires Clean(src) && c in Decomposed(src.con, r)
    ensures Decomposition(src.con, c) != []
    decreases |r|
  {
    if c !in Decomposition(src.con, r[0]) { NothingToRemove(src, r[1..], c); }
  }

  lemma ConvergedIsFixed(src: Source, r: seq<int>, c: int)
    requires Clean(src) && Converged(src, r) && c in r
    ensures Decomposition(src.nfd, c) == [c] && Decomposition(src.con, c) == [c]
  {
    hide Decomposed;
    forall x | x in r ensures Decomposition(src.con, x) != [] {
      NothingToRemove(src, r, x);
    }
    EachFixed(src.nfd, r, c);
    EachFixed(src.con, r, c);
  }

  lemma Single(m: map<int, seq<int>>, c: int)
    ensures Decomposed(m, [c]) == Decomposition(m, c)
  {
    assert [c][1..] == [];
  }

  lemma {:induction false} FixedRounds(src: Source, c: int, n: nat)
    requires Decomposition(src.nfd, c) == [c] && Decomposition(src.con, c) == [c]
    ensures Rounds(src, c, n) == [c]
  {
    if n > 0 {
      FixedRounds(src, c, n - 1);
      Single(src.nfd, c);
      Single(src.con, c);
    }
  }

  /** A code point in a decomposition is not decomposed further. */
  lemma PiecesAreFixed(src: Source, m: map<int, seq<int>>, c: int, d: int)
    requires Clean(src) && Generated(src, m) && d in Decomposition(m, c)
    ensures Decomposition(m, d) == [d]
  {
    hide Clean, Converged, Decomposed;
    if c in m && d in m {
      var n: nat :| Converged(src, Rounds(src, c, n)) && m[c] == Kept(Rounds(src, c, n), src.ignore);
      ConvergedIsFixed(src, Rounds(src, c, n), d);
      var k: nat :| Converged(src, Rounds(src, d, k)) && m[d] == Kept(Rounds(src, d, k), src.ignore);
      FixedRounds(src, d, k);
      assert Kept([d], src.ignore) == [d] + Kept([d][1..], src.ignore);
    }
  }

  lemma {:induction false} AllFixed(m: map<int, seq<int>>, r: seq<int>)
    requires forall c :: c in r ==> Decomposition(m, c) == [c]
    ensures Decomposed(m, r) == r
    decreases |r|
  {
    hide Decomposition;
    if r != [] { AllFixed(m, r[1..]); }
  }

  lemma {:induction false} PieceOf(m: map<int, seq<int>>, codes: seq<int>, d: int) returns (c: int)
    requires d in Decomposed(m, codes)
    ensures d in Decomposition(m, c)
    decreases |codes|
  {
    c := codes[0];
    if d !in Decomposition(m, c) { c := PieceOf(m, codes[1..], d); }
  }

  /** A skeleton is its own skeleton. */
  lemma SkeletonsAreStable(src: Source, m: map<int, seq<int>>, codes: seq<int>)
    requires Clean(src) && Generated(src, m)
    ensures Decomposed(m, Decomposed(m, codes)) == Decomposed(m, codes)
  {
    hide *;
    forall d | d in Decomposed(m, codes) ensures Decomposition(m, d) == [d] {
      var c := PieceOf(m, codes, d);
      PiecesAreFixed(src, m, c, d);
    }
    AllFixed(m, Decomposed(m, codes));
  }

  /** Every skeleton that the map gives is its own skeleton. */
  ghost predicate Stable(m: map<int, seq<int>>) {
    forall codes: seq<int> :: Decomposed(m, Decomposed(m, codes)) == Decomposed(m, codes)
  }

  /** Every entry of the map is its own skeleton. */
  predicate EntriesStable(m: map<int, seq<int>>) {
    forall c :: c in m ==> Decomposed(m, m[c]) == m[c]
  }

  lemma {:induction false} DecomposedParts(m: map<int, seq<int>>, a: seq<int>, b: seq<int>)
    ensures Decomposed(m, a + b) == Decomposed(m, a) + Decomposed(m, b)
    decreases |a|
  {
    if a == [] {
      assert a + b == b;
    } else {
      assert (a + b)[1..] == a[1..] + b;
      DecomposedParts(m, a[1..], b);
    }
  }

  lemma {:induction false} EntriesSuffice(m: map<int, seq<int>>, codes: seq<int>)
    requires EntriesStable(m)
    ensures Decomposed(m, Decomposed(m, codes)) == Decomposed(m, codes)
    decreases |codes|
  {
    if codes != [] {
      var c, rest := codes[0], codes[1..];
      DecomposedParts(m, Decomposition(m, c), Decomposed(m, rest));
      EntriesSuffice(m, rest);
      if c !in m { Single(m, c); }
    }
  }

  /** Skeletons are stable if and only if the entries are, for any map: a check of the table. */
  lemma StableIff(m: map<int, seq<int>>)
    ensures Stable(m) <==> EntriesStable(m)
  {
    if EntriesStable(m) {
      forall codes: seq<int> ensures Decomposed(m, Decomposed(m, codes)) == Decomposed(m, codes) {
        EntriesSuffice(m, codes);
      }
    } else {
      var c :| c in m && Decomposed(m, m[c]) != m[c];
      Single(m, c);
      assert Decomposed(m, Decomposed(m, [c])) != Decomposed(m, [c]);
    }
  }

  /** So every map generated from clean tables passes that check. */
  lemma CleanIsStable(src: Source, m: map<int, seq<int>>)
    requires Clean(src) && Generated(src, m)
    ensures Stable(m) && EntriesStable(m)
  {
    hide Clean, Generated, EntriesStable;
    forall codes: seq<int> ensures Decomposed(m, Decomposed(m, codes)) == Decomposed(m, codes) {
      SkeletonsAreStable(src, m, codes);
    }
    StableIff(m);
  }

  /**
   * Without that condition it need not be: here a removed code point is left standing next to
   * an ignored one that keeps restoring it.
   */
  lemma UncleanMayBeUnstable() returns (src: Source, m: map<int, seq<int>>)
    ensures Generated(src, m) && !Clean(src)
    ensures Decomposed(m, Decomposed(m, [3])) != Decomposed(m, [3]) && !Stable(m)
  {
    src := Source(map[], map[1 := [], 2 := [1, 2], 3 := [1, 2]], {2});
    m := map[1 := [], 2 := [1], 3 := [1]];
    Single(m, 3);
    Single(m, 1);
    forall c | c in m ensures IsGen(src, c, m[c]) {
      AllFixed(src.nfd, [c]);
      Single(src.con, c);
      var r := src.con[c];
      assert Rounds(src, c, 1) == Replaced(src, Rounds(src, c, 0)) == r;
      AllFixed(src.nfd, r);
      if c != 1 {
        assert [1, 2][1..] == [2];
        Single(src.con, 2);
      }
      assert Converged(src, Rounds(src, c, 1));
    }
  }
}
