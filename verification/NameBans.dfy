/**
 * White space around a name: `str_utf8_skip_whitespaces` and `str_utf8_trim_right`. A decoding
 * error counts as white space, as its code is -1.
 */
module WhiteSpace {
  import opened Bytes
  import opened Utf8Spec
  import opened Utf8
  import opened Utf8Truncation

  const MAX_NAME_LENGTH: nat := 16

  predicate IsSpace(code: int) {
    || code <= 0x0020 || code == 0x0085 || code == 0x00A0 || code == 0x034F
    || code == 0x115F || code == 0x1160 || code == 0x1680 || code == 0x180E
    || 0x2000 <= code <= 0x200F || 0x2028 <= code <= 0x202F
    || 0x205F <= code <= 0x2064 || 0x206A <= code <= 0x206F
    || code == 0x2800 || code == 0x3000 || code == 0x3164
    || 0xFE00 <= code <= 0xFE0F || code == 0xFEFF || code == 0xFFA0
    || 0xFFF9 <= code <= 0xFFFC
  }

  /** Table of first and last code points of the ranges that count as white space. */
  const SPACES: seq<(int, int)> := [
    (0x0085, 0x0085), (0x00A0, 0x00A0), (0x034F, 0x034F), (0x115F, 0x1160), (0x1680, 0x1680), (0x180E, 0x180E),
    (0x2000, 0x200F), (0x2028, 0x202F), (0x205F, 0x2064), (0x206A, 0x206F), (0x2800, 0x2800), (0x3000, 0x3000),
    (0x3164, 0x3164), (0xFE00, 0xFE0F), (0xFEFF, 0xFEFF), (0xFFA0, 0xFFA0), (0xFFF9, 0xFFFC)]

  /** White space is what is in the table, and everything up to the blank, errors included. */
  lemma IsSpaceIff(code: int)
    ensures IsSpace(code) <==> code <= 32 || exists k :: 0 <= k < |SPACES| && SPACES[k].0 <= code <= SPACES[k].1
  {
    if IsSpace(code) && code > 32 {
      var k := if code == 0x0085 then 0 else if code == 0x00A0 then 1 else if code == 0x034F then 2
               else if code <= 0x1160 then 3 else if code == 0x1680 then 4 else if code == 0x180E then 5
               else if code <= 0x200F then 6 else if code <= 0x202F then 7 else if code <= 0x2064 then 8
               else if code <= 0x206F then 9 else if code == 0x2800 then 10 else if code == 0x3000 then 11
               else if code == 0x3164 then 12 else if code <= 0xFE0F then 13 else if code == 0xFEFF then 14
               else if code == 0xFFA0 then 15 else 16;
      assert SPACES[k].0 <= code <= SPACES[k].1;
    }
  }

  /** Where the first code point from the cursor on is that is not white space, or the end. */
  function Skipped(s: seq<byte>, at: nat): (n: nat)
    requires IsCString(s) && at <= |s|
    ensures at <= n <= |s|
    decreases |s| - at
  {
    if at == |s| then at
    else
      DecodedInside(s, at);
      if IsSpace(Decoded(s, at).0) then Skipped(s, Decoded(s, at).1) else at
  }

  /** Where the white space at the end starts, or -1; `end` is where the current run does. */
  function TrimAt(s: seq<byte>, at: nat, end: int): (n: int)
    requires IsCString(s) && at <= |s| && -1 <= end <= at
    ensures -1 <= n <= |s|
    decreases |s| - at
  {
    if at == |s| then end
    else
      DecodedInside(s, at);
      TrimAt(s, Decoded(s, at).1, if !IsSpace(Decoded(s, at).0) then -1 else if end < 0 then at else end)
  }

  function TrimFrom(s: seq<byte>, at: nat, end: int): seq<byte>
    requires IsCString(s) && at <= |s| && -1 <= end <= at
  {
    var n := TrimAt(s, at, end);
    if n < 0 then s else s[..n]
  }

  function TrimmedRight(s: seq<byte>): seq<byte>
    requires IsCString(s)
  {
    TrimFrom(s, 0, -1)
  }

  /** `str_utf8_skip_whitespaces`. */
  method SkipWhitespaces(s: seq<byte>) returns (at: nat)
    requires IsCString(s)
    ensures at == Skipped(s, 0)
  {
    hide Decoded, IsSpace;
    at := 0;
    while at < |s|
      invariant at <= |s| && Skipped(s, at) == Skipped(s, 0)
      decreases |s| - at
    {
      DecodedInside(s, at);
      var code, next := Decode(s, at);
      if !IsSpace(code) {
        return;
      }
      at := next;
    }
  }

  /** `str_utf8_trim_right`. */
  method TrimRight(param: array<byte>)
    requires 0 in param[..]
    modifies param
    ensures Content(param[..]) == TrimmedRight(old(Content(param[..]))) && 0 in param[..]
  {
    hide Decoded, IsSpace, Content;
    var len := StrLength(param);
    var s := param[..len];
    var end := -1;
    var at := 0;
    while at < len
      invariant 0 <= at <= len && -1 <= end <= at
      invariant TrimAt(s, at, end) == TrimAt(s, 0, -1) && param[..] == old(param[..])
      decreases len - at
    {
      DecodedInside(s, at);
      var code, next := Decode(s, at);
      if !IsSpace(code) {
        end := -1;
      } else if end < 0 {
        end := at;
      }
      at := next;
    }
    if end >= 0 {
      param[end] := 0;
      assert param[..end] == s[..end];
      NoNul(s, end);
      ContentIs(param[..], s[..end]);
      assert param[end] == 0;
    } else {
      ContentIs(param[..], s);
      assert param[len] == 0;
    }
  }

  lemma NoNul(s: seq<byte>, n: nat)
    requires IsCString(s) && n <= |s|
    ensures IsCString(s[..n]) && IsCString(s[n..])
  {
    assert forall i :: 0 <= i < |s| ==> s[i] != 0;
  }

  // ----- what that means for valid strings

  function WithoutFront(cs: seq<int>): (r: seq<int>)
    ensures AllChars(cs) ==> AllChars(r)
  {
    if cs == [] || !IsSpace(cs[0]) then cs else WithoutFront(cs[1..])
  }

  function WithoutBack(cs: seq<int>): (r: seq<int>)
    ensures r <= cs && (AllChars(cs) ==> AllChars(r))
    decreases |cs|
  {
    if cs == [] || !IsSpace(cs[|cs| - 1]) then cs else WithoutBack(cs[..|cs| - 1])
  }

  /** Only white space is left out, and all of it that is at that end. */
  lemma {:induction false} WithoutFrontIs(cs: seq<int>)
    ensures var r, n := WithoutFront(cs), |cs| - |WithoutFront(cs)|;
            && n >= 0 && r == cs[n..] && (forall i :: 0 <= i < n ==> IsSpace(cs[i]))
            && (r != [] ==> !IsSpace(r[0]))
  {
    hide IsSpace;
    if cs != [] && IsSpace(cs[0]) {
      WithoutFrontIs(cs[1..]);
      assert forall i :: 1 <= i < |cs| ==> cs[i] == cs[1..][i - 1];
    }
  }

  lemma {:induction false} WithoutBackIs(cs: seq<int>)
    ensures var r := WithoutBack(cs);
            && r <= cs && (forall i :: |r| <= i < |cs| ==> IsSpace(cs[i]))
            && (r != [] ==> !IsSpace(r[|r| - 1]))
    decreases |cs|
  {
    hide IsSpace;
    if cs != [] && IsSpace(cs[|cs| - 1]) { WithoutBackIs(cs[..|cs| - 1]); }
  }

  lemma EncodeFirst(cs: seq<int>)
    requires AllChars(cs) && cs != []
    ensures EncodeAll(cs) == Encode(cs[0]) + EncodeAll(cs[1..])
  {
  }

  /** The first code point of an encoding. */
  lemma DecodesFirst(f: seq<byte>, cs: seq<int>)
    requires AllChars(cs) && cs != []
    ensures Decoded(f + EncodeAll(cs), |f|) == (cs[0], |f + Encode(cs[0])|)
    ensures f + EncodeAll(cs) == (f + Encode(cs[0])) + EncodeAll(cs[1..])
  {
    hide Encode, Decoded, EncodeAll;
    EncodeFirst(cs);
    var s := f + EncodeAll(cs);
    assert s[|f|..] == EncodeAll(cs);
    DecodesEncoded(s, |f|, cs[0]);
  }

  lemma {:induction false} SkipsSpaces(f: seq<byte>, cs: seq<int>, s: seq<byte>)
    requires AllChars(cs) && IsCString(s) && s == f + EncodeAll(cs)
    ensures s[Skipped(s, |f|)..] == EncodeAll(WithoutFront(cs))
    decreases |cs|
  {
    hide Encode, Decoded, IsSpace, EncodeAll;
    if cs == [] {
      EncodeNone();
    } else {
      DecodesFirst(f, cs);
      DecodedInside(s, |f|);
      if IsSpace(cs[0]) {
        SkipsSpaces(f + Encode(cs[0]), cs[1..], s);
      } else {
        assert s[|f|..] == EncodeAll(cs);
      }
    }
  }

  /** The state of the loop: where the white space at the end of `front` starts. */
  ghost predicate TrimState(front: seq<int>, end: int) {
    && AllChars(front)
    && var kept := WithoutBack(front);
       end == (if kept == front then -1 else |EncodeAll(kept)|) && end <= |EncodeAll(front)|
  }

  /** What stays when the rest `cs` has been looked at as well. */
  lemma {:induction false} TrimsSpaces(front: seq<int>, cs: seq<int>, end: int, s: seq<byte>)
    requires TrimState(front, end) && AllChars(cs) && IsCString(s) && s == EncodeAll(front) + EncodeAll(cs)
    ensures TrimFrom(s, |EncodeAll(front)|, end) == EncodeAll(WithoutBack(front + cs))
    decreases |cs|
  {
    hide Encode, Decoded, IsSpace, EncodeAll, WithoutBack;
    if cs == [] {
      assert front + cs == front;
      EncodeNone();
      KeptIsPrefix(front);
    } else {
      var f, all := EncodeAll(front), front + [cs[0]];
      DecodesFirst(f, cs);
      EncodeOneMore(front, cs[0]);
      DecodedInside(s, |f|);
      var next := if !IsSpace(cs[0]) then -1 else if end < 0 then |f| else end;
      assert front + cs == all + cs[1..];
      NextTrimState(front, cs[0], end, next);
      TrimsSpaces(all, cs[1..], next, s);
    }
  }

  lemma NextTrimState(front: seq<int>, c: int, end: int, next: int)
    requires TrimState(front, end) && IsChar(c)
    requires next == if !IsSpace(c) then -1 else if end < 0 then |EncodeAll(front)| else end
    ensures TrimState(front + [c], next)
  {
    hide Encode, IsSpace, EncodeAll;
    var all := front + [c];
    EncodeOneMore(front, c);
    assert all[..|all| - 1] == front && all[|all| - 1] == c;
    KeptIsPrefix(front);
    KeptIsPrefix(all);
    assert |WithoutBack(front)| <= |front| < |all|;
  }

  lemma EncodeNone()
    ensures EncodeAll([]) == []
  {
  }

  lemma EncodeOneMore(front: seq<int>, c: int)
    requires AllChars(front) && IsChar(c)
    ensures EncodeAll(front + [c]) == EncodeAll(front) + Encode(c)
  {
    hide Encode;
    EncodeAllAppend(front, [c]);
    assert [c][1..] == [];
  }

  lemma KeptIsPrefix(front: seq<int>)
    requires AllChars(front)
    ensures EncodeAll(WithoutBack(front)) <= EncodeAll(front)
  {
    hide Encode, IsSpace;
    var kept := WithoutBack(front);
    assert front == kept + front[|kept|..];
    EncodeAllAppend(kept, front[|kept|..]);
  }

  /** What `str_copy` leaves of a string in a buffer for names. */
  function Cut(s: seq<byte>): seq<byte> {
    Fixed(s[..Min(|s|, MAX_NAME_LENGTH - 1)])
  }

  /** A requested name, trimmed and cut to the size of a name. */
  function Trimmed(name: seq<byte>): seq<byte>
    requires IsCString(name)
  {
    CutNoNul(name[Skipped(name, 0)..]);
    NoNul(name, Skipped(name, 0));
    TrimmedRight(Cut(name[Skipped(name, 0)..]))
  }

  lemma CutNoNul(s: seq<byte>)
    ensures IsCString(s) ==> IsCString(Cut(s))
    ensures |Cut(s)| < MAX_NAME_LENGTH && Cut(s) <= s
  {
    hide Decoded;
    if IsCString(s) { assert forall i :: 0 <= i < |s| ==> s[i] != 0; }
  }

  lemma SkippedMeans(cs: seq<int>)
    requires AllChars(cs)
    ensures var s := EncodeAll(cs);
            IsCString(s) && s[Skipped(s, 0)..] == EncodeAll(WithoutFront(cs))
  {
    hide *;
    EncodedIsOctets(cs);
    var s, none: seq<byte> := EncodeAll(cs), [];
    assert none + s == s;
    SkipsSpaces(none, cs, s);
  }

  lemma CutMeans(cs: seq<int>)
    requires AllChars(cs)
    ensures Cut(EncodeAll(cs)) == EncodeAll(cs[..FitCount(cs, MAX_NAME_LENGTH - 1)])
  {
    hide Fixed, EncodeAll, FitCount;
    FixedIsLongestFit(cs, MAX_NAME_LENGTH - 1);
  }

  lemma RightMeans(cs: seq<int>)
    requires AllChars(cs)
    ensures IsCString(EncodeAll(cs)) && TrimmedRight(EncodeAll(cs)) == EncodeAll(WithoutBack(cs))
  {
    hide EncodeAll, TrimFrom;
    EncodedIsOctets(cs);
    EncodeNone();
    var none: seq<int> := [];
    assert none + cs == cs && EncodeAll(none) + EncodeAll(cs) == EncodeAll(cs);
    TrimsSpaces(none, cs, -1, EncodeAll(cs));
  }

  /**
   * What stays of a valid name: without the white space in front, as many whole characters as
   * fit, and without the white space that is then at the end.
   */
  function Kept(cs: seq<int>): (r: seq<int>)
    requires AllChars(cs)
    ensures AllChars(r)
  {
    var rest := WithoutFront(cs);
    WithoutBack(rest[..FitCount(rest, MAX_NAME_LENGTH - 1)])
  }

  lemma TrimmedMeans(cs: seq<int>)
    requires AllChars(cs)
    ensures IsCString(EncodeAll(cs)) && Trimmed(EncodeAll(cs)) == EncodeAll(Kept(cs))
  {
    hide EncodeAll, Cut, TrimmedRight, Skipped, WithoutFront, WithoutBack, FitCount;
    var rest := WithoutFront(cs);
    SkippedMeans(cs);
    CutMeans(rest);
    RightMeans(rest[..FitCount(rest, MAX_NAME_LENGTH - 1)]);
  }

  lemma TrimmedIsShort(name: seq<byte>)
    requires IsCString(name)
    ensures |Trimmed(name)| < MAX_NAME_LENGTH
  {
    hide Cut, TrimAt;
    CutNoNul(name[Skipped(name, 0)..]);
  }

  /** So it stays valid, and is short enough for a name. */
  lemma TrimmedIsValid(name: seq<byte>)
    requires IsCString(name) && Utf8Octets(name)
    ensures Utf8Octets(Trimmed(name)) && |Trimmed(name)| < MAX_NAME_LENGTH
  {
    hide *;
    var cs := OctetsAreEncoded(name);
    TrimmedMeans(cs);
    EncodedIsOctets(Kept(cs));
    TrimmedIsShort(name);
  }

  /** The trimming of `SetClientNameImpl` and `IsNameBanned`, through a buffer. */
  method TrimName(name: seq<byte>) returns (trimmed: seq<byte>)
    requires IsCString(name)
    ensures trimmed == Trimmed(name) && IsCString(trimmed)
  {
    hide Fixed, TrimmedRight, Content;
    var at := SkipWhitespaces(name);
    NoNul(name, at);
    var aTrimmed := new byte[MAX_NAME_LENGTH];
    var _ := StrCopy(aTrimmed, name[at..], MAX_NAME_LENGTH);
    TrimRight(aTrimmed);
    var len := StrLength(aTrimmed);
    trimmed := aTrimmed[..len];
  }
}

/** Search without regard to case: `str_utf8_find_nocase`, code point by code point. */
module NoCase {
  import opened Bytes
  import opened Utf8Spec
  import opened Utf8
  import opened Utf8Truncation

  /** `str_utf8_tolower`; `lower` is its table. */
  function ToLower(lower: map<int, int>, code: int): int {
    if code in lower then lower[code] else code
  }

  /** `a` is a prefix of `b`, up to the case. */
  predicate StartsNoCase(lower: map<int, int>, a: seq<int>, b: seq<int>) {
    |a| <= |b| && forall i :: 0 <= i < |a| ==> ToLower(lower, a[i]) == ToLower(lower, b[i])
  }

  /** The cursor behind the first `k` code points. */
  function Cursor(s: seq<byte>, at: nat, k: nat): (n: nat)
    requires IsCString(s) && at <= |s| && k <= |Codes(s, at)|
    ensures at <= n <= |s| && Codes(s, n) == Codes(s, at)[k..]
    decreases k
  {
    if k == 0 then at
    else
      DecodedInside(s, at);
      Cursor(s, Decoded(s, at).1, k - 1)
  }

  lemma CursorOn(s: seq<byte>, at: nat, k: nat)
    requires IsCString(s) && at <= |s| && k < |Codes(s, at)|
    ensures var n := Cursor(s, at, k);
            n < |s| && Decoded(s, n).1 <= |s| && Cursor(s, at, k + 1) == Decoded(s, n).1
    decreases k
  {
    hide Decoded;
    DecodedInside(s, at);
    if k > 0 {
      CursorOn(s, Decoded(s, at).1, k - 1);
    }
  }

  lemma NextCode(s: seq<byte>, at: nat)
    requires IsCString(s) && at < |s|
    ensures Decoded(s, at).1 <= |s| && Codes(s, at) == [Decoded(s, at).0] + Codes(s, Decoded(s, at).1)
  {
    hide Decoded;
    DecodedInside(s, at);
  }

  lemma NoCode(s: seq<byte>, at: nat)
    requires at <= |s|
    ensures at == |s| <==> Codes(s, at) == []
  {
  }

  lemma StartsStep(lower: map<int, int>, x: int, a: seq<int>, y: int, b: seq<int>)
    ensures StartsNoCase(lower, [x] + a, [y] + b) <==> ToLower(lower, x) == ToLower(lower, y) && StartsNoCase(lower, a, b)
  {
    hide ToLower;
    var s, t := [x] + a, [y] + b;
    assert s[0] == x && t[0] == y && s[1..] == a && t[1..] == b;
    if StartsNoCase(lower, s, t) {
      assert forall i :: 0 <= i < |a| ==> a[i] == s[i + 1] && b[i] == t[i + 1];
    }
  }

  /** The needle stands in the haystack at its `k`-th code point, which is not its end. */
  predicate FoundAt(lower: map<int, int>, needle: seq<int>, haystack: seq<int>, k: int) {
    0 <= k < |haystack| && StartsNoCase(lower, needle, haystack[k..])
  }

  ghost predicate ContainsNoCase(lower: map<int, int>, haystack: seq<byte>, needle: seq<byte>) {
    var h, n := Codes(haystack, 0), Codes(needle, 0);
    exists k :: FoundAt(lower, n, h, k)
  }

  /**
   * `str_utf8_find_nocase`: the cursor at the first place where the needle stands, or -1. In
   * an empty string nothing is found, not even the empty one.
   */
  method FindNoCase(lower: map<int, int>, haystack: seq<byte>, needle: seq<byte>) returns (found: int)
    requires IsCString(haystack) && IsCString(needle)
    ensures found >= -1 && (found >= 0 <==> ContainsNoCase(lower, haystack, needle))
    ensures found >= 0 ==>
      exists k :: FoundAt(lower, Codes(needle, 0), Codes(haystack, 0), k) && found == Cursor(haystack, 0, k)
              && forall j :: 0 <= j < k ==> !FoundAt(lower, Codes(needle, 0), Codes(haystack, 0), j)
  {
    hide Decoded, ToLower, StartsNoCase, Codes;
    ghost var h, n := Codes(haystack, 0), Codes(needle, 0);
    ghost var k := 0;
    var cursor := 0;
    NoCode(haystack, 0);
    while cursor < |haystack|
      invariant 0 <= k <= |h| && 0 <= cursor <= |haystack| && cursor == Cursor(haystack, 0, k)
      invariant forall j :: 0 <= j < k ==> !FoundAt(lower, n, h, j)
      decreases |haystack| - cursor
    {
      NoCode(haystack, cursor);
      var a, b := cursor, 0;
      while a < |haystack| && b < |needle|
        invariant 0 <= a <= |haystack| && 0 <= b <= |needle|
        invariant StartsNoCase(lower, n, h[k..]) <==> StartsNoCase(lower, Codes(needle, b), Codes(haystack, a))
        decreases |needle| - b
      {
        var codeA, aNext := Decode(haystack, a);
        var codeB, bNext := Decode(needle, b);
        NextCode(haystack, a);
        NextCode(needle, b);
        StartsStep(lower, codeB, Codes(needle, bNext), codeA, Codes(haystack, aNext));
        if ToLower(lower, codeA) != ToLower(lower, codeB) {
          break;
        }
        a, b := aNext, bNext;
      }
      AtEnds(lower, haystack, a, needle, b);
      if b == |needle| {
        assert FoundAt(lower, n, h, k);
        return cursor;
      }
      var _, next := Decode(haystack, cursor);
      CursorOn(haystack, 0, k);
      cursor, k := next, k + 1;
    }
    NoCode(haystack, cursor);
    found := -1;
  }

  lemma AtEnds(lower: map<int, int>, haystack: seq<byte>, a: nat, needle: seq<byte>, b: nat)
    requires a <= |haystack| && b <= |needle|
    ensures b == |needle| ==> StartsNoCase(lower, Codes(needle, b), Codes(haystack, a))
    ensures b < |needle| && a == |haystack| ==> !StartsNoCase(lower, Codes(needle, b), Codes(haystack, a))
  {
  }
}

/** Name bans: names too close to a banned one, by the distance of their skeletons. */
module NameBans {
  import opened Bytes
  import opened Utf8Spec
  import opened ConfusableTables
  import opened Confusables
  import opened EditDistance
  import opened NoCase
  import opened WhiteSpace

  const MAX_NAME_SKELETON_LENGTH: nat := 16 * 4

  datatype Ban = Ban(name: seq<byte>, skeleton: seq<int>, distance: int, isSubstring: bool)

  /** As much of a skeleton as is kept. */
  function Front(s: seq<int>): seq<int> {
    s[..Min(|s|, MAX_NAME_SKELETON_LENGTH)]
  }

  /** The constructor of `CNameBan`; the reason is left out. */
  method MakeBan(t: Tables, ghost m: map<int, seq<int>>, name: seq<byte>, distance: int, isSubstring: bool)
    returns (ban: Ban)
    requires Represents(t, m) && NoZero(m) && IsCString(name)
    ensures ban == Ban(Cut(name), Front(SkeletonOf(m, Cut(name))), distance, isSubstring)
    ensures ValidBan(ban)
  {
    hide SkeletonOf, Represents, NoZero, Cut;
    CutNoNul(name);
    var buf := new int[MAX_NAME_SKELETON_LENGTH];
    var n := ToSkeleton(t, m, Cut(name), buf);
    ban := Ban(Cut(name), buf[..n], distance, isSubstring);
  }

  /** The ban applies: the skeletons are close enough, or the banned name is part of the name. */
  ghost predicate Applies(m: map<int, seq<int>>, lower: map<int, int>, ban: Ban, name: seq<byte>)
    requires IsCString(name)
  {
    || Dist(Front(SkeletonOf(m, Trimmed(name))), ban.skeleton) <= ban.distance
    || (ban.isSubstring && ContainsNoCase(lower, name, ban.name))
  }

  /** A ban of distance 0 is for names with the banned skeleton; whatever the distance, those are banned. */
  lemma ExactBan(m: map<int, seq<int>>, lower: map<int, int>, ban: Ban, name: seq<byte>)
    requires IsCString(name) && !ban.isSubstring
    ensures ban.distance == 0 ==> (Applies(m, lower, ban, name) <==> Front(SkeletonOf(m, Trimmed(name))) == ban.skeleton)
    ensures ban.distance >= 0 && Front(SkeletonOf(m, Trimmed(name))) == ban.skeleton ==> Applies(m, lower, ban, name)
    ensures ban.distance < 0 ==> !Applies(m, lower, ban, name)
  {
    hide Dist, SkeletonOf, Trimmed, Front;
    var s := Front(SkeletonOf(m, Trimmed(name)));
    DistIsMetric(s, ban.skeleton, s);
  }

  /** Every name that is confusable with the banned one, once both are cut to size, is banned. */
  lemma ConfusableIsBanned(m: map<int, seq<int>>, lower: map<int, int>, banned: seq<byte>, distance: nat,
                           isSubstring: bool, name: seq<byte>)
    requires IsCString(name) && SkeletonOf(m, Trimmed(name)) == SkeletonOf(m, Cut(banned))
    ensures Applies(m, lower, Ban(Cut(banned), Front(SkeletonOf(m, Cut(banned))), distance, isSubstring), name)
  {
    hide Dist, SkeletonOf, Trimmed, Front, Cut;
    var s := Front(SkeletonOf(m, Cut(banned)));
    DistIsMetric(s, s, s);
  }

  /** What the constructor makes. */
  predicate ValidBan(ban: Ban) {
    |ban.skeleton| <= MAX_NAME_SKELETON_LENGTH && IsCString(ban.name)
  }

  /**
   * `IsNameBanned`: the number of the last ban that applies, or -1. The buffer is large enough
   * for every pair of skeletons.
   */
  method IsNameBanned(t: Tables, ghost m: map<int, seq<int>>, lower: map<int, int>, name: seq<byte>, bans: seq<Ban>)
    returns (result: int)
    requires Represents(t, m) && NoZero(m) && IsCString(name)
    requires forall i :: 0 <= i < |bans| ==> ValidBan(bans[i])
    ensures -1 <= result < |bans|
    ensures result >= 0 ==> Applies(m, lower, bans[result], name)
    ensures forall i :: result < i < |bans| ==> !Applies(m, lower, bans[i], name)
  {
    hide SkeletonOf, Represents, NoZero, Trimmed, Dist, ContainsNoCase, FoundAt;
    var aTrimmed := TrimName(name);
    var aSkeleton := new int[MAX_NAME_SKELETON_LENGTH];
    var skeletonLength := ToSkeleton(t, m, aTrimmed, aSkeleton);
    var skeleton := aSkeleton[..skeletonLength];
    var aBuffer := new int[MAX_NAME_SKELETON_LENGTH * 2 + 2];
    result := -1;
    for i := 0 to |bans|
      invariant -1 <= result < i
      invariant result >= 0 ==> Applies(m, lower, bans[result], name)
      invariant forall k :: result < k < i ==> !Applies(m, lower, bans[k], name)
    {
      var ban := bans[i];
      var distance := DistBuffer(skeleton, ban.skeleton, aBuffer, 0);
      var applies := distance <= ban.distance;
      if !applies && ban.isSubstring {
        var found := FindNoCase(lower, name, ban.name);
        applies := found >= 0;
      }
      if applies {
        result := i;
      }
    }
  }
}
