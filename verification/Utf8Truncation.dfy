/**
 * Cutting strings to a buffer size: `str_copy`, `str_append` and `str_utf8_truncate` cut at
 * any byte and then repair the end with `str_utf8_fix_truncation`.
 */
module Utf8Truncation {
  import opened Bytes
  import opened Utf8Spec
  import opened Utf8

  // ----- strings in buffers

  /** The string in a buffer: the bytes before the first NUL. */
  function Content(buf: seq<byte>): (s: seq<byte>)
    ensures IsCString(s) && |s| <= |buf|
  {
    if buf == [] || buf[0] == 0 then [] else [buf[0]] + Content(buf[1..])
  }

  lemma {:induction false} ContentIs(buf: seq<byte>, s: seq<byte>)
    requires |s| < |buf| && buf[..|s|] == s && buf[|s|] == 0 && IsCString(s)
    ensures Content(buf) == s
    decreases |s|
  {
    if s != [] {
      assert s[0] in s;
      assert buf[1..][..|s| - 1] == s[1..];
      ContentIs(buf[1..], s[1..]);
    }
  }

  lemma {:induction false} ContentEnds(buf: seq<byte>)
    requires 0 in buf
    ensures var n := |Content(buf)|; n < |buf| && buf[..n] == Content(buf) && buf[n] == 0
    decreases |buf|
  {
    if buf[0] != 0 {
      assert buf == [buf[0]] + buf[1..];
      ContentEnds(buf[1..]);
    }
  }

  // ----- the repair

  predicate IsStart(b: byte) {
    !(0x80 <= b <= 0xBF)
  }

  /** The last start byte before the cursor, or 0. */
  function RewindTo(s: seq<byte>, cursor: nat): (r: nat)
    requires cursor <= |s|
    ensures r <= cursor && (cursor > 0 ==> r < cursor)
  {
    if cursor == 0 then 0
    else if IsStart(s[cursor - 1]) then cursor - 1
    else RewindTo(s, cursor - 1)
  }

  /** The string without an undecodable end. */
  function Fixed(s: seq<byte>): seq<byte> {
    if s == [] then s
    else
      var i := RewindTo(s, |s|);
      if Decoded(s, i).0 == -1 then s[..i] else s
  }

  method Rewind(s: seq<byte>, cursor: nat) returns (r: nat)
    requires cursor <= |s|
    ensures r == RewindTo(s, cursor)
  {
    r := cursor;
    while r > 0
      invariant r <= cursor && RewindTo(s, r) == RewindTo(s, cursor)
    {
      r := r - 1;
      if IsStart(s[r]) {
        break;
      }
    }
  }

  method StrLength(str: array<byte>) returns (len: nat)
    requires 0 in str[..]
    ensures len == |Content(str[..])|
    ensures len < str.Length && str[..len] == Content(str[..]) && str[len] == 0
  {
    ContentEnds(str[..]);
    ghost var n := |Content(str[..])|;
    len := 0;
    while str[len] != 0
      invariant len <= n && 0 !in str[..len]
      decreases n - len
    {
      assert str[..len + 1] == str[..len] + [str[len]];
      len := len + 1;
    }
    ContentIs(str[..], str[..len]);
  }

  method FixTruncation(str: array<byte>) returns (len: nat)
    requires 0 in str[..]
    modifies str
    ensures Content(str[..]) == Fixed(old(Content(str[..]))) && len == |Content(str[..])|
    ensures 0 in str[..]
  {
    hide Decoded;
    len := StrLength(str);
    ghost var s := str[..len];
    if len > 0 {
      var last := Rewind(str[..len], len);
      var code, _ := Decode(str[..len], last);
      if code == -1 {
        str[last] := 0;
        len := last;
        assert str[..last] == s[..last];
        ContentIs(str[..], s[..last]);
      }
    }
    assert str[len] == 0;
  }

  // ----- the longest prefix of whole characters

  /** How many characters of `cs`, from the first on, fit into `k` bytes. */
  function FitCount(cs: seq<int>, k: int): (m: nat)
    requires AllChars(cs)
    ensures m <= |cs|
  {
    if cs == [] || |Encode(cs[0])| > k then 0 else 1 + FitCount(cs[1..], k - |Encode(cs[0])|)
  }

  lemma {:induction false} EncodeAllAppend(a: seq<int>, b: seq<int>)
    requires AllChars(a) && AllChars(b)
    ensures EncodeAll(a + b) == EncodeAll(a) + EncodeAll(b)
    decreases |a|
  {
    hide Encode;
    if a == [] {
      assert a + b == b;
    } else {
      assert (a + b)[1..] == a[1..] + b;
      EncodeAllAppend(a[1..], b);
    }
  }

  /** `FitCount` characters fit, and one more does not. */
  lemma {:induction false} FitIsLargest(cs: seq<int>, k: nat)
    requires AllChars(cs)
    ensures var m := FitCount(cs, k);
            && |EncodeAll(cs[..m])| <= k
            && (m < |cs| ==> |EncodeAll(cs[..m + 1])| > k)
    decreases |cs|
  {
    hide Encode;
    if cs != [] {
      var n := |Encode(cs[0])|;
      if n <= k {
        var m := FitCount(cs[1..], k - n);
        FitIsLargest(cs[1..], k - n);
        assert cs[..m + 1][1..] == cs[1..][..m];
        if m + 1 < |cs| { assert cs[..m + 2][1..] == cs[1..][..m + 1]; }
      } else {
        assert cs[..1][1..] == [];
        assert EncodeAll(cs[..1]) == Encode(cs[0]) + [];
      }
    }
  }

  /** Cutting at byte `k` leaves whole characters and a proper prefix of the next one. */
  lemma {:induction false} CutAt(cs: seq<int>, k: nat) returns (p: seq<byte>)
    requires AllChars(cs) && k <= |EncodeAll(cs)|
    ensures var m := FitCount(cs, k);
            && EncodeAll(cs)[..k] == EncodeAll(cs[..m]) + p
            && (p != [] ==> m < |cs| && p < Encode(cs[m]))
    decreases |cs|
  {
    hide Encode;
    p := [];
    if cs != [] {
      var b := Encode(cs[0]);
      if |b| > k {
        p := b[..k];
      } else {
        var m := FitCount(cs[1..], k - |b|);
        p := CutAt(cs[1..], k - |b|);
        assert cs[..m + 1][1..] == cs[1..][..m];
        assert EncodeAll(cs)[..k] == b + EncodeAll(cs[1..])[..k - |b|];
      }
    }
  }

  lemma EncodeStarts(c: int)
    requires IsChar(c)
    ensures IsStart(Encode(c)[0])
    ensures forall i :: 1 <= i < |Encode(c)| ==> !IsStart(Encode(c)[i])
  {
  }

  lemma {:induction false} RewindOver(f: seq<byte>, p: seq<byte>)
    requires p != [] && IsStart(p[0]) && forall i :: 1 <= i < |p| ==> !IsStart(p[i])
    ensures RewindTo(f + p, |f + p|) == |f|
  {
    RewindWithin(f, p, |p|);
  }

  lemma {:induction false} RewindWithin(f: seq<byte>, p: seq<byte>, n: nat)
    requires 1 <= n <= |p| && IsStart(p[0]) && forall i :: 1 <= i < |p| ==> !IsStart(p[i])
    ensures RewindTo(f + p, |f| + n) == |f|
    decreases n
  {
    assert (f + p)[|f| + n - 1] == p[n - 1];
    if n > 1 { RewindWithin(f, p, n - 1); }
  }

  /** A proper prefix of an encoding does not decode. */
  lemma IncompleteFails(f: seq<byte>, p: seq<byte>, c: int)
    requires IsChar(c) && p != [] && p < Encode(c) && IsCString(f + p)
    ensures Decoded(f + p, |f|).0 == -1
  {
    hide Decoded, Encode, Utf8Char;
    var s := f + p;
    var (code, next) := Decoded(s, |f|);
    DecodedFromChar(s, |f|);
    if code != -1 {
      var b := Encode(c);
      var n := next - |f|;
      assert s[|f|..next] == b[..n];
      CodeEncode(c);
      assert b[..|b|] == b;
      OneChar(b, n, |b|);
    }
  }

  lemma FixedWhole(cs: seq<int>)
    requires AllChars(cs)
    ensures Fixed(EncodeAll(cs)) == EncodeAll(cs)
  {
    hide Decoded, Encode;
    if cs != [] {
      var front, c := cs[..|cs| - 1], cs[|cs| - 1];
      assert cs == front + [c];
      EncodeAllAppend(front, [c]);
      assert EncodeAll([c]) == Encode(c) + [];
      var f, b := EncodeAll(front), Encode(c);
      assert EncodeAll([c]) == b + [];
      EncodeStarts(c);
      RewindOver(f, b);
      assert (f + b)[|f|..] == b;
      DecodesEncoded(f + b, |f|, c);
      assert EncodeAll(cs) == f + b;
    }
  }

  /** The repair of a valid string cut anywhere leaves exactly its longest fitting prefix. */
  lemma FixedIsLongestFit(cs: seq<int>, k: nat)
    requires AllChars(cs)
    ensures Fixed(EncodeAll(cs)[..Min(|EncodeAll(cs)|, k)]) == EncodeAll(cs[..FitCount(cs, k)])
  {
    hide Decoded, Encode;
    var s := EncodeAll(cs);
    if k >= |s| {
      FitAll(cs, k);
      assert s[..|s|] == s && cs[..|cs|] == cs;
      FixedWhole(cs);
    } else {
      var m := FitCount(cs, k);
      var p := CutAt(cs, k);
      var f := EncodeAll(cs[..m]);
      if p == [] {
        assert f + p == f;
        FixedWhole(cs[..m]);
      } else {
        EncodeStarts(cs[m]);
        RewindOver(f, p);
        EncodedIsOctets(cs);
        assert IsCString(f + p) by { assert forall i :: 0 <= i < k ==> s[..k][i] == s[i]; }
        IncompleteFails(f, p, cs[m]);
        assert (f + p)[..|f|] == f;
      }
    }
  }

  lemma {:induction false} FitAll(cs: seq<int>, k: nat)
    requires AllChars(cs) && k >= |EncodeAll(cs)|
    ensures FitCount(cs, k) == |cs|
    decreases |cs|
  {
    hide Encode;
    if cs != [] { FitAll(cs[1..], k - |Encode(cs[0])|); }
  }

  // ----- the string functions

  /** How much `strncat` copies when `size` bytes are allowed; for size 0, all of it. */
  function Copied(src: seq<byte>, size: nat): (n: nat)
    ensures n <= |src|
  {
    if size == 0 then |src| else Min(|src|, size - 1)
  }

  /** `str_copy`. */
  method StrCopy(dst: array<byte>, src: seq<byte>, size: nat) returns (len: nat)
    requires Copied(src, size) < dst.Length && IsCString(src)
    modifies dst
    ensures Content(dst[..]) == Fixed(src[..Copied(src, size)]) && len == |Content(dst[..])|
    ensures 0 in dst[..]
  {
    hide Fixed;
    var n := Copied(src, size);
    var end := Append(dst, 0, src[..n]);
    dst[n] := 0;
    assert dst[..n] == src[..n];
    ContentIs(dst[..], src[..n]);
    assert dst[n] == 0;
    len := FixTruncation(dst);
  }

  /** `str_append`: one byte at a time behind the string, as far as the size allows. */
  method StrAppend(dst: array<byte>, src: seq<byte>, size: nat)
    requires 0 in dst[..] && 1 <= size <= dst.Length && IsCString(src)
    modifies dst
    ensures var all := old(Content(dst[..])) + src;
            Content(dst[..]) == Fixed(all[..Min(|all|, size - 1)])
  {
    hide Fixed, Content;
    var s := StrLength(dst);
    ghost var all := dst[..s] + src;
    ghost var start := s;
    var i := 0;
    while s < size
      invariant 0 <= i <= |src| && s == start + i && start < dst.Length
      invariant s <= dst.Length && dst[..s] == all[..s]
      invariant s >= size ==> i == 0 || s == size
    {
      dst[s] := ByteAt(src, i);
      if i == |src| {
        break;
      }
      assert all[s] == src[i];
      s := s + 1;
      i := i + 1;
    }
    assert s < size ==> s == |all| && dst[s] == 0;
    dst[size - 1] := 0;
    ghost var n := Min(|all|, size - 1);
    assert dst[..n] == all[..n];
    assert dst[n] == 0;
    ContentIs(dst[..], all[..n]);
    var _ := FixTruncation(dst);
  }

  /** The byte at which `str_utf8_truncate` cuts; `left` more characters are allowed. */
  function CutPoint(s: seq<byte>, size: nat, cursor: nat, left: int): (n: nat)
    requires cursor <= |s| && IsCString(s)
    ensures n <= |s|
    decreases |s| - cursor
  {
    if left <= 0 || Decoded(s, cursor).0 == 0 || Decoded(s, cursor).1 >= size then cursor
    else
      DecodedInside(s, cursor);
      CutPoint(s, size, Decoded(s, cursor).1, left - 1)
  }

  lemma DecodedInside(s: seq<byte>, at: nat)
    requires IsCString(s) && at <= |s|
    ensures Decoded(s, at).0 != 0 ==> at < Decoded(s, at).1 <= |s|
    ensures Decoded(s, at).0 == 0 <==> at == |s|
  {
    CheckStep(s, at);
  }

  /**
   * `str_utf8_truncate`: at most `limit` characters and fewer than `size` bytes. For a negative
   * limit or size the whole string is copied, which needs the room.
   */
  method Truncate(dst: array<byte>, size: int, src: seq<byte>, limit: int)
    requires IsCString(src)
    requires if limit >= 0 && size >= 1 then size <= dst.Length else |src| < dst.Length
    modifies dst
    ensures limit >= 0 && size >= 1 ==> Content(dst[..]) == Fixed(src[..CutPoint(src, size, 0, limit)])
    ensures limit < 0 || size < 1 ==> Content(dst[..]) == Fixed(src)
  {
    hide Fixed, Content, Decoded;
    var end := -1;
    var cursor, pos := 0, 0;
    while pos <= limit && cursor < size && end != cursor
      invariant 0 <= pos && 0 <= cursor <= |src| && -1 <= end <= cursor
      invariant end == cursor ==> cursor == 0 && pos == 0 && end == -1
      invariant end == -1 ==> cursor == 0 && pos == 0
      invariant limit < 0 || size < 1 ==> end == -1
      invariant limit >= 0 && size >= 1 ==>
        && end < size
        && if pos <= limit && cursor < size then CutPoint(src, size, cursor, limit - pos) == CutPoint(src, size, 0, limit)
           else end == CutPoint(src, size, 0, limit)
      decreases |src| - cursor, pos == 0
    {
      end := cursor;
      var code, next := Decode(src, cursor);
      DecodedInside(src, cursor);
      cursor := next;
      if code == 0 {
        break;
      }
      pos := pos + 1;
    }
    assert limit >= 0 && size >= 1 ==> end == CutPoint(src, size, 0, limit);
    assert src[..|src|] == src;
    var _ := StrCopy(dst, src, end + 1);
  }

  lemma {:induction false} CutPointFits(f: seq<byte>, cs: seq<int>, size: int, limit: nat)
    requires AllChars(cs) && IsCString(f + EncodeAll(cs)) && |f| < size
    ensures CutPoint(f + EncodeAll(cs), size, |f|, limit)
            == |f| + |EncodeAll(cs[..Min(limit, FitCount(cs, size - 1 - |f|))])|
    decreases |cs|
  {
    hide Decoded, Encode;
    var s := f + EncodeAll(cs);
    if cs == [] {
      DecodedInside(s, |f|);
    } else if limit > 0 {
      var b := Encode(cs[0]);
      assert s[|f|..] == b + EncodeAll(cs[1..]);
      DecodesEncoded(s, |f|, cs[0]);
      if |f| + |b| < size {
        assert s == (f + b) + EncodeAll(cs[1..]);
        CutPointFits(f + b, cs[1..], size, limit - 1);
        var n := Min(limit - 1, FitCount(cs[1..], size - 1 - |f + b|));
        assert cs[..n + 1][1..] == cs[1..][..n];
        assert FitCount(cs, size - 1 - |f|) == 1 + FitCount(cs[1..], size - 1 - |f + b|);
      } else {
        assert FitCount(cs, size - 1 - |f|) == 0;
      }
    }
  }

  lemma AppendsWholeChars(cs: seq<int>, ds: seq<int>, size: nat)
    requires AllChars(cs) && AllChars(ds) && size >= 1
    ensures var all := EncodeAll(cs) + EncodeAll(ds);
            Fixed(all[..Min(|all|, size - 1)]) == EncodeAll((cs + ds)[..FitCount(cs + ds, size - 1)])
  {
    hide Fixed, Encode;
    EncodeAllAppend(cs, ds);
    FixedIsLongestFit(cs + ds, size - 1);
  }

  lemma TruncatesWholeChars(cs: seq<int>, size: nat, limit: nat)
    requires AllChars(cs) && size >= 1
    ensures var s, m := EncodeAll(cs), Min(limit, FitCount(cs, size - 1));
            && IsCString(s)
            && Fixed(s[..CutPoint(s, size, 0, limit)]) == EncodeAll(cs[..m])
  {
    hide Decoded, Encode, Fixed;
    var s, m := EncodeAll(cs), Min(limit, FitCount(cs, size - 1));
    EncodedIsOctets(cs);
    var n := CutPoint(s, size, 0, limit);
    assert n == |EncodeAll(cs[..m])| by {
      assert [] + s == s;
      CutPointFits([], cs, size, limit);
    }
    assert s[..n] == EncodeAll(cs[..m]) by {
      EncodeAllAppend(cs[..m], cs[m..]);
      assert cs[..m] + cs[m..] == cs;
    }
    FixedWhole(cs[..m]);
  }
}
