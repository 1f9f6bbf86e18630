/**
 * UTF-8 by section 3 (encoding) and section 4 (syntax of byte sequences) of RFC 3629.
 */
module Utf8Spec {
  import opened Bytes

  /** A NUL-terminated string: its bytes, without the terminator. */
  predicate IsCString(s: seq<byte>) {
    0 !in s
  }

  /** What is stored at index `i` of the string; the terminator follows the last byte. */
  function ByteAt(s: seq<byte>, i: nat): byte
    requires i <= |s|
  {
    if i < |s| then s[i] else 0
  }

  /** A Unicode scalar value other than the terminator. */
  predicate IsChar(c: int) {
    0 < c <= 0x10FFFF && !(0xD800 <= c <= 0xDFFF)
  }

  function Encode(c: int): (b: seq<byte>)
    requires 0 <= c <= 0x10FFFF
    ensures 1 <= |b| <= 4
  {
    if c <= 0x7F then [c]
    else if c <= 0x7FF then [0xC0 + c / 0x40, 0x80 + c % 0x40]
    else if c <= 0xFFFF then [0xE0 + c / 0x1000, 0x80 + c / 0x40 % 0x40, 0x80 + c % 0x40]
    else [0xF0 + c / 0x4_0000, 0x80 + c / 0x1000 % 0x40, 0x80 + c / 0x40 % 0x40, 0x80 + c % 0x40]
  }

  predicate AllChars(cs: seq<int>) {
    forall i :: 0 <= i < |cs| ==> IsChar(cs[i])
  }

  function EncodeAll(cs: seq<int>): seq<byte>
    requires AllChars(cs)
  {
    if cs == [] then [] else Encode(cs[0]) + EncodeAll(cs[1..])
  }

  // ----- the grammar

  predicate Tail(b: byte) {
    0x80 <= b <= 0xBF
  }

  /** UTF8-char, without the NUL octet. */
  predicate Utf8Char(b: seq<byte>) {
    match |b|
    case 1 => 0x01 <= b[0] <= 0x7F
    case 2 => 0xC2 <= b[0] <= 0xDF && Tail(b[1])
    case 3 =>
      && Tail(b[2])
      && (|| (b[0] == 0xE0 && 0xA0 <= b[1] <= 0xBF)
          || (0xE1 <= b[0] <= 0xEC && Tail(b[1]))
          || (b[0] == 0xED && 0x80 <= b[1] <= 0x9F)
          || (0xEE <= b[0] <= 0xEF && Tail(b[1])))
    case 4 =>
      && Tail(b[2]) && Tail(b[3])
      && (|| (b[0] == 0xF0 && 0x90 <= b[1] <= 0xBF)
          || (0xF1 <= b[0] <= 0xF3 && Tail(b[1]))
          || (b[0] == 0xF4 && 0x80 <= b[1] <= 0x8F))
    case _ => false
  }

  /** UTF8-octets: any number of characters. */
  ghost predicate Utf8Octets(s: seq<byte>)
    decreases |s|
  {
    s == [] || exists n :: 1 <= n <= |s| && Utf8Char(s[..n]) && Utf8Octets(s[n..])
  }

  lemma EncodeIsUtf8Char(c: int)
    requires IsChar(c)
    ensures Utf8Char(Encode(c))
  {
  }

  /** The number whose bits the payload bits of the bytes make up. */
  function CodeOf(b: seq<byte>): int {
    match |b|
    case 1 => b[0]
    case 2 => (b[0] as int - 0xC0) * 0x40 + (b[1] as int - 0x80)
    case 3 => (b[0] as int - 0xE0) * 0x1000 + (b[1] as int - 0x80) * 0x40 + (b[2] as int - 0x80)
    case 4 => (b[0] as int - 0xF0) * 0x4_0000 + (b[1] as int - 0x80) * 0x1000 + (b[2] as int - 0x80) * 0x40 + (b[3] as int - 0x80)
    case _ => 0
  }

  lemma CodeIsChar(b: seq<byte>)
    requires Utf8Char(b)
    ensures IsChar(CodeOf(b))
  {
  }

  /** Six bits at a time: the pieces of a number put together, and taken apart again. */
  lemma Pieces(x: int, y: int, z: int, w: int)
    requires 0 <= y < 0x40 && 0 <= z < 0x40 && 0 <= w < 0x40
    ensures var c := x * 0x4_0000 + y * 0x1000 + z * 0x40 + w;
            && c / 0x4_0000 == x && c / 0x1000 % 0x40 == y && c / 0x40 % 0x40 == z && c % 0x40 == w
            && c / 0x1000 == x * 0x40 + y && c / 0x40 == x * 0x1000 + y * 0x40 + z
  {
    var c := x * 0x4_0000 + y * 0x1000 + z * 0x40 + w;
    assert c / 0x40 == x * 0x1000 + y * 0x40 + z;
    assert c / 0x1000 == x * 0x40 + y;
    assert c / 0x4_0000 == x;
  }

  lemma EncodeTwo(x: int, y: int)
    requires 2 <= x < 0x20 && 0 <= y < 0x40
    ensures Encode(x * 0x40 + y) == [0xC0 + x, 0x80 + y]
  {
    Pieces(0, 0, x, y);
  }

  lemma EncodeThree(x: int, y: int, z: int)
    requires 0 <= x < 0x10 && 0 <= y < 0x40 && 0 <= z < 0x40 && (x > 0 || y >= 0x20)
    ensures Encode(x * 0x1000 + y * 0x40 + z) == [0xE0 + x, 0x80 + y, 0x80 + z]
  {
    Pieces(0, x, y, z);
  }

  lemma EncodeFour(x: int, y: int, z: int, w: int)
    requires 0 <= x <= 4 && 0 <= y < 0x40 && 0 <= z < 0x40 && 0 <= w < 0x40
    requires (x > 0 || y >= 0x10) && (x < 4 || y < 0x10)
    ensures Encode(x * 0x4_0000 + y * 0x1000 + z * 0x40 + w) == [0xF0 + x, 0x80 + y, 0x80 + z, 0x80 + w]
  {
    Pieces(x, y, z, w);
  }

  lemma EncodeCode(b: seq<byte>)
    requires Utf8Char(b)
    ensures IsChar(CodeOf(b)) && Encode(CodeOf(b)) == b
  {
    CodeIsChar(b);
    hide Encode;
    match |b|
    case 1 => EncodeOne(b[0]);
    case 2 => EncodeTwo(b[0] as int - 0xC0, b[1] as int - 0x80);
    case 3 => EncodeThree(b[0] as int - 0xE0, b[1] as int - 0x80, b[2] as int - 0x80);
    case _ => EncodeFour(b[0] as int - 0xF0, b[1] as int - 0x80, b[2] as int - 0x80, b[3] as int - 0x80);
  }

  lemma EncodeOne(x: int)
    requires 0 <= x <= 0x7F
    ensures Encode(x) == [x]
  {
  }

  lemma Recompose(c: nat)
    ensures c == c / 0x4_0000 * 0x4_0000 + c / 0x1000 % 0x40 * 0x1000 + c / 0x40 % 0x40 * 0x40 + c % 0x40
    ensures c < 0x1_0000 ==> c == c / 0x1000 * 0x1000 + c / 0x40 % 0x40 * 0x40 + c % 0x40
    ensures c == c / 0x40 * 0x40 + c % 0x40
  {
    var q := c / 0x40;
    var r := q / 0x40;
    assert c / 0x1000 == r;
    assert c / 0x4_0000 == r / 0x40;
  }

  lemma CodeEncode(c: int)
    requires IsChar(c)
    ensures Utf8Char(Encode(c)) && CodeOf(Encode(c)) == c
  {
    EncodeIsUtf8Char(c);
    Recompose(c);
  }
}

/**
 * The UTF-8 functions of system.cpp on NUL-terminated strings. A cursor is an index into the
 * string; reading it is only possible up to the terminator.
 */
module Utf8 {
  import opened Bytes
  import opened Utf8Spec

  // ----- what one call of str_utf8_decode means

  /** How many continuation bytes a lead byte asks for; -1 if it cannot start a character. */
  function Needed(lead: byte): int {
    if lead <= 0x7F then 0
    else if 0xC2 <= lead <= 0xDF then 1
    else if 0xE0 <= lead <= 0xEF then 2
    else if 0xF0 <= lead <= 0xF4 then 3
    else -1
  }

  function Lower(lead: byte, seen: nat): int {
    if seen > 0 then 0x80 else if lead == 0xE0 then 0xA0 else if lead == 0xF0 then 0x90 else 0x80
  }

  function Upper(lead: byte, seen: nat): int {
    if seen > 0 then 0xBF else if lead == 0xED then 0x9F else if lead == 0xF4 then 0x8F else 0xBF
  }

  /** How many of the continuation bytes after `at` fit, from the `seen`-th on. */
  function Fitting(s: seq<byte>, at: nat, needed: int, seen: nat): (n: nat)
    requires at + seen < |s|
    ensures n >= seen && at + n < |s| && (seen <= needed ==> n <= needed)
    decreases needed - seen
  {
    if seen < needed && Lower(s[at], seen) <= ByteAt(s, at + 1 + seen) <= Upper(s[at], seen)
    then Fitting(s, at, needed, seen + 1)
    else seen
  }

  /**
   * The decoded value and the new cursor: 0 at the terminator, the character if one starts at
   * the cursor, and otherwise -1 behind the longest piece that could start one.
   */
  function Decoded(s: seq<byte>, at: nat): (r: (int, nat))
    requires at <= |s|
    ensures at < r.1 <= at + 4
  {
    if at == |s| then (0, at + 1)
    else
      var needed := Needed(s[at]);
      if needed < 0 then (-1, at + 1)
      else
        var n := Fitting(s, at, needed, 0);
        if n == needed then (CodeOf(s[at..at + 1 + n]), at + 1 + n) else (-1, at + 1 + n)
  }

  function Scale(k: int): int {
    if k == 0 then 1 else if k == 1 then 0x40 else if k == 2 then 0x1000 else 0x4_0000
  }

  /** The value after the lead byte and `seen` continuation bytes, shifted into place. */
  function Partial(s: seq<byte>, at: nat, needed: int, seen: nat): int
    requires at + seen < |s|
  {
    var lead := s[at] as int - (if needed == 1 then 0xC0 else if needed == 2 then 0xE0 else 0xF0);
    lead * Scale(needed)
    + (if seen >= 1 then (s[at + 1] as int - 0x80) * Scale(needed - 1) else 0)
    + (if seen >= 2 then (s[at + 2] as int - 0x80) * Scale(needed - 2) else 0)
    + (if seen >= 3 then (s[at + 3] as int - 0x80) * Scale(needed - 3) else 0)
  }

  /** A first byte that is the terminator, a character of its own, or no start. */
  lemma AtLead(s: seq<byte>, at: nat)
    requires IsCString(s) && at <= |s|
    ensures at == |s| ==> Decoded(s, at) == (0, at + 1)
    ensures at < |s| && Needed(s[at]) == 0 ==> Decoded(s, at) == (s[at] as int, at + 1)
    ensures at < |s| && Needed(s[at]) < 0 ==> Decoded(s, at) == (-1, at + 1)
  {
    if at < |s| && Needed(s[at]) == 0 { assert s[at..at + 1] == [s[at]]; }
  }

  /** A continuation byte that does not fit ends the piece before it. */
  lemma AtMisfit(s: seq<byte>, at: nat, needed: int, seen: nat)
    requires IsCString(s) && at + seen < |s| && needed == Needed(s[at]) && seen < needed
    requires Fitting(s, at, needed, seen) == Fitting(s, at, needed, 0)
    requires !(Lower(s[at], seen) <= ByteAt(s, at + 1 + seen) <= Upper(s[at], seen))
    ensures Decoded(s, at) == (-1, at + 1 + seen)
  {
  }

  /** One that fits carries six more bits, and the last one ends the character. */
  lemma AtFit(s: seq<byte>, at: nat, needed: int, seen: nat)
    requires IsCString(s) && at + seen < |s| && needed == Needed(s[at]) && seen < needed
    requires Fitting(s, at, needed, seen) == Fitting(s, at, needed, 0)
    requires Lower(s[at], seen) <= ByteAt(s, at + 1 + seen) <= Upper(s[at], seen)
    ensures at + 1 + seen < |s| && Fitting(s, at, needed, seen + 1) == Fitting(s, at, needed, 0)
    ensures Partial(s, at, needed, seen + 1)
            == Partial(s, at, needed, seen) + (s[at + 1 + seen] as int - 0x80) * Scale(needed - seen - 1)
    ensures seen + 1 == needed ==> Decoded(s, at) == (Partial(s, at, needed, needed), at + 1 + needed)
  {
    if seen + 1 == needed { Completes(s, at, needed, seen + 1); }
  }

  lemma Completes(s: seq<byte>, at: nat, needed: int, seen: nat)
    requires at + seen < |s| && needed == Needed(s[at]) && seen == needed > 0
    requires Fitting(s, at, needed, 0) == needed
    ensures Decoded(s, at) == (Partial(s, at, needed, needed), at + 1 + needed)
  {
    hide Fitting;
    var b := s[at..at + 1 + needed];
    assert forall i :: 0 <= i <= needed ==> b[i] == s[at + i];
  }

  /** `str_utf8_decode`: the state machine of the WHATWG encoding standard. */
  method Decode(s: seq<byte>, at: nat) returns (code: int, next: nat)
    requires IsCString(s) && at <= |s|
    ensures (code, next) == Decoded(s, at)
  {
    hide Decoded, Partial, Fitting, Scale;
    var lower, upper := 0x80, 0xBF;
    var seen, needed := 0, 0;
    code, next := 0, at;
    AtLead(s, at);
    while true
      invariant 0 <= seen && at <= next <= |s| && 0 <= needed <= 3
      invariant needed == 0 ==> next == at && seen == 0 && code == 0 && lower == 0x80 && upper == 0xBF
      invariant needed > 0 ==>
                  && next == at + 1 + seen && at < |s| && needed == Needed(s[at]) && seen < needed
                  && lower == Lower(s[at], seen) && upper == Upper(s[at], seen)
                  && Fitting(s, at, needed, seen) == Fitting(s, at, needed, 0)
                  && code == Partial(s, at, needed, seen)
      decreases if needed == 0 then 4 else needed - seen
    {
      var b := ByteAt(s, next);
      next := next + 1;
      if needed == 0 {
        if b <= 0x7F {
          code := b;
          return;
        } else if 0xC2 <= b <= 0xDF {
          needed := 1;
          code := b as int - 0xC0;
        } else if 0xE0 <= b <= 0xEF {
          if b == 0xE0 { lower := 0xA0; }
          if b == 0xED { upper := 0x9F; }
          needed := 2;
          code := b as int - 0xE0;
        } else if 0xF0 <= b <= 0xF4 {
          if b == 0xF0 { lower := 0x90; }
          if b == 0xF4 { upper := 0x8F; }
          needed := 3;
          code := b as int - 0xF0;
        } else {
          code := -1;
          return;
        }
        LeadPartial(s, at, needed);
        code := code * Scale(needed);
        continue;
      }
      if !(lower <= b <= upper) {
        AtMisfit(s, at, needed, seen);
        next := next - 1;
        code := -1;
        return;
      }
      AtFit(s, at, needed, seen);
      lower, upper := 0x80, 0xBF;
      seen := seen + 1;
      code := code + (b as int - 0x80) * Scale(needed - seen);
      if seen == needed {
        return;
      }
    }
  }

  lemma LeadPartial(s: seq<byte>, at: nat, needed: int)
    requires at < |s|
    ensures Partial(s, at, needed, 0)
            == (s[at] as int - (if needed == 1 then 0xC0 else if needed == 2 then 0xE0 else 0xF0)) * Scale(needed)
  {
  }

  // ----- decoding and the grammar

  /** A character of the grammar at the cursor is decoded to its value. */
  lemma DecodesChar(s: seq<byte>, at: nat, n: nat)
    requires at + n <= |s| && Utf8Char(s[at..at + n])
    ensures Decoded(s, at) == (CodeOf(s[at..at + n]), at + n)
    ensures IsChar(CodeOf(s[at..at + n]))
  {
    hide CodeOf;
    var b := s[at..at + n];
    CodeIsChar(b);
    assert forall i :: 0 <= i < n ==> b[i] == s[at + i];
  }

  /** A positive value is decoded only from a character of the grammar. */
  lemma DecodedFromChar(s: seq<byte>, at: nat)
    requires IsCString(s) && at < |s|
    ensures var (code, next) := Decoded(s, at);
            && next <= |s|
            && (code == -1 || (Utf8Char(s[at..next]) && code == CodeOf(s[at..next])))
  {
    hide CodeOf;
    var (code, next) := Decoded(s, at);
    if code != -1 {
      var b := s[at..next];
      assert forall i :: 0 <= i < |b| ==> b[i] == s[at + i];
    }
  }

  /** At most one prefix of a string is a character. */
  lemma OneChar(s: seq<byte>, m: nat, n: nat)
    requires m <= |s| && n <= |s| && Utf8Char(s[..m]) && Utf8Char(s[..n])
    ensures m == n
  {
    DecodesChar(s, 0, m);
    DecodesChar(s, 0, n);
  }

  lemma OctetsStep(s: seq<byte>, n: nat)
    requires n <= |s| && Utf8Char(s[..n])
    ensures Utf8Octets(s) <==> Utf8Octets(s[n..])
  {
    assert n >= 1;
    hide Utf8Char;
    if Utf8Octets(s) {
      var m :| 1 <= m <= |s| && Utf8Char(s[..m]) && Utf8Octets(s[m..]);
      OneChar(s, m, n);
    }
  }

  /** `str_utf8_check` accepts exactly the octet sequences of the grammar. */
  method Check(s: seq<byte>) returns (ok: bool)
    requires IsCString(s)
    ensures ok <==> Utf8Octets(s)
  {
    hide Decoded, Utf8Char;
    var cursor := 0;
    while true
      invariant 0 <= cursor <= |s|
      invariant Utf8Octets(s) <==> Utf8Octets(s[cursor..])
      decreases |s| - cursor
    {
      var code, next := Decode(s, cursor);
      CheckStep(s, cursor);
      cursor := next;
      if code == 0 {
        return true;
      }
      if code == -1 {
        return false;
      }
    }
  }

  lemma CheckStep(s: seq<byte>, at: nat)
    requires IsCString(s) && at <= |s|
    ensures var (code, next) := Decoded(s, at);
            && at < next
            && (code == 0 <==> at == |s|)
            && (code == -1 ==> !Utf8Octets(s[at..]))
            && (code > 0 ==> next <= |s| && (Utf8Octets(s[at..]) <==> Utf8Octets(s[next..])))
            && code >= -1
  {
    hide CodeOf, Fitting;
    if at < |s| {
      var (code, next) := Decoded(s, at);
      var rest := s[at..];
      DecodedFromChar(s, at);
      if code == -1 {
        if Utf8Octets(rest) {
          var m :| 1 <= m <= |rest| && Utf8Char(rest[..m]) && Utf8Octets(rest[m..]);
          assert rest[..m] == s[at..at + m];
          DecodesChar(s, at, m);
        }
      } else {
        assert rest[..next - at] == s[at..next];
        assert rest[next - at..] == s[next..];
        CodeIsChar(s[at..next]);
        OctetsStep(rest, next - at);
      }
    }
  }

  // ----- round trips

  /** What repeated decoding gives from the cursor to the terminator; -1 marks an error. */
  function Codes(s: seq<byte>, at: nat): seq<int>
    requires at <= |s|
    decreases |s| - at
  {
    if at == |s| then []
    else
      var (code, next) := Decoded(s, at);
      [code] + (if next <= |s| then Codes(s, next) else [])
  }

  /** How many bytes are written for a number. */
  function EncodedSize(chr: int): nat {
    if chr < 0 then 1 else if chr > 0x10FFFF then 0 else |Encode(chr)|
  }

  /** The bytes that the masks and shifts make are those of the encoding. */
  lemma EncodedBytes(chr: int)
    requires 0 <= chr <= 0x10FFFF
    ensures chr <= 0x7F ==> Encode(chr) == [chr % 256]
    ensures 0x7F < chr <= 0x7FF ==> Encode(chr) == [0xC0 + chr / 0x40 % 0x20, 0x80 + chr % 0x40]
    ensures 0x7FF < chr <= 0xFFFF ==>
      Encode(chr) == [0xE0 + chr / 0x1000 % 0x10, 0x80 + chr / 0x40 % 0x40, 0x80 + chr % 0x40]
    ensures 0xFFFF < chr ==>
      Encode(chr) == [0xF0 + chr / 0x4_0000 % 0x8, 0x80 + chr / 0x1000 % 0x40, 0x80 + chr / 0x40 % 0x40, 0x80 + chr % 0x40]
  {
  }

  /** `str_utf8_encode`; a number above the code space writes nothing. */
  method EncodeInto(ptr: array<byte>, chr: int) returns (n: nat)
    requires ptr.Length >= EncodedSize(chr)
    modifies ptr
    ensures n == EncodedSize(chr) && ptr[n..] == old(ptr[n..])
    ensures 0 <= chr <= 0x10FFFF ==> ptr[..n] == Encode(chr)
    ensures chr < 0 ==> ptr[0] == chr % 256
  {
    if 0 <= chr <= 0x10FFFF { EncodedBytes(chr); }
    hide Encode;
    if chr <= 0x7F {
      ptr[0] := chr % 256;
      return 1;
    } else if chr <= 0x7FF {
      ptr[0] := 0xC0 + chr / 0x40 % 0x20;
      ptr[1] := 0x80 + chr % 0x40;
      return 2;
    } else if chr <= 0xFFFF {
      ptr[0] := 0xE0 + chr / 0x1000 % 0x10;
      ptr[1] := 0x80 + chr / 0x40 % 0x40;
      ptr[2] := 0x80 + chr % 0x40;
      return 3;
    } else if chr <= 0x10FFFF {
      ptr[0] := 0xF0 + chr / 0x4_0000 % 0x8;
      ptr[1] := 0x80 + chr / 0x1000 % 0x40;
      ptr[2] := 0x80 + chr / 0x40 % 0x40;
      ptr[3] := 0x80 + chr % 0x40;
      return 4;
    }
    return 0;
  }

  lemma DecodesEncoded(s: seq<byte>, at: nat, c: int)
    requires IsChar(c) && at <= |s| && Encode(c) <= s[at..]
    ensures Decoded(s, at) == (c, at + |Encode(c)|)
  {
    hide Encode, Decoded, Utf8Char;
    var b := Encode(c);
    assert s[at..at + |b|] == b;
    CodeEncode(c);
    DecodesChar(s, at, |b|);
  }

  /** Decoding the encodings of characters gives the characters back. */
  lemma {:induction false} CodesOfEncoded(pre: seq<byte>, cs: seq<int>)
    requires AllChars(cs)
    ensures Codes(pre + EncodeAll(cs), |pre|) == cs
    decreases |cs|
  {
    hide Encode, Decoded;
    var s := pre + EncodeAll(cs);
    if cs != [] {
      var b := Encode(cs[0]);
      assert s[|pre|..] == b + EncodeAll(cs[1..]);
      DecodesEncoded(s, |pre|, cs[0]);
      CodesOfEncoded(pre + b, cs[1..]);
      assert s == (pre + b) + EncodeAll(cs[1..]);
    }
  }

  lemma RoundTrip(cs: seq<int>)
    requires AllChars(cs)
    ensures Codes(EncodeAll(cs), 0) == cs
  {
    CodesOfEncoded([], cs);
    assert [] + EncodeAll(cs) == EncodeAll(cs);
  }

  lemma {:induction false} EncodedIsOctets(cs: seq<int>)
    requires AllChars(cs)
    ensures IsCString(EncodeAll(cs)) && Utf8Octets(EncodeAll(cs))
    decreases |cs|
  {
    if cs != [] {
      EncodedIsOctets(cs[1..]);
      EncodeIsUtf8Char(cs[0]);
      CharHasNoNul(Encode(cs[0]));
      var s, n := EncodeAll(cs), |Encode(cs[0])|;
      assert s[..n] == Encode(cs[0]) && s[n..] == EncodeAll(cs[1..]);
      OctetsStep(s, n);
    }
  }

  lemma CharHasNoNul(b: seq<byte>)
    requires Utf8Char(b)
    ensures 0 !in b
  {
    assert forall i :: 0 <= i < |b| ==> b[i] != 0;
  }

  lemma {:induction false} OctetsAreEncoded(s: seq<byte>) returns (cs: seq<int>)
    requires Utf8Octets(s)
    ensures AllChars(cs) && EncodeAll(cs) == s
    decreases |s|
  {
    hide Utf8Char, CodeOf, Encode;
    if s == [] {
      return [];
    }
    var n :| 1 <= n <= |s| && Utf8Char(s[..n]) && Utf8Octets(s[n..]);
    var rest := OctetsAreEncoded(s[n..]);
    EncodeCode(s[..n]);
    cs := [CodeOf(s[..n])] + rest;
    assert cs[1..] == rest;
  }

  /** The strings that `str_utf8_check` accepts are exactly the encodings of characters. */
  lemma OctetsIff(s: seq<byte>)
    ensures Utf8Octets(s) <==> exists cs :: AllChars(cs) && EncodeAll(cs) == s
  {
    if Utf8Octets(s) {
      var cs := OctetsAreEncoded(s);
    }
    if exists cs :: AllChars(cs) && EncodeAll(cs) == s {
      var cs :| AllChars(cs) && EncodeAll(cs) == s;
      EncodedIsOctets(cs);
    }
  }
}
