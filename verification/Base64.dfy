/**
 * Base 64 by section 4 of RFC 4648, with the padding bits zero as its section 3.5 wants:
 * `str_base64` with its bit buffer, and the strict `str_base64_decode`.
 */
module Base64 {
  import opened Bytes
  import opened Division

  // ----- the encoding

  function Digit(v: int): byte
    requires 0 <= v < 64
  {
    if v < 26 then 65 + v
    else if v < 52 then 97 + (v - 26)
    else if v < 62 then 48 + (v - 52)
    else if v == 62 then 43
    else 47
  }

  const UPPER := "ABCDEFGHIJKLMNOPQRSTUVWXYZ"
  const LOWER := "abcdefghijklmnopqrstuvwxyz"

  /** Table 1 of RFC 4648. */
  const ALPHABET := UPPER + LOWER + "0123456789+/"

  lemma DigitIsAlphabet(v: int)
    requires 0 <= v < 64
    ensures |ALPHABET| == 64 && Digit(v) as int == ALPHABET[v] as int && PAD as int == '=' as int
  {
    UpperCase(v);
    LowerCase(v - 26);
  }

  lemma UpperCase(v: int)
    ensures 0 <= v < 26 ==> UPPER[v] as int == 65 + v
  {
  }

  lemma LowerCase(v: int)
    ensures 0 <= v < 26 ==> LOWER[v] as int == 97 + v
  {
  }

  const PAD: byte := 61

  /** Four characters for one, two or three bytes. */
  function Group(b: seq<byte>): (g: seq<byte>)
    requires 1 <= |b| <= 3
    ensures |g| == 4
  {
    var b1: int, b2: int := if |b| > 1 then b[1] else 0, if |b| > 2 then b[2] else 0;
    [Digit(b[0] / 4),
     Digit(b[0] % 4 * 16 + b1 / 16),
     if |b| > 1 then Digit(b1 % 16 * 4 + b2 / 64) else PAD,
     if |b| > 2 then Digit(b2 % 64) else PAD]
  }

  function Encoded(data: seq<byte>): (s: seq<byte>)
    ensures |s| == (|data| + 2) / 3 * 4 && |s| % 4 == 0
  {
    if data == [] then []
    else if |data| <= 3 then Group(data)
    else Group(data[..3]) + Encoded(data[3..])
  }

  /** Character `p` of group `j` of the encoding, from the bytes of that group. */
  lemma {:induction false} EncodedAt(data: seq<byte>, j: nat, p: nat)
    requires p < 4 && 3 * j < |data|
    ensures 4 * j + p < |Encoded(data)|
    ensures Encoded(data)[4 * j + p] == Group(data[3 * j..Min(3 * j + 3, |data|)])[p]
    decreases j
  {
    hide Group;
    if j == 0 {
      assert data[0..|data|] == data;
    } else {
      var rest := data[3..];
      EncodedAt(rest, j - 1, p);
      assert Encoded(data)[4 * j + p] == Encoded(rest)[4 * (j - 1) + p];
      assert rest[3 * j - 3..Min(3 * j, |rest|)] == data[3 * j..Min(3 * j + 3, |data|)];
    }
  }

  // ----- the encoder's bit buffer

  /** `(value << 8) | b` in 32 bits keeps the previous byte and the new one at the low end. */
  function Load(value: nat, b: byte): (v: nat)
    ensures v < 0x1_0000_0000
  {
    (value * 256 + b) % 0x1_0000_0000
  }

  /** The six bits that come next, of `numBits` that are left. */
  function Next6(value: nat, numBits: int): int
    requires numBits > 0
  {
    if numBits >= 6 then value / Pow2(numBits - 6) % 64 else value * Pow2(6 - numBits) % 64
  }

  lemma LowBytes(x: nat)
    ensures x % 0x1_0000_0000 % 0x1_0000 == x % 0x1_0000
    ensures x % 0x1_0000_0000 % 256 == x % 256
  {
    var q, r := x / 0x1_0000_0000, x % 0x1_0000_0000;
    assert x == 0x1_0000 * (0x1_0000 * q) + r;
    ModPlus(0x1_0000, 0x1_0000 * q, r);
    assert x == 256 * (0x100_0000 * q) + r;
    ModPlus(256, 0x100_0000 * q, r);
  }

  lemma LoadKeeps(value: nat, b: byte)
    ensures Load(value, b) % 0x1_0000 == value % 256 * 256 + b
    ensures Load(value, b) % 256 == b
  {
    var h, l := value / 256, value % 256;
    var x := value * 256 + b;
    LowBytes(x);
    ModOf(x, 0x1_0000, h, l * 256 + b);
    ModOf(x, 256, value, b);
  }

  lemma Powers()
    ensures Pow2(0) == 1 && Pow2(2) == 4 && Pow2(4) == 16 && Pow2(6) == 64
  {
  }

  /** The six bits above a remainder. */
  lemma Window(x: int, d: int, q: int, m: int, r: int)
    requires d > 0 && x == d * (64 * q + m) + r && 0 <= m < 64 && 0 <= r < d
    ensures x / d % 64 == m
  {
    DivOf(x, d, 64 * q + m, r);
    ModOf(64 * q + m, 64, q, m);
  }

  lemma Parts(x: int, d: int)
    requires d > 0
    ensures x == d * (x / d) + x % d && 0 <= x % d < d
  {
  }

  /** Bits of a number whose low 16 bits are `prev` and `b`. */
  lemma Bits8(q: int, prev: int, b: int)
    requires 0 <= prev < 256 && 0 <= b < 256
    ensures (0x1_0000 * q + prev * 256 + b) / 4 % 64 == b / 4
  {
    Window(0x1_0000 * q + prev * 256 + b, 4, 0x100 * q + prev, b / 4, b % 4);
  }

  lemma Bits10(q: int, prev: int, b: int)
    requires 0 <= prev < 256 && 0 <= b < 256
    ensures (0x1_0000 * q + prev * 256 + b) / 16 % 64 == prev % 4 * 16 + b / 16
  {
    Parts(prev, 4);
    Parts(b, 16);
    Window(0x1_0000 * q + prev * 256 + b, 16, 64 * q + prev / 4, prev % 4 * 16 + b / 16, b % 16);
  }

  lemma Bits12(q: int, prev: int, b: int)
    requires 0 <= prev < 256 && 0 <= b < 256
    ensures (0x1_0000 * q + prev * 256 + b) / 64 % 64 == prev % 16 * 4 + b / 64
  {
    Parts(prev, 16);
    Parts(b, 64);
    Window(0x1_0000 * q + prev * 256 + b, 64, 16 * q + prev / 16, prev % 16 * 4 + b / 64, b % 64);
  }

  /** The six bits for each place in a group, after loading `b` behind `prev`. */
  lemma Next6Loaded(v: nat, prev: byte, b: byte)
    requires v % 0x1_0000 == prev as int * 256 + b
    ensures Next6(v, 8) == b / 4
    ensures Next6(v, 10) == prev % 4 * 16 + b / 16
    ensures Next6(v, 12) == prev % 16 * 4 + b / 64
  {
    Powers();
    var q := v / 0x1_0000;
    assert v == 0x1_0000 * q + prev as int * 256 + b;
    Bits8(q, prev, b);
    Bits10(q, prev, b);
    Bits12(q, prev, b);
  }

  lemma Pad4(q: int, prev: int)
    requires 0 <= prev < 256
    ensures (256 * q + prev) * 16 % 64 == prev % 4 * 16
    ensures (256 * q + prev) * 4 % 64 == prev % 16 * 4
    ensures (256 * q + prev) % 64 == prev % 64
  {
    ModOf((256 * q + prev) * 16, 64, 64 * q + prev / 4, prev % 4 * 16);
    ModOf((256 * q + prev) * 4, 64, 16 * q + prev / 16, prev % 16 * 4);
    ModOf(256 * q + prev, 64, 4 * q + prev / 64, prev % 64);
  }

  /** The six bits when nothing more could be loaded. */
  lemma Next6Last(v: nat, prev: byte)
    requires v % 256 == prev
    ensures Next6(v, 2) == prev % 4 * 16
    ensures Next6(v, 4) == prev % 16 * 4
    ensures Next6(v, 6) == prev % 64
  {
    Powers();
    var q := v / 256;
    assert v == 256 * q + prev;
    Pad4(q, prev);
  }

  /**
   * The bit buffer before character `p` of group `j`, with `i` bytes loaded: it holds what
   * the group's bytes seen so far have left, or, past the end of the data, nothing.
   */
  predicate Buffered(data: seq<byte>, value: nat, numBits: int, i: nat, j: nat, p: nat) {
    && i <= |data| && p < 4
    && (i > 0 ==> value % 256 == data[i - 1])
    && (if numBits >= 0 then numBits == 2 * p && i == 3 * j + p
        else i == |data| && (if p == 0 then |data| <= 3 * j < |data| + 3 else 3 * j < |data| < 3 * j + p))
  }

  /** The next character, and the buffer behind it, when a byte has just been loaded. */
  lemma StepLoaded(data: seq<byte>, value: nat, i: nat, j: nat, p: nat)
    requires Buffered(data, value, 2 * p, i, j, p) && p < 3 && i < |data|
    ensures var v, n := Load(value, data[i]), 2 * p + 8;
            && 4 * j + p < |Encoded(data)|
            && 0 <= Next6(v, n) < 64 && Encoded(data)[4 * j + p] == Digit(Next6(v, n))
            && Buffered(data, v, n - 6, i + 1, j, p + 1)
  {
    hide Encoded, Next6, Load, Digit;
    LoadKeeps(value, data[i]);
    EncodedAt(data, j, p);
    var prev: byte := value % 256;
    Next6Loaded(Load(value, data[i]), prev, data[i]);
  }

  /** The same when the group is complete or the data has run out. */
  lemma StepUnloaded(data: seq<byte>, value: nat, i: nat, j: nat, p: nat)
    requires Buffered(data, value, 2 * p, i, j, p) && p > 0 && (p == 3 || i == |data|)
    ensures var n := 2 * p;
            && 4 * j + p < |Encoded(data)|
            && 0 <= Next6(value, n) < 64 && Encoded(data)[4 * j + p] == Digit(Next6(value, n))
    ensures p < 3 ==> Buffered(data, value, 2 * p - 6, i, j, p + 1)
    ensures p == 3 ==> Buffered(data, value, 0, i, j + 1, 0)
  {
    hide Encoded, Next6, Digit;
    EncodedAt(data, j, p);
    Next6Last(value, data[i - 1]);
  }

  lemma StepPad(data: seq<byte>, value: nat, numBits: int, i: nat, j: nat, p: nat)
    requires Buffered(data, value, numBits, i, j, p) && numBits <= 0 && p != 0
    ensures 4 * j + p < |Encoded(data)| && Encoded(data)[4 * j + p] == PAD
    ensures p < 3 ==> Buffered(data, value, numBits, i, j, p + 1)
    ensures p == 3 ==> Buffered(data, value, numBits, i, j + 1, 0)
  {
    hide Encoded;
    EncodedAt(data, j, p);
  }

  /** `str_base64`: as much of the encoding as fits, NUL-terminated. */
  method Encode(dst: array<byte>, size: nat, data: seq<byte>)
    requires 1 <= size <= dst.Length
    modifies dst
    ensures var n := Min(|Encoded(data)|, size - 1);
            dst[..n] == Encoded(data)[..n] && dst[n] == 0
  {
    hide Encoded, Next6, Load, Digit;
    var value, numBits, i, o := 0, 0, 0, 0;
    ghost var j, p := 0, 0;
    var last := size - 1;
    dst[last] := 0;
    while true
      invariant 0 <= i && 0 <= o <= last && o == 4 * j + p && 0 <= j && 0 <= p && value >= 0
      invariant Buffered(data, value, numBits, i, j, p)
      invariant o <= |Encoded(data)| && dst[..o] == Encoded(data)[..o] && dst[last] == 0
      decreases last - o
    {
      ghost var value0, loaded := value, numBits < 6 && i < |data|;
      if numBits < 6 && i < |data| {
        value := Load(value, data[i]);
        numBits := numBits + 8;
        i := i + 1;
      }
      if o == last {
        return;
      }
      if numBits > 0 {
        if loaded { StepLoaded(data, value0, i - 1, j, p); } else { StepUnloaded(data, value, i, j, p); }
        dst[o] := Digit(Next6(value, numBits));
        numBits := numBits - 6;
      } else if o % 4 != 0 {
        StepPad(data, value, numBits, i, j, p);
        dst[o] := PAD;
      } else {
        dst[o] := 0;
        return;
      }
      assert dst[..o + 1] == dst[..o] + [dst[o]];
      o := o + 1;
      j, p := if p < 3 then j else j + 1, if p < 3 then p + 1 else 0;
    }
  }

  // ----- the decoder

  /** `base64_digit_value`. */
  function DigitValue(c: byte): (v: int)
    ensures -1 <= v < 64
  {
    if 65 <= c <= 90 then c as int - 65
    else if 97 <= c <= 122 then c as int - 97 + 26
    else if 48 <= c <= 57 then c as int - 48 + 52
    else if c == 43 then 62
    else if c == 47 then 63
    else -1
  }

  lemma DigitInverse(v: int, c: byte)
    ensures 0 <= v < 64 ==> DigitValue(Digit(v)) == v && Digit(v) != PAD
    ensures DigitValue(c) >= 0 ==> Digit(DigitValue(c)) == c
  {
  }

  datatype Decoded = Bad(code: int) | Good(bytes: seq<byte>)

  /** How many bytes a block stands for; only the last block may end in padding. */
  function ByteCount(q: seq<byte>, last: bool): (n: nat)
    requires |q| == 4
    ensures 1 <= n <= 3
  {
    if last && q[3] == PAD then if q[2] == PAD then 1 else 2 else 3
  }

  /** The block's four digit values, with padding read as zero. */
  function Digits(q: seq<byte>, last: bool): (d: seq<int>)
    requires |q| == 4
    ensures |d| == 4 && forall i :: 0 <= i < 4 ==> -1 <= d[i] < 64
  {
    var n := ByteCount(q, last);
    [DigitValue(q[0]), DigitValue(q[1]),
     if n == 1 then 0 else DigitValue(q[2]), if n <= 2 then 0 else DigitValue(q[3])]
  }

  function ThreeBytes(d: seq<int>): (b: seq<byte>)
    requires |d| == 4 && forall i :: 0 <= i < 4 ==> 0 <= d[i] < 64
    ensures |b| == 3
  {
    [d[0] * 4 + d[1] / 16, d[1] % 16 * 16 + d[2] / 4, d[2] % 4 * 64 + d[3]]
  }

  predicate AllZero(s: seq<byte>) {
    forall i :: 0 <= i < |s| ==> s[i] == 0
  }

  function Block(q: seq<byte>, last: bool): Decoded
    requires |q| == 4
  {
    var n, d := ByteCount(q, last), Digits(q, last);
    if d[0] < 0 || d[1] < 0 || d[2] < 0 || d[3] < 0 then Bad(-1)
    else if !AllZero(ThreeBytes(d)[n..]) then Bad(-2)
    else Good(ThreeBytes(d)[..n])
  }

  /** The blocks in turn, up to the first bad one. */
  function Blocks(s: seq<byte>): Decoded
    requires |s| % 4 == 0
    decreases |s|
  {
    if s == [] then Good([])
    else
      match Block(s[..4], |s| == 4)
      case Bad(code) => Bad(code)
      case Good(b) =>
        match Blocks(s[4..])
        case Bad(code) => Bad(code)
        case Good(rest) => Good(b + rest)
  }

  function DecodedString(s: seq<byte>, size: int): Decoded {
    if |s| % 4 != 0 then Bad(-3) else if |s| / 4 * 3 > size then Bad(-2) else Blocks(s)
  }

  lemma EightBitsOf(b0: int, b1: int, b2: int)
    requires 0 <= b0 < 256 && 0 <= b1 < 256 && 0 <= b2 < 256
    ensures ThreeBytes([b0 / 4, b0 % 4 * 16 + b1 / 16, b1 % 16 * 4 + b2 / 64, b2 % 64]) == [b0, b1, b2]
  {
  }

  /** A group is decoded to its bytes, and a good block is the group of its bytes. */
  lemma BlockOfGroup(b: seq<byte>, last: bool)
    requires 1 <= |b| <= 3 && (last || |b| == 3)
    ensures Block(Group(b), last) == Good(b)
  {
    hide Digit, DigitValue, ThreeBytes;
    var b1: int, b2: int := if |b| > 1 then b[1] else 0, if |b| > 2 then b[2] else 0;
    DigitInverse(b[0] / 4, 0);
    DigitInverse(b[0] % 4 * 16 + b1 / 16, 0);
    DigitInverse(b1 % 16 * 4 + b2 / 64, 0);
    DigitInverse(b2 % 64, 0);
    EightBitsOf(b[0], b1, b2);
    assert Digits(Group(b), last) == [b[0] / 4, b[0] % 4 * 16 + b1 / 16, b1 % 16 * 4 + b2 / 64, b2 % 64];
  }

  /** The digits behind three bytes. */
  lemma SixBitsOf(d: seq<int>)
    requires |d| == 4 && forall i :: 0 <= i < 4 ==> 0 <= d[i] < 64
    ensures var t := ThreeBytes(d);
            && t[0] / 4 == d[0] && t[0] % 4 * 16 + t[1] / 16 == d[1]
            && t[1] % 16 * 4 + t[2] / 64 == d[2] && t[2] % 64 == d[3]
  {
  }

  lemma GroupOfBlock(q: seq<byte>, last: bool)
    requires |q| == 4 && Block(q, last).Good?
    ensures var b := Block(q, last).bytes;
            1 <= |b| <= 3 && (last || |b| == 3) && Group(b) == q
  {
    hide Digit, DigitValue;
    var n, d := ByteCount(q, last), Digits(q, last);
    var t := ThreeBytes(d);
    DigitInverse(0, q[0]);
    DigitInverse(0, q[1]);
    DigitInverse(0, q[2]);
    DigitInverse(0, q[3]);
    if n < 3 { assert t[n..][2 - n] == t[2] == 0; }
    if n < 2 { assert t[n..][0] == t[1] == 0; }
    SixBitsOf(d);
    assert t[..n][0] == t[0] && (n > 1 ==> t[..n][1] == t[1]) && (n > 2 ==> t[..n][2] == t[2]);
  }

  /** Decoding inverts encoding. */
  lemma {:induction false} DecodeEncode(data: seq<byte>)
    ensures Blocks(Encoded(data)) == Good(data)
    decreases |data|
  {
    hide Group, Block;
    if data != [] {
      if |data| <= 3 {
        BlockOfGroup(data, true);
        assert Encoded(data)[..4] == Group(data) && Encoded(data)[4..] == [];
      } else {
        BlockOfGroup(data[..3], false);
        DecodeEncode(data[3..]);
        var s := Encoded(data);
        assert s[..4] == Group(data[..3]) && s[4..] == Encoded(data[3..]);
        assert data == data[..3] + data[3..];
      }
    }
  }

  /** What is accepted is the encoding of what it is decoded to. */
  lemma {:induction false} EncodeDecode(s: seq<byte>)
    requires |s| % 4 == 0 && Blocks(s).Good?
    ensures Encoded(Blocks(s).bytes) == s
    decreases |s|
  {
    hide Group, Block;
    if s != [] {
      var b := Block(s[..4], |s| == 4).bytes;
      GroupOfBlock(s[..4], |s| == 4);
      EncodeDecode(s[4..]);
      var rest := Blocks(s[4..]).bytes;
      assert s == s[..4] + s[4..];
      if |s| == 4 {
        assert b + rest == b;
      } else {
        assert rest != [];
        assert (b + rest)[..3] == b && (b + rest)[3..] == rest;
      }
    }
  }

  lemma AcceptedIsEncoded(s: seq<byte>, size: nat) returns (data: seq<byte>)
    requires DecodedString(s, size).Good?
    ensures Encoded(data) == s
  {
    EncodeDecode(s);
    data := Blocks(s).bytes;
  }

  lemma EncodedIsAccepted(data: seq<byte>, size: nat)
    requires |Encoded(data)| / 4 * 3 <= size
    ensures DecodedString(Encoded(data), size).Good?
  {
    hide Block, Group;
    DecodeEncode(data);
  }

  /** The accepted strings are exactly the encodings. */
  lemma AcceptedIff(s: seq<byte>, size: nat)
    requires |s| / 4 * 3 <= size
    ensures DecodedString(s, size).Good? <==> exists data :: Encoded(data) == s
  {
    hide *;
    if DecodedString(s, size).Good? {
      var data := AcceptedIsEncoded(s, size);
    }
    if exists data :: Encoded(data) == s {
      var data :| Encoded(data) == s;
      EncodedIsAccepted(data, size);
    }
  }

  /** `str_base64_decode`: the byte count, or an error code. */
  method Decode(dst: array<byte>, size: int, s: seq<byte>) returns (o: int)
    requires size <= dst.Length
    modifies dst
    ensures match DecodedString(s, size)
            case Bad(code) => o == code
            case Good(bytes) => 0 <= o == |bytes| <= dst.Length && dst[..o] == bytes
  {
    o := 0;
    if |s| % 4 != 0 {
      return -3;
    }
    if |s| / 4 * 3 > size {
      return -2;
    }
    o := DecodeBlocks(dst, s);
  }

  /** The loop over the blocks. */
  method DecodeBlocks(dst: array<byte>, s: seq<byte>) returns (o: int)
    requires |s| % 4 == 0 && |s| / 4 * 3 <= dst.Length
    modifies dst
    ensures match Blocks(s)
            case Bad(code) => o == code
            case Good(bytes) => 0 <= o == |bytes| <= dst.Length && dst[..o] == bytes
  {
    o := 0;
    ghost var j, m := 0, |s| / 4;
    ghost var all := Blocks(s);
    OutcomeAtStart(s);
    hide Block, Outcome;
    var i := 0;
    assert dst[..o] == [];
    while i < |s|
      invariant 0 <= j <= m && i == 4 * j && |s| == 4 * m && 0 <= o <= 3 * j && i % 4 == 0
      invariant all == Outcome(s, i, dst[..o])
    {
      Fours(j);
      Fours(j + 1);
      BlocksStep(s, i, dst[..o]);
      var bad, n := DecodeBlock(dst, o, s[i..i + 4], i == |s| - 4);
      if bad != 0 {
        return bad;
      }
      o := o + n;
      i, j := i + 4, j + 1;
    }
    OutcomeAtEnd(s, dst[..o]);
  }

  lemma Fours(j: nat)
    ensures 4 * j % 4 == 0
  {
  }

  /** The result for the whole string when `front` has been decoded before block `i / 4`. */
  function Outcome(s: seq<byte>, i: nat, front: seq<byte>): Decoded
    requires |s| % 4 == 0 && i % 4 == 0 && i <= |s|
  {
    match Blocks(s[i..])
    case Bad(code) => Bad(code)
    case Good(bytes) => Good(front + bytes)
  }

  lemma OutcomeAtStart(s: seq<byte>)
    requires |s| % 4 == 0
    ensures Outcome(s, 0, []) == Blocks(s)
  {
    assert s[0..] == s;
    if Blocks(s).Good? { assert [] + Blocks(s).bytes == Blocks(s).bytes; }
  }

  lemma OutcomeAtEnd(s: seq<byte>, front: seq<byte>)
    requires |s| % 4 == 0
    ensures Outcome(s, |s|, front) == Good(front)
  {
    assert s[|s|..] == [] && front + [] == front;
  }

  lemma BlocksStep(s: seq<byte>, i: nat, front: seq<byte>)
    requires |s| % 4 == 0 && i % 4 == 0 && i < |s|
    ensures i + 4 <= |s|
    ensures Outcome(s, i, front)
            == match Block(s[i..i + 4], i == |s| - 4)
               case Bad(code) => Bad(code)
               case Good(b) => Outcome(s, i + 4, front + b)
  {
    hide Block;
    var t := s[i..];
    assert t[..4] == s[i..i + 4] && t[4..] == s[i + 4..];
    if Block(s[i..i + 4], i == |s| - 4).Good? && Blocks(s[i + 4..]).Good? {
      var b, r := Block(s[i..i + 4], i == |s| - 4).bytes, Blocks(s[i + 4..]).bytes;
      assert front + (b + r) == (front + b) + r;
    }
  }

  /** The body of the loop: `bad` is the error code, or 0. */
  method DecodeBlock(dst: array<byte>, o: nat, q: seq<byte>, last: bool) returns (bad: int, n: nat)
    requires |q| == 4 && o + 3 <= dst.Length
    modifies dst
    ensures match Block(q, last)
            case Bad(code) => bad == code != 0
            case Good(b) => bad == 0 && n == |b| <= 3 && dst[..o + n] == old(dst[..o]) + b
  {
    hide DigitValue, ThreeBytes, ByteOf;
    var copy2, copy3 := q[2], q[3];
    var numOutputBytes := 3;
    if last {
      if copy3 == PAD {
        copy3 := 65;
        numOutputBytes := 2;
        if copy2 == PAD {
          copy2 := 65;
          numOutputBytes := 1;
        }
      }
    }
    assert DigitValue(65) == 0 by { DigitInverse(0, 65); assert Digit(0) == 65; }
    var d := [DigitValue(q[0]), DigitValue(q[1]), DigitValue(copy2), DigitValue(copy3)];
    assert d == Digits(q, last) && numOutputBytes == ByteCount(q, last);
    n := 0;
    if d[0] == -1 || d[1] == -1 || d[2] == -1 || d[3] == -1 {
      return -1, 0;
    }
    var value := d[0] * 0x4_0000 + d[1] * 0x1000 + d[2] * 0x40 + d[3];
    ghost var t := ThreeBytes(d);
    for b := 0 to 3
      invariant n == Min(b, numOutputBytes) && dst[..o] == old(dst[..o])
      invariant forall k :: 0 <= k < n ==> dst[o + k] == t[k]
      invariant forall k :: numOutputBytes <= k < b ==> t[k] == 0
    {
      var byteValue := ByteOf(value, b);
      ByteOfIs(d, b);
      if b < numOutputBytes {
        dst[o + n] := byteValue;
        n := n + 1;
      } else if byteValue != 0 {
        assert t[numOutputBytes..][b - numOutputBytes] != 0;
        return -2, 0;
      }
    }
    bad := 0;
    assert dst[..o + n] == old(dst[..o]) + t[..n];
  }

  /** `(value >> (16 - 8 * b)) & 0xff`. */
  function ByteOf(value: nat, b: nat): byte {
    value / (if b == 0 then 0x1_0000 else if b == 1 then 0x100 else 1) % 0x100
  }

  lemma ThreeParts(x: int, y: int, z: int)
    requires 0 <= x < 0x100 && 0 <= y < 0x100 && 0 <= z < 0x100
    ensures var v := x * 0x1_0000 + y * 0x100 + z;
            v / 0x1_0000 % 0x100 == x && v / 0x100 % 0x100 == y && v % 0x100 == z
  {
    var v := x * 0x1_0000 + y * 0x100 + z;
    assert v / 0x100 == x * 0x100 + y;
    assert v / 0x1_0000 == x;
  }

  lemma SixBitPieces(a: int, b: int, c: int, d: int)
    requires 0 <= a < 64 && 0 <= b < 64 && 0 <= c < 64 && 0 <= d < 64
    ensures a * 0x4_0000 + b * 0x1000 + c * 0x40 + d
            == (a * 4 + b / 16) * 0x1_0000 + (b % 16 * 16 + c / 4) * 0x100 + (c % 4 * 64 + d)
  {
  }

  lemma ByteOfIs(d: seq<int>, b: nat)
    requires |d| == 4 && (forall i :: 0 <= i < 4 ==> 0 <= d[i] < 64) && b < 3
    ensures ByteOf(d[0] * 0x4_0000 + d[1] * 0x1000 + d[2] * 0x40 + d[3], b) == ThreeBytes(d)[b]
  {
    SixBitPieces(d[0], d[1], d[2], d[3]);
    var t := ThreeBytes(d);
    ThreeParts(t[0], t[1], t[2]);
  }
}
