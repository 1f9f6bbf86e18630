/**
 * The streaming SHA-256 of hash_libtomcrypt.cpp: an in-place compression with rotating
 * working variables, a block buffer, and padding at the end.
 */
module Sha256 {
  import opened Bytes
  import opened Bits
  import opened Sha256Spec

  // ----- the rewritten logical functions

  function FastCh(x: word, y: word, z: word): nat {
    Xor(z, And(x, Xor(y, z)))
  }

  function FastMaj(x: word, y: word, z: word): nat {
    Or(And(Or(x, y), z), And(x, y))
  }

  lemma {:induction false} ChBits(x: nat, y: nat, z: nat, width: nat)
    requires z < Pow2(width)
    ensures Xor(z, And(x, Xor(y, z))) == Xor(And(x, y), And(Not(x, width), z))
    decreases width
  {
    if width == 0 {
      assert z == 0;
    } else {
      var n := Not(x, width);
      ChBits(x / 2, y / 2, z / 2, width - 1);
      XorHalf(y, z);
      AndHalf(x, Xor(y, z));
      XorHalf(z, And(x, Xor(y, z)));
      AndHalf(x, y);
      AndHalf(n, z);
      XorHalf(And(x, y), And(n, z));
    }
  }

  lemma {:induction false} MajBits(x: nat, y: nat, z: nat)
    ensures Or(And(Or(x, y), z), And(x, y)) == Xor(Xor(And(x, y), And(x, z)), And(y, z))
    decreases x + y + z
  {
    if x + y + z > 0 {
      MajBits(x / 2, y / 2, z / 2);
      OrHalf(x, y);
      AndHalf(Or(x, y), z);
      AndHalf(x, y);
      AndHalf(x, z);
      AndHalf(y, z);
      OrHalf(And(Or(x, y), z), And(x, y));
      XorHalf(And(x, y), And(x, z));
      XorHalf(Xor(And(x, y), And(x, z)), And(y, z));
    }
  }

  /** The rewritten functions are those of section 4.1.2. */
  lemma RewrittenFunctions(x: word, y: word, z: word)
    ensures FastCh(x, y, z) == Ch(x, y, z)
    ensures FastMaj(x, y, z) == Maj(x, y, z)
  {
    Pow2Of32();
    ChBits(x, y, z, 32);
    MajBits(x, y, z);
  }

  // ----- compression

  lemma ScheduleNext(block: seq<byte>, i: nat)
    requires |block| == 64
    ensures var w := Schedule(block, i);
            Schedule(block, i + 1) == w + [
              if i < 16 then WordOf(block[4 * i..4 * i + 4])
              else Sum(SmallSigma1(w[i - 2]) + w[i - 7] + SmallSigma0(w[i - 15]) + w[i - 16])]
  {
    hide SmallSigma0, SmallSigma1, Sum, WordOf;
  }

  method LoadSchedule(block: seq<byte>, W: array<word>)
    requires |block| == 64 && W.Length == 64
    modifies W
    ensures W[..] == MessageSchedule(block)
  {
    hide WordOf, SmallSigma0, SmallSigma1, Sum;
    assert W[..0] == Schedule(block, 0);
    hide Schedule;
    var i := 0;
    while i < 16
      invariant 0 <= i <= 16
      invariant W[..i] == Schedule(block, i)
    {
      ScheduleNext(block, i);
      W[i] := WordOf(block[4 * i..4 * i + 4]);
      i := i + 1;
    }
    while i < W.Length
      invariant 16 <= i <= W.Length
      invariant W[..i] == Schedule(block, i)
    {
      ScheduleNext(block, i);
      ghost var w := W[..i];
      assert w[i - 2] == W[i - 2] && w[i - 7] == W[i - 7] && w[i - 15] == W[i - 15] && w[i - 16] == W[i - 16];
      W[i] := Sum(SmallSigma1(W[i - 2]) + W[i - 7] + SmallSigma0(W[i - 15]) + W[i - 16]);
      i := i + 1;
    }
  }

  /** The two temporaries of the macro `RND`. */
  method Temporaries(v: Vars, k: word, w: word) returns (t0: word, t1: word)
    ensures t0 == T1(v, k, w) && t1 == T2(v)
  {
    hide BigSigma0, BigSigma1, Ch, Maj, FastCh, FastMaj;
    RewrittenFunctions(v.e, v.f, v.g);
    RewrittenFunctions(v.a, v.b, v.c);
    t0 := Sum(v.h + BigSigma1(v.e) + FastCh(v.e, v.f, v.g) + k + w);
    t1 := Sum(BigSigma0(v.a) + FastMaj(v.a, v.b, v.c));
  }

  /** One round on the array, and the rotation of its eight entries. */
  method RoundInPlace(S: array<word>, k: word, w: word)
    requires S.Length == 8
    modifies S
    ensures VarsOf(S[..]) == Round(VarsOf(old(S[..])), k, w)
  {
    hide T1, T2;
    var t0, t1 := Temporaries(VarsOf(S[..]), k, w);
    S[3] := Sum(S[3] as int + t0);
    S[7] := Sum(t0 as int + t1);
    var t := S[7];
    S[7] := S[6];
    S[6] := S[5];
    S[5] := S[4];
    S[4] := S[3];
    S[3] := S[2];
    S[2] := S[1];
    S[1] := S[0];
    S[0] := t;
  }

  method CompressInPlace(state: array<word>, block: seq<byte>)
    requires state.Length == 8 && |block| == 64
    modifies state
    ensures state[..] == Compress(old(state[..]), block)
  {
    hide MessageSchedule, AllRounds, Added;
    var S, W := new word[8], new word[64];
    for i := 0 to 8
      invariant S[..i] == state[..i] && state[..] == old(state[..])
    {
      S[i] := state[i];
    }
    LoadSchedule(block, W);
    assert S[..] == state[..];
    RunRounds(S, W);
    AddInto(state, S);
  }

  method AddInto(state: array<word>, S: array<word>)
    requires state.Length == 8 && S.Length == 8 && state != S
    modifies state
    ensures state[..] == Added(old(state[..]), VarsOf(S[..]))
  {
    hide Sum;
    for i := 0 to 8
      invariant forall k :: 0 <= k < i ==> state[k] == Sum(old(state[k]) as int + S[k])
      invariant forall k :: i <= k < 8 ==> state[k] == old(state[k])
    {
      state[i] := Sum(state[i] as int + S[i]);
    }
  }

  method RunRounds(S: array<word>, W: array<word>)
    requires S.Length == 8 && W.Length == 64 && S != W
    modifies S
    ensures VarsOf(S[..]) == AllRounds(VarsOf(old(S[..])), W[..])
  {
    hide Round;
    ghost var v, w := VarsOf(S[..]), W[..];
    var i := 0;
    while i < W.Length
      invariant 0 <= i <= W.Length
      invariant VarsOf(S[..]) == Rounds(v, w, i)
    {
      RoundInPlace(S, K[i], W[i]);
      i := i + 1;
    }
  }

  // ----- the message as it streams in

  /** How many bytes of `m` are in whole blocks. */
  function Whole(m: seq<byte>): (n: nat)
    ensures n <= |m| && n % 64 == 0 && |m| - n < 64
  {
    |m| / 64 * 64
  }

  lemma WholeIs(m: seq<byte>, n: nat)
    requires n <= |m| && n % 64 == 0 && |m| - n < 64
    ensures Whole(m) == n
  {
  }

  /** One more block behind whole blocks. */
  lemma BlocksStep(m: seq<byte>, block: seq<byte>)
    requires |m| % 64 == 0 && |block| == 64
    ensures |m + block| % 64 == 0 && Blocks(m + block) == Compress(Blocks(m), block)
  {
    hide Compress;
    assert (m + block)[..|m + block| - 64] == m;
    assert (m + block)[|m + block| - 64..] == block;
  }

  function BitCount(n: nat): nat {
    8 * n % 0x1_0000_0000_0000_0000
  }

  lemma BitCountStep(n: nat, k: nat)
    ensures BitCount(n + k) == (BitCount(n) + 8 * k) % 0x1_0000_0000_0000_0000
  {
  }

  // ----- the padding as it is written

  lemma ZerosAdd(a: nat, b: nat)
    ensures Zeros(a) + Zeros(b) == Zeros(a + b)
  {
  }

  /** Behind the whole blocks, the padding makes one block or two. */
  lemma PaddedBlocks(m: seq<byte>)
    ensures var w, rest := Whole(m), m[Whole(m)..];
            Padded(m) == if |rest| < 56
                         then m[..w] + (rest + [0x80] + Zeros(55 - |rest|) + LengthField(m))
                         else m[..w] + (rest + [0x80] + Zeros(63 - |rest|)) + (Zeros(56) + LengthField(m))
  {
    var w, rest := Whole(m), m[Whole(m)..];
    assert m == m[..w] + rest;
    if |rest| < 56 {
      assert ZeroCount(|m|) == 55 - |rest|;
    } else {
      assert ZeroCount(|m|) == 63 - |rest| + 56;
      ZerosAdd(63 - |rest|, 56);
    }
  }

  /** Byte `i` of the big-endian form is `x` shifted right by the bytes behind it. */
  lemma {:induction false} BigEndianAt(x: nat, n: nat, i: nat)
    requires i < n
    ensures BigEndian(x, n)[i] == ShiftRight(x, 8 * (n - 1 - i)) % 256
    decreases n
  {
    if i < n - 1 {
      BigEndianAt(x / 256, n - 1, i);
      ByteShift(x, 8 * (n - 2 - i));
    }
  }

  lemma ByteShift(x: nat, k: nat)
    ensures ShiftRight(x, 8 + k) == ShiftRight(x / 256, k)
  {
    ShiftIsDivision(x, 8);
    assert Pow2(8) == 256;
    ShiftAdd(x, 8, k);
  }

  /** `store32` and `store64`, for `n` bytes. */
  method Store(x: nat, n: nat, dst: array<byte>, at: nat)
    requires at + n <= dst.Length
    modifies dst
    ensures dst[at..at + n] == BigEndian(x, n)
    ensures dst[..at] == old(dst[..at]) && dst[at + n..] == old(dst[at + n..])
  {
    hide BigEndian;
    for i := 0 to n
      invariant dst[at..at + i] == BigEndian(x, n)[..i]
      invariant dst[..at] == old(dst[..at]) && dst[at + n..] == old(dst[at + n..])
    {
      BigEndianAt(x, n, i);
      dst[at + i] := ShiftRight(x, 8 * (n - 1 - i)) % 256;
    }
  }

  class Context {
    const state: array<word>
    const buf: array<byte>
    var length: nat
    var curlen: nat

    ghost var msg: seq<byte>

    /** The state has taken in the whole blocks of `msg`, and the buffer holds the rest. */
    ghost predicate Valid()
      reads this, state, buf
    {
      && state.Length == 8 && buf.Length == 64
      && curlen == |msg| - Whole(msg)
      && state[..] == Blocks(msg[..Whole(msg)])
      && buf[..curlen] == msg[Whole(msg)..]
      && length == BitCount(Whole(msg))
    }

    constructor ()
      ensures Valid() && msg == [] && fresh(state) && fresh(buf)
    {
      state := new word[8];
      buf := new byte[64];
      length, curlen := 0, 0;
      msg := [];
      new;
      state[0], state[1], state[2], state[3] := 0x6A09E667, 0xBB67AE85, 0x3C6EF372, 0xA54FF53A;
      state[4], state[5], state[6], state[7] := 0x510E527F, 0x9B05688C, 0x1F83D9AB, 0x5BE0CD19;
    }

    /** The branch of `sha_process` that takes a block directly from the input. */
    method TakeBlock(block: seq<byte>)
      requires Valid() && curlen == 0 && |block| == 64
      modifies this`length, this`msg, state
      ensures Valid() && curlen == 0 && msg == old(msg) + block
    {
      hide Compress, Blocks;
      BlocksStep(msg, block);
      assert msg[..Whole(msg)] == msg;
      CompressInPlace(state, block);
      BitCountStep(Whole(msg), 64);
      length := (length + 64 * 8) % 0x1_0000_0000_0000_0000;
      msg := msg + block;
      WholeIs(msg, |msg|);
      assert msg[..Whole(msg)] == msg;
    }

    /** The other branch: bytes into the buffer, which is compressed when it is full. */
    method TakeBytes(bytes: seq<byte>)
      requires Valid() && |bytes| <= 64 - curlen
      modifies this, state, buf
      ensures Valid() && msg == old(msg) + bytes
    {
      hide Compress, Blocks;
      var n := Append(buf, curlen, bytes);
      curlen := n;
      ghost var whole := msg[..Whole(msg)];
      msg := msg + bytes;
      assert msg == whole + buf[..curlen];
      if curlen == 64 {
        assert buf[..curlen] == buf[..];
        BlocksStep(whole, buf[..]);
        CompressInPlace(state, buf[..]);
        BitCountStep(|whole|, 64);
        length := (length + 8 * 64) % 0x1_0000_0000_0000_0000;
        curlen := 0;
        WholeIs(msg, |msg|);
        assert msg[..Whole(msg)] == msg;
      } else {
        WholeIs(msg, |whole|);
        assert msg[..Whole(msg)] == whole;
      }
    }

    /** `sha_process`. */
    method Process(src: seq<byte>)
      requires Valid()
      modifies this, state, buf
      ensures Valid() && msg == old(msg) + src
    {
      hide Compress, Blocks;
      var at := 0;
      while at < |src|
        invariant 0 <= at <= |src| && Valid()
        invariant msg == old(msg) + src[..at]
      {
        var n := if curlen == 0 && |src| - at >= 64 then 64 else Min(|src| - at, 64 - curlen);
        assert src[..at + n] == src[..at] + src[at..at + n];
        if curlen == 0 && |src| - at >= 64 {
          TakeBlock(src[at..at + n]);
        } else {
          TakeBytes(src[at..at + n]);
        }
        at := at + n;
      }
      assert src[..|src|] == src;
    }

    /** `sha256_update`: the length goes through a 32-bit parameter. */
    method Update(data: seq<byte>)
      requires Valid()
      modifies this, state, buf
      ensures Valid() && msg == old(msg) + data[..|data| % 0x1_0000_0000]
    {
      hide Whole, Blocks, BitCount;
      Process(data[..|data| % 0x1_0000_0000]);
    }

    /** Appends zero bytes to the buffer up to `n`. */
    method PadTo(n: nat)
      requires buf.Length == 64 && curlen <= n <= 64
      modifies this`curlen, buf
      ensures curlen == n && buf[..n] == old(buf[..curlen]) + Zeros(n - old(curlen))
    {
      ghost var start, content := curlen, buf[..curlen];
      while curlen < n
        invariant start <= curlen <= n
        invariant buf[..curlen] == content + Zeros(curlen - start)
      {
        buf[curlen] := 0;
        curlen := curlen + 1;
        assert Zeros(curlen - start) == Zeros(curlen - 1 - start) + [0];
        assert buf[..curlen] == buf[..curlen - 1] + [0];
      }
    }

    /** The last block of the padding: zeros up to the length field, and the length. */
    method LastBlock(ghost last: seq<byte>)
      requires state.Length == 8 && buf.Length == 64 && curlen <= 56
      requires |last| == 64 && last == buf[..curlen] + Zeros(56 - curlen) + BigEndian(length, 8)
      modifies this`curlen, state, buf
      ensures state[..] == Compress(old(state[..]), last)
    {
      hide Compress, BigEndian;
      PadTo(56);
      ghost var head := buf[..56];
      Store(length, 8, buf, 56);
      assert buf[..] == head + BigEndian(length, 8);
      CompressInPlace(state, buf[..]);
    }

    /** The 0x80 byte, and, if that leaves no room for the length, zeros and a whole block. */
    method FirstPadding(ghost whole: seq<byte>, ghost rest: seq<byte>) returns (ghost front: seq<byte>, ghost tail: seq<byte>)
      requires state.Length == 8 && buf.Length == 64 && curlen < 64
      requires |whole| % 64 == 0 && state[..] == Blocks(whole) && buf[..curlen] == rest
      modifies this`curlen, state, buf
      ensures |front| % 64 == 0 && state[..] == Blocks(front)
      ensures curlen <= 56 && buf[..curlen] == tail
      ensures if |rest| < 56 then front == whole && tail == rest + [0x80]
              else front == whole + (rest + [0x80] + Zeros(63 - |rest|)) && tail == []
    {
      hide Compress, Blocks;
      buf[curlen] := 0x80;
      curlen := curlen + 1;
      assert buf[..curlen] == rest + [0x80];
      front, tail := whole, rest + [0x80];
      if curlen > 56 {
        PadTo(64);
        assert buf[..64] == buf[..];
        BlocksStep(whole, buf[..]);
        CompressInPlace(state, buf[..]);
        front, tail := whole + buf[..], [];
        curlen := 0;
      }
    }

    /** `sha_done`: the context is spent afterwards. */
    method Finish() returns (out: array<byte>)
      requires Valid()
      modifies this, state, buf
      ensures fresh(out) && out[..] == Digest(old(msg))
    {
      hide Compress, Blocks, BigEndian, Output, Padded;
      ghost var whole, rest := msg[..Whole(msg)], msg[Whole(msg)..];
      PaddedBlocks(msg);
      BitCountStep(Whole(msg), curlen);
      length := (length + curlen * 8) % 0x1_0000_0000_0000_0000;
      ghost var field := LengthField(msg);
      assert field == BigEndian(length, 8);
      ghost var front, tail := FirstPadding(whole, rest);
      ghost var last := tail + Zeros(56 - |tail|) + field;
      assert front + last == Padded(msg);
      BlocksStep(front, last);
      LastBlock(last);
      out := WriteOut();
    }

    method WriteOut() returns (out: array<byte>)
      requires state.Length == 8
      ensures fresh(out) && out[..] == Output(state[..])
    {
      hide BigEndian;
      out := new byte[32];
      assert out[..0] == Output(state[..0]);
      var i := 0;
      while i < state.Length
        invariant 0 <= i <= state.Length
        invariant out[..4 * i] == Output(state[..i])
      {
        OutputStep(state[..], i);
        Store(state[i], 4, out, 4 * i);
        FrontAndNext(out[..], 4 * i, 4);
        i := i + 1;
      }
      assert out[..] == out[..4 * i] && state[..i] == state[..];
    }
  }

  lemma FrontAndNext<T>(s: seq<T>, i: nat, n: nat)
    requires i + n <= |s|
    ensures s[..i + n] == s[..i] + s[i..i + n]
  {
  }

  lemma OutputStep(h: seq<word>, i: nat)
    requires i < |h|
    ensures Output(h[..i + 1]) == Output(h[..i]) + BigEndian(h[i], 4)
  {
    assert h[..i + 1][..i] == h[..i];
  }

  // ----- any way of feeding a message

  function Joined(pieces: seq<seq<byte>>): seq<byte>
    decreases |pieces|
  {
    if pieces == [] then [] else Joined(pieces[..|pieces| - 1]) + pieces[|pieces| - 1]
  }

  /** What `sha256_update` takes in of each piece. */
  function TakenIn(pieces: seq<seq<byte>>): (t: seq<seq<byte>>)
    ensures |t| == |pieces|
    decreases |pieces|
  {
    if pieces == [] then []
    else
      var last := pieces[|pieces| - 1];
      TakenIn(pieces[..|pieces| - 1]) + [last[..|last| % 0x1_0000_0000]]
  }

  /** All that is taken in of the pieces. */
  function Absorbed(pieces: seq<seq<byte>>): seq<byte> {
    Joined(TakenIn(pieces))
  }

  lemma AbsorbedStep(pieces: seq<seq<byte>>, i: nat)
    requires i < |pieces|
    ensures Absorbed(pieces[..i + 1]) == Absorbed(pieces[..i]) + pieces[i][..|pieces[i]| % 0x1_0000_0000]
  {
    var p := pieces[..i + 1];
    assert p[..i] == pieces[..i];
    var t := TakenIn(p);
    assert t[..i] == TakenIn(p[..i]);
  }

  /** The pieces of a message in turn give the digest of what is taken in, however it is cut. */
  method HashPieces(pieces: seq<seq<byte>>) returns (out: array<byte>)
    ensures out[..] == Digest(Absorbed(pieces))
  {
    assert Absorbed(pieces[..0]) == [];
    hide Digest, Absorbed;
    var c := new Context();
    var i := 0;
    while i < |pieces|
      invariant 0 <= i <= |pieces| && c.Valid() && fresh(c) && fresh(c.state) && fresh(c.buf)
      invariant c.msg == Absorbed(pieces[..i])
    {
      hide *;
      AbsorbedStep(pieces, i);
      c.Update(pieces[i]);
      i := i + 1;
    }
    assert pieces[..i] == pieces;
    out := c.Finish();
  }

  /** Every piece is shorter than 2^32 bytes. */
  predicate AllShort(pieces: seq<seq<byte>>)
    decreases |pieces|
  {
    pieces == [] || (|pieces[|pieces| - 1]| < 0x1_0000_0000 && AllShort(pieces[..|pieces| - 1]))
  }

  lemma {:induction false} TakenInWhole(pieces: seq<seq<byte>>)
    requires AllShort(pieces)
    ensures TakenIn(pieces) == pieces
    decreases |pieces|
  {
    if pieces != [] {
      var front, last := pieces[..|pieces| - 1], pieces[|pieces| - 1];
      TakenInWhole(front);
      assert last[..|last|] == last;
      assert pieces == front + [last];
    }
  }

  lemma {:induction false} TakenInLength(pieces: seq<seq<byte>>)
    ensures |Joined(TakenIn(pieces))| <= |Joined(pieces)|
    ensures !AllShort(pieces) ==> |Joined(TakenIn(pieces))| < |Joined(pieces)|
    decreases |pieces|
  {
    if pieces != [] {
      var front, last := pieces[..|pieces| - 1], pieces[|pieces| - 1];
      TakenInLength(front);
      var t := TakenIn(pieces);
      assert t[..|t| - 1] == TakenIn(front);
      assert t[|t| - 1] == last[..|last| % 0x1_0000_0000];
    }
  }

  /** The whole message is taken in exactly when every piece is shorter than 2^32 bytes. */
  lemma NothingDroppedIff(pieces: seq<seq<byte>>)
    ensures Absorbed(pieces) == Joined(pieces) <==> AllShort(pieces)
  {
    if AllShort(pieces) {
      TakenInWhole(pieces);
    } else {
      TakenInLength(pieces);
    }
  }
}
