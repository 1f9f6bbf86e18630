/**
 * The ring buffer of the asynchronous log writer: `struct ASYNCIO` without its lock,
 * semaphore and thread handle. Every method here is one piece of code that the source
 * runs while it holds the lock, and is proved against a step of `AsyncShared`.
 */
module AsyncShared {
  import opened Bytes

  const ASYNC_LOCAL_BUFSIZE: nat := 64 * 1024

  datatype Finish = Running | Close | Exit

  /** What the lock protects, with the ring seen as the queue of its unread bytes. */
  datatype Shared = Shared(queue: seq<byte>, finish: Finish, refcount: nat)

  /** What the drain thread does in one locked section. */
  datatype Outcome =
    | Leave(closeIo: bool)
    | Sleep
    | Take(local: seq<byte>)

  /** The unread bytes, the payload and one more byte fit a buffer. */
  predicate HasRoom(s: Shared, data: seq<byte>) {
    |s.queue| + |data| + 1 <= 0x8000_0000
  }

  function Enqueue(s: Shared, data: seq<byte>): Shared {
    s.(queue := s.queue + data)
  }

  /** What `aio_close` asks for. */
  function Closed(s: Shared): Shared {
    s.(finish := Close)
  }

  /** What `aio_wait` asks for: an earlier `aio_close` stays in force. */
  function Exiting(s: Shared): Shared {
    if s.finish == Running then s.(finish := Exit) else s
  }

  /** One owner less. */
  function Released(s: Shared): Shared
    requires s.refcount > 0
  {
    s.(refcount := s.refcount - 1)
  }

  function Drain(s: Shared): (Outcome, Shared)
    requires s.refcount > 0
  {
    if s.queue == [] then
      if s.finish == Running then (Sleep, s)
      else (Leave(s.finish == Close), Released(s))
    else
      var n := Min(|s.queue|, ASYNC_LOCAL_BUFSIZE);
      (Take(s.queue[..n]), s.(queue := s.queue[n..]))
  }
}

module AsyncRing {
  import opened Bytes
  import opened AsyncShared

  const ASYNC_BUFSIZE: nat := 8 * 1024
  const UINT_LIMIT: nat := 0x1_0000_0000
  const MAX_BUFSIZE: nat := 0x8000_0000

  /** The sizes a buffer can have: the initial one, doubled without wrapping around. */
  ghost predicate IsBufferSize(n: nat) {
    exists k: nat :: k <= 18 && n == 8192 * Pow2(k)
  }

  lemma Pow2Monotone(a: nat, b: nat)
    requires a <= b
    ensures Pow2(a) <= Pow2(b)
  {
    if a < b { Pow2Monotone(a, b - 1); }
  }

  lemma Pow2Of18()
    ensures Pow2(18) == 0x4_0000
  {
    assert Pow2(4) == 16;
    assert Pow2(8) == 256;
    assert Pow2(12) == 4096;
    assert Pow2(16) == 65536;
  }

  lemma BufferSizeAt(k: nat)
    requires k <= 18
    ensures 8192 <= 8192 * Pow2(k) <= 0x8000_0000
    ensures k == 18 ==> 8192 * Pow2(k) == 0x8000_0000
  {
    Pow2Of18();
    Pow2Monotone(k, 18);
  }

  lemma BufferSizeBounds(n: nat)
    requires IsBufferSize(n)
    ensures ASYNC_BUFSIZE <= n <= MAX_BUFSIZE
    ensures n < MAX_BUFSIZE ==> IsBufferSize(2 * n)
    ensures n == MAX_BUFSIZE || 2 * n <= MAX_BUFSIZE
  {
    var k: nat :| k <= 18 && n == 8192 * Pow2(k);
    BufferSizeAt(k);
    if k < 18 {
      BufferSizeAt(k + 1);
    }
  }

  /** `cur_size` after `n` doublings in 32-bit unsigned arithmetic. */
  function Doubled(cur: nat, n: nat): nat {
    if n == 0 then cur else Doubled(cur, n - 1) * 2 % 0x1_0000_0000
  }

  lemma {:induction false} DoubledSmall(cur: nat, n: nat)
    requires IsBufferSize(cur)
    ensures Doubled(cur, n) == 0 || IsBufferSize(Doubled(cur, n))
  {
    hide IsBufferSize;
    if n > 0 {
      DoubledSmall(cur, n - 1);
      if Doubled(cur, n - 1) != 0 {
        BufferSizeBounds(Doubled(cur, n - 1));
      }
    }
  }

  lemma {:induction false} DoubledReaches(cur: nat, need: nat) returns (n: nat)
    requires IsBufferSize(cur) && need <= MAX_BUFSIZE
    ensures Doubled(cur, n) >= need
    decreases need - cur
  {
    n := 0;
    if cur < need {
      BufferSizeBounds(cur);
      var m := DoubledReaches(2 * cur, need);
      DoubledShift(cur, m);
      n := m + 1;
    }
  }

  lemma {:induction false} DoubledShift(cur: nat, n: nat)
    requires 2 * cur < UINT_LIMIT
    ensures Doubled(2 * cur, n) == Doubled(cur, n + 1)
  {
    if n > 0 { DoubledShift(cur, n - 1); }
  }

  /**
   * The doubling loop of `next_buffer_size` ever reaches the needed size exactly when that
   * size is at most 2^31: beyond it the size wraps around to 0 and the loop never ends.
   */
  lemma GrowthTerminatesIff(cur: nat, need: nat)
    requires IsBufferSize(cur) && need < UINT_LIMIT
    ensures (exists n: nat :: Doubled(cur, n) >= need) <==> need <= MAX_BUFSIZE
  {
    if need <= MAX_BUFSIZE {
      var n := DoubledReaches(cur, need);
    } else {
      forall n: nat ensures Doubled(cur, n) < need {
        DoubledSmall(cur, n);
        if Doubled(cur, n) != 0 { BufferSizeBounds(Doubled(cur, n)); }
      }
    }
  }

  /** The loop ends after `n` doublings. */
  ghost predicate EndsAfter(cur: nat, need: nat, n: nat) {
    Doubled(cur, n) >= need && forall m: nat :: m < n ==> Doubled(cur, m) < need
  }

  /** The size the growing branch asks for; the sum is an unsigned int. */
  function NewWritten(used: nat, size: nat): nat {
    (used + size + 1) % 0x1_0000_0000
  }

  lemma {:induction false} FirstDoubling(cur: nat, need: nat, bound: nat) returns (n: nat)
    requires Doubled(cur, bound) >= need
    ensures n <= bound && EndsAfter(cur, need, n)
    decreases bound
  {
    if m: nat :| m < bound && Doubled(cur, m) >= need {
      n := FirstDoubling(cur, need, m);
    } else {
      n := bound;
    }
  }

  /**
   * The growing branch gets a buffer with room for the unread bytes, the payload and one more
   * byte exactly when that sum is at most 2^31. From there up to 2^32 the loop does not end;
   * from 2^32 on the sum wraps around, the loop ends, and the buffer is too small.
   */
  lemma GrowsEnoughIff(cur: nat, used: nat, size: nat)
    requires IsBufferSize(cur) && used < cur && size < UINT_LIMIT
    ensures (exists n: nat :: EndsAfter(cur, NewWritten(used, size), n) && Doubled(cur, n) >= used + size + 1)
            <==> used + size + 1 <= MAX_BUFSIZE
    ensures used + size + 1 >= UINT_LIMIT ==> EndsAfter(cur, NewWritten(used, size), 0) && cur < used + size
  {
    hide IsBufferSize;
    BufferSizeBounds(cur);
    if used + size + 1 <= MAX_BUFSIZE {
      var bound := DoubledReaches(cur, used + size + 1);
      var n := FirstDoubling(cur, used + size + 1, bound);
    } else {
      forall n: nat ensures Doubled(cur, n) <= MAX_BUFSIZE {
        DoubledSmall(cur, n);
        if Doubled(cur, n) != 0 { BufferSizeBounds(Doubled(cur, n)); }
      }
    }
  }

  /** The smallest buffer size reached by doubling `cur` that is at least `need`. */
  method NextBufferSize(cur: nat, need: nat) returns (r: nat)
    requires IsBufferSize(cur) && need <= MAX_BUFSIZE
    ensures IsBufferSize(r) && need <= r
    ensures exists n: nat :: r == Doubled(cur, n) && forall m: nat :: m < n ==> Doubled(cur, m) < need
  {
    hide IsBufferSize;
    r := cur;
    ghost var n: nat := 0;
    while r < need
      invariant IsBufferSize(r) && r == Doubled(cur, n)
      invariant forall m: nat :: m < n ==> Doubled(cur, m) < need
      decreases need - r
    {
      BufferSizeBounds(r);
      r := r * 2 % 0x1_0000_0000;
      n := n + 1;
    }
  }

  /** The unread bytes of a ring, oldest first. */
  function Unread<T>(buf: seq<T>, r: nat, w: nat): (s: seq<T>)
    requires r < |buf| && w < |buf|
    ensures |s| < |buf|
  {
    if r <= w then buf[r..w] else buf[r..] + buf[..w]
  }

  /** `data` laid over the bytes of `buf` from offset `at` on. */
  function Overwrite<T>(buf: seq<T>, at: nat, data: seq<T>): (s: seq<T>)
    requires at + |data| <= |buf|
    ensures |s| == |buf|
  {
    buf[..at] + data + buf[at + |data|..]
  }

  /** A position moved on by less than one turn. */
  function Wrapped(pos: nat, size: nat): nat {
    if pos < size then pos else if pos < 2 * size then pos - size else 0
  }

  lemma WrappedIsModulo(pos: nat, size: nat)
    requires pos < 2 * size
    ensures pos % size == Wrapped(pos, size) < size
  {
    if pos < size {
      assert pos % size == pos;
    } else {
      assert (pos - size) % size == pos - size;
      assert pos == size * 1 + (pos - size);
    }
  }

  /** Writing behind the unread bytes, without filling the ring, appends to them. */
  lemma UnreadAfterWrite<T>(buf: seq<T>, r: nat, w: nat, data: seq<T>)
    requires r < |buf| && w < |buf| && w + |data| <= |buf|
    requires |data| < |buf| - |Unread(buf, r, w)|
    ensures Wrapped(w + |data|, |buf|) < |buf|
    ensures Unread(Overwrite(buf, w, data), r, Wrapped(w + |data|, |buf|)) == Unread(buf, r, w) + data
  {
    if w < r {
      WriteBelowRead(buf, r, w, data);
    } else if w + |data| < |buf| {
      WriteInside(buf, r, w, data);
    } else {
      WriteToEnd(buf, r, w, data);
    }
  }

  lemma WriteBelowRead<T>(buf: seq<T>, r: nat, w: nat, data: seq<T>)
    requires w + |data| <= r < |buf|
    ensures Overwrite(buf, w, data)[r..] == buf[r..]
    ensures Overwrite(buf, w, data)[..w + |data|] == buf[..w] + data
  {
  }

  lemma WriteInside<T>(buf: seq<T>, r: nat, w: nat, data: seq<T>)
    requires r <= w && w + |data| <= |buf|
    ensures Overwrite(buf, w, data)[r..w + |data|] == buf[r..w] + data
  {
  }

  lemma WriteToEnd<T>(buf: seq<T>, r: nat, w: nat, data: seq<T>)
    requires r <= w && w + |data| == |buf|
    ensures Overwrite(buf, w, data)[r..] == buf[r..w] + data
  {
    WriteInside(buf, r, w, data);
    assert Overwrite(buf, w, data)[r..|buf|] == Overwrite(buf, w, data)[r..];
  }

  /** Advancing the read position past `n` unread bytes drops exactly those. */
  lemma UnreadAfterRead<T>(buf: seq<T>, r: nat, w: nat, n: nat)
    requires r < |buf| && w < |buf|
    requires n <= |Unread(buf, r, w)|
    ensures Wrapped(r + n, |buf|) < |buf|
    ensures Unread(buf, Wrapped(r + n, |buf|), w) == Unread(buf, r, w)[n..]
  {
    if r <= w {
      assert buf[r..w][n..] == buf[r + n..w];
    } else if r + n < |buf| {
      assert (buf[r..] + buf[..w])[n..] == buf[r + n..] + buf[..w];
    } else {
      assert (buf[r..] + buf[..w])[n..] == buf[r + n - |buf|..w];
    }
  }

  /** Filling `cap` bytes from two pieces in turn takes the oldest `cap` bytes of both. */
  lemma PiecesInOrder<T>(a: seq<T>, b: seq<T>, cap: nat)
    ensures var n := Min(|a|, cap); var m := Min(|b|, cap - n);
            n + m == Min(|a| + |b|, cap) && a[..n] + b[..m] == (a + b)[..n + m]
  {
  }

  /** A pointer into the ring and a length, or NULL. */
  datatype Span = Null | Span(at: nat, len: nat)

  /** Copies as much of the two pieces as fits into the local buffer. */
  method FillLocal(localBuffer: array<byte>, piece1: seq<byte>, piece2: seq<byte>) returns (len1: nat, len2: nat)
    modifies localBuffer
    ensures len1 + len2 == Min(|piece1 + piece2|, localBuffer.Length)
    ensures localBuffer[..len1 + len2] == (piece1 + piece2)[..len1 + len2]
  {
    PiecesInOrder(piece1, piece2, localBuffer.Length);
    len1 := Min(|piece1|, localBuffer.Length);
    var n := Append(localBuffer, 0, piece1[..len1]);
    len2 := Min(|piece2|, localBuffer.Length - n);
    n := Append(localBuffer, n, piece2[..len2]);
  }

  class AsyncIo {
    var buffer: array<byte>
    var readPos: nat
    var writePos: nat
    var finish: Finish
    var refcount: nat

    ghost predicate Valid()
      reads this
    {
      && IsBufferSize(buffer.Length)
      && readPos < buffer.Length && writePos < buffer.Length
    }

    ghost function View(): Shared
      reads this, buffer
      requires Valid()
    {
      Shared(Unread(buffer[..], readPos, writePos), finish, refcount)
    }

    constructor ()
      ensures Valid() && fresh(buffer)
      ensures View() == Shared([], Running, 2)
    {
      buffer := new byte[ASYNC_BUFSIZE];
      readPos, writePos := 0, 0;
      finish, refcount := Running, 2;
      new;
      assert buffer.Length == 8192 * Pow2(0);
    }

    /** The unread bytes as one or two contiguous pieces of the buffer. */
    method BufferPtrs() returns (buf1: Span, buf2: Span)
      requires Valid()
      ensures buf1.Null? <==> View().queue == []
      ensures buf1.Null? ==> buf2.Null?
      ensures buf1.Span? ==> buf1.at == readPos && buf1.at + buf1.len <= buffer.Length
      ensures buf2.Span? ==> buf2.at == 0 && buf2.len == writePos && buf1.Span? && buf1.at + buf1.len == buffer.Length
      ensures View().queue == (if buf1.Null? then [] else buffer[buf1.at..buf1.at + buf1.len])
                              + (if buf2.Null? then [] else buffer[..buf2.len])
    {
      buf1, buf2 := Null, Null;
      if readPos < writePos {
        buf1 := Span(readPos, writePos - readPos);
      } else if readPos > writePos {
        buf1 := Span(readPos, buffer.Length - readPos);
        buf2 := Span(0, writePos);
      }
    }

    method BufferLen() returns (n: nat)
      requires Valid()
      ensures n == |View().queue|
    {
      BufferSizeBounds(buffer.Length);
      if writePos >= readPos {
        n := writePos - readPos;
      } else {
        assert buffer.Length + writePos < UINT_LIMIT;
        n := buffer.Length + writePos - readPos;
      }
    }

    /** `aio_write_unlocked`: appends to the queue, over the wrap and through growth. */
    method WriteUnlocked(data: seq<byte>)
      requires Valid()
      requires HasRoom(View(), data)
      modifies this`buffer, this`readPos, this`writePos, buffer
      ensures Valid() && (buffer == old(buffer) || fresh(buffer))
      ensures View() == Enqueue(old(View()), data)
    {
      var used := BufferLen();
      if |data| < buffer.Length - used {
        WriteInPlace(data);
      } else {
        WriteGrowing(data, used);
      }
    }

    method WriteInPlace(data: seq<byte>)
      requires Valid()
      requires |data| < buffer.Length - |View().queue|
      modifies this`writePos, buffer
      ensures Valid()
      ensures View() == Enqueue(old(View()), data)
    {
      var contiguous := buffer.Length - writePos;
      if |data| > contiguous {
        FillToEnd(data[..contiguous]);
        WriteContiguous(data[contiguous..]);
        assert data == data[..contiguous] + data[contiguous..];
      } else {
        WriteContiguous(data);
      }
    }

    method FillToEnd(data: seq<byte>)
      requires Valid() && |data| == buffer.Length - writePos
      requires |data| < buffer.Length - |View().queue|
      modifies this`writePos, buffer
      ensures Valid() && writePos == 0
      ensures View() == Enqueue(old(View()), data)
    {
      UnreadAfterWrite(buffer[..], readPos, writePos, data);
      MemCopy(buffer, writePos, data);
      assert buffer[..] == Overwrite(old(buffer[..]), writePos, data);
      writePos := 0;
    }

    method WriteContiguous(data: seq<byte>)
      requires Valid() && |data| <= buffer.Length - writePos
      requires |data| < buffer.Length - |View().queue|
      modifies this`writePos, buffer
      ensures Valid()
      ensures View() == Enqueue(old(View()), data)
    {
      hide IsBufferSize;
      UnreadAfterWrite(buffer[..], readPos, writePos, data);
      MemCopy(buffer, writePos, data);
      assert buffer[..] == Overwrite(old(buffer[..]), writePos, data);
      BufferSizeBounds(buffer.Length);
      assert writePos + |data| < UINT_LIMIT;
      WrappedIsModulo(writePos + |data|, buffer.Length);
      writePos := (writePos + |data|) % buffer.Length;
    }

    method WriteGrowing(data: seq<byte>, used: nat)
      requires Valid()
      requires used == |View().queue| && |data| >= buffer.Length - used
      requires used + |data| + 1 <= MAX_BUFSIZE
      modifies this`buffer, this`readPos, this`writePos
      ensures Valid() && fresh(buffer)
      ensures View() == Enqueue(old(View()), data)
    {
      hide IsBufferSize;
      var nextSize := NextBufferSize(buffer.Length, used + |data| + 1);
      var nextLen := 0;
      var next := new byte[nextSize];
      var buf1, buf2 := BufferPtrs();
      ghost var queue := View().queue;
      assert next[..nextLen] == [];
      if buf1.Span? {
        nextLen := Append(next, nextLen, buffer[buf1.at..buf1.at + buf1.len]);
        if buf2.Span? {
          nextLen := Append(next, nextLen, buffer[..buf2.len]);
        }
      }
      assert next[..nextLen] == queue;
      nextLen := Append(next, nextLen, data);
      buffer := next;
      readPos := 0;
      writePos := nextLen;
      assert View().queue == next[..nextLen];
    }

    /**
     * The locked section of `aio_thread`: leave, go to sleep, or move the oldest bytes into
     * the thread's local buffer, of which the first `n` bytes are then the ones to write.
     */
    method DrainLocked(localBuffer: array<byte>) returns (outcome: Outcome, n: nat)
      requires Valid() && localBuffer != buffer && localBuffer.Length == ASYNC_LOCAL_BUFSIZE
      requires refcount > 0
      modifies this`readPos, this`refcount, localBuffer
      ensures Valid()
      ensures outcome == Drain(old(View())).0
      ensures View() == Drain(old(View())).1
      ensures outcome.Take? ==> n <= localBuffer.Length && localBuffer[..n] == outcome.local
    {
      n := 0;
      if readPos == writePos {
        assert View().queue == [];
        if finish != Running {
          outcome := Leave(finish == Close);
          refcount := refcount - 1;
        } else {
          outcome := Sleep;
        }
        return;
      }
      assert View().queue != [];
      n := TakeOldest(localBuffer);
      outcome := Take(localBuffer[..n]);
    }

    method TakeOldest(localBuffer: array<byte>) returns (n: nat)
      requires Valid() && localBuffer != buffer && localBuffer.Length == ASYNC_LOCAL_BUFSIZE
      requires readPos != writePos
      modifies this`readPos, localBuffer
      ensures Valid()
      ensures n == Min(|old(View()).queue|, ASYNC_LOCAL_BUFSIZE)
      ensures localBuffer[..n] == old(View()).queue[..n]
      ensures View() == old(View()).(queue := old(View()).queue[n..])
    {
      hide IsBufferSize;
      var len1, len2 := CopyOldest(localBuffer);
      n := len1 + len2;
      BufferSizeBounds(buffer.Length);
      assert readPos + len1 + len2 < UINT_LIMIT;
      WrappedIsModulo(readPos + n, buffer.Length);
      UnreadAfterRead(buffer[..], readPos, writePos, n);
      readPos := (readPos + len1 + len2) % buffer.Length;
    }

    method CopyOldest(localBuffer: array<byte>) returns (len1: nat, len2: nat)
      requires Valid() && localBuffer != buffer && localBuffer.Length == ASYNC_LOCAL_BUFSIZE
      requires readPos != writePos
      modifies localBuffer
      ensures len1 + len2 == Min(|View().queue|, ASYNC_LOCAL_BUFSIZE)
      ensures localBuffer[..len1 + len2] == View().queue[..len1 + len2]
    {
      var buf1, buf2 := BufferPtrs();
      len1, len2 := FillLocal(localBuffer, buffer[buf1.at..buf1.at + buf1.len],
                              if buf2.Null? then [] else buffer[..buf2.len]);
    }

    /** The locked section of `aio_close`. */
    method SetClose()
      requires Valid()
      modifies this`finish
      ensures Valid() && View() == Closed(old(View()))
    {
      finish := Close;
    }

    /** The locked section of `aio_wait`: an earlier `aio_close` stays in force. */
    method SetExit()
      requires Valid()
      modifies this`finish
      ensures Valid()
      ensures View() == Exiting(old(View()))
    {
      if finish == Running {
        finish := Exit;
      }
    }

    /** `aio_handle_free_and_unlock`: the last of the two owners frees the memory. */
    method Release() returns (doFree: bool)
      requires Valid() && refcount > 0
      modifies this`refcount
      ensures Valid() && View() == Released(old(View()))
      ensures doFree <==> View().refcount == 0
    {
      refcount := refcount - 1;
      doFree := refcount == 0;
    }
  }
}
