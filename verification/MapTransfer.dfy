/**
 * Sending the map: `SendMapData` and the handler of NETMSG_REQUEST_MAP_DATA with its
 * send-ahead window.
 */
module MapTransfer {
  import opened Bytes

  datatype Message = Message(last: bool, chunk: int, data: seq<byte>)

  /** `Chunk * ChunkSize` as an unsigned int of 32 bits; a chunk has 1024 - 128 bytes. */
  function Offset(chunk: int): nat {
    chunk * 896 % 0x1_0000_0000
  }

  /** The product is exact for the first 4793491 chunks only. */
  lemma OffsetExactIff(chunk: nat)
    ensures Offset(chunk) == chunk * 896 <==> chunk <= 4_793_490
  {
  }

  /** What `SendMapData` reads for a chunk lies in the map. */
  predicate ReadsInside(size: nat, chunk: nat) {
    var o := Offset(chunk);
    o <= size ==> (o + 896) % 0x1_0000_0000 >= size || o + 896 <= size
  }

  /** That is so for every chunk exactly for maps of less than 2^32 - 896 bytes. */
  lemma ReadsInsideIff(size: nat)
    requires size < 0x1_0000_0000
    ensures (forall chunk: nat :: ReadsInside(size, chunk)) <==> size < 0x1_0000_0000 - 896
  {
    if size >= 0x1_0000_0000 - 896 {
      assert Offset(33_554_431) == 0x1_0000_0000 - 896;
      assert !ReadsInside(size, 33_554_431);
    }
  }

  /** What goes out for one chunk: one message, or nothing for a faulty request. */
  function ChunkMessages(map_: seq<byte>, chunk: int): seq<Message> {
    var offset := Offset(chunk);
    if chunk < 0 || offset > |map_| then []
    else [Message(offset + 896 >= |map_|, chunk, map_[offset..Min(offset + 896, |map_|)])]
  }

  function ChunkRange(map_: seq<byte>, lo: int, hi: int): seq<Message>
    decreases hi - lo
  {
    if lo >= hi then [] else ChunkRange(map_, lo, hi - 1) + ChunkMessages(map_, hi - 1)
  }

  /** What a client's requests depend on: the next chunk expected, and what has been sent. */
  datatype Progress = Progress(next: int, sent: seq<Message>)

  datatype Config = Config(window: nat, fastDownload: bool, sixup: bool)

  /** The effect of one request. */
  function Requested(map_: seq<byte>, c: Config, p: Progress, chunk: int): Progress {
    if c.sixup then Progress(p.next + c.window, p.sent + ChunkRange(map_, p.next, p.next + c.window))
    else if chunk != p.next || !c.fastDownload then p.(sent := p.sent + ChunkMessages(map_, chunk))
    else
      var ahead := if chunk == 0 then ChunkRange(map_, 0, c.window) else [];
      Progress(p.next + 1, p.sent + ahead + ChunkMessages(map_, c.window + p.next))
  }

  class MapSender {
    const currentMap: seq<byte>
    const config: Config
    var nextMapChunk: int
    ghost var sent: seq<Message>

    ghost predicate Valid() {
      |currentMap| < 0x1_0000_0000 - 896
    }

    ghost function View(): Progress
      reads this
    {
      Progress(nextMapChunk, sent)
    }

    /** The end of `SendMap`. */
    constructor (map_: seq<byte>, config: Config)
      requires |map_| < 0x1_0000_0000 - 896
      ensures Valid() && View() == Progress(0, []) && currentMap == map_ && this.config == config
    {
      currentMap, this.config := map_, config;
      nextMapChunk, sent := 0, [];
    }

    method SendMapData(chunk: int)
      requires Valid()
      modifies this`sent
      ensures sent == old(sent) + ChunkMessages(currentMap, chunk)
    {
      var chunkSize := 896;
      var offset := chunk * 896 % 0x1_0000_0000;
      var last := false;
      if chunk < 0 || offset > |currentMap| {
        return;
      }
      if (offset + chunkSize) % 0x1_0000_0000 >= |currentMap| {
        chunkSize := |currentMap| - offset;
        last := true;
      }
      sent := sent + [Message(last, chunk, currentMap[offset..offset + chunkSize])];
    }

    method RequestMapData(chunk: int)
      requires Valid()
      modifies this
      ensures View() == Requested(currentMap, config, old(View()), chunk)
    {
      hide ChunkMessages;
      ghost var before, first := sent, nextMapChunk;
      if config.sixup {
        for i := 0 to config.window
          invariant nextMapChunk == first + i && sent == before + ChunkRange(currentMap, first, first + i)
        {
          SendMapData(nextMapChunk);
          nextMapChunk := nextMapChunk + 1;
        }
        return;
      }
      if chunk != nextMapChunk || !config.fastDownload {
        SendMapData(chunk);
        return;
      }
      if chunk == 0 {
        for i := 0 to config.window
          invariant nextMapChunk == first && sent == before + ChunkRange(currentMap, 0, i)
        {
          SendMapData(i);
        }
      }
      SendMapData(config.window + nextMapChunk);
      nextMapChunk := nextMapChunk + 1;
    }
  }

  // ----- runs of requests

  function Run(map_: seq<byte>, c: Config, requests: seq<int>): Progress
    decreases |requests|
  {
    if requests == [] then Progress(0, [])
    else Requested(map_, c, Run(map_, c, requests[..|requests| - 1]), requests[|requests| - 1])
  }

  function UpTo(n: nat): (r: seq<int>)
    ensures |r| == n
  {
    seq(n, i => i)
  }

  lemma {:induction false} RangeSplit(map_: seq<byte>, lo: int, mid: int, hi: int)
    requires lo <= mid <= hi
    ensures ChunkRange(map_, lo, hi) == ChunkRange(map_, lo, mid) + ChunkRange(map_, mid, hi)
    decreases hi - mid
  {
    hide ChunkMessages;
    if mid < hi { RangeSplit(map_, lo, mid, hi - 1); }
  }

  /** With fast download, requests in order get every chunk of the window once and in order. */
  lemma {:induction false} FastDownload(map_: seq<byte>, c: Config, k: nat)
    requires !c.sixup && c.fastDownload && k > 0
    ensures Run(map_, c, UpTo(k)) == Progress(k, ChunkRange(map_, 0, c.window + k))
  {
    hide ChunkMessages;
    assert UpTo(k)[..k - 1] == UpTo(k - 1) && UpTo(k)[k - 1] == k - 1;
    if k > 1 {
      FastDownload(map_, c, k - 1);
    } else {
      assert Run(map_, c, UpTo(0)) == Progress(0, []);
    }
  }

  /** Without fast download each request gets its own chunk and nothing else. */
  lemma {:induction false} PlainDownload(map_: seq<byte>, c: Config, k: nat)
    requires !c.sixup && !c.fastDownload
    ensures Run(map_, c, UpTo(k)) == Progress(0, ChunkRange(map_, 0, k))
  {
    hide ChunkMessages;
    if k > 0 {
      assert UpTo(k)[..k - 1] == UpTo(k - 1) && UpTo(k)[k - 1] == k - 1;
      PlainDownload(map_, c, k - 1);
    }
  }

  /** With it, a request out of turn gets its own chunk again and does not move the window. */
  lemma RequestAgain(map_: seq<byte>, c: Config, requests: seq<int>, chunk: int)
    requires !c.sixup && c.fastDownload && chunk != Run(map_, c, requests).next
    ensures var before := Run(map_, c, requests);
            Run(map_, c, requests + [chunk]) == Progress(before.next, before.sent + ChunkRange(map_, chunk, chunk + 1))
  {
    hide ChunkMessages;
    assert (requests + [chunk])[..|requests|] == requests;
    assert ChunkRange(map_, chunk, chunk + 1) == ChunkRange(map_, chunk, chunk) + ChunkMessages(map_, chunk);
  }

  /** `n` windows of chunks. */
  function Windows(n: nat, w: nat): nat {
    if n == 0 then 0 else Windows(n - 1, w) + w
  }

  lemma OneMore(n: nat, w: nat)
    requires n > 0
    ensures n * w == (n - 1) * w + w
  {
  }

  lemma {:induction false} WindowsIs(n: nat, w: nat)
    ensures Windows(n, w) == n * w
  {
    if n > 0 {
      WindowsIs(n - 1, w);
      OneMore(n, w);
    }
  }

  lemma {:induction false} SixupSteps(map_: seq<byte>, c: Config, requests: seq<int>)
    requires c.sixup
    ensures var n := Windows(|requests|, c.window);
            Run(map_, c, requests) == Progress(n, ChunkRange(map_, 0, n))
    decreases |requests|
  {
    hide ChunkMessages;
    if requests != [] {
      var n := |requests| - 1;
      SixupSteps(map_, c, requests[..n]);
      RangeSplit(map_, 0, Windows(n, c.window), Windows(n + 1, c.window));
    }
  }

  /** A client of the newer protocol gets a window of chunks for each request. */
  lemma SixupDownload(map_: seq<byte>, c: Config, requests: seq<int>)
    requires c.sixup
    ensures |requests| * c.window >= 0
    ensures Run(map_, c, requests) == Progress(|requests| * c.window, ChunkRange(map_, 0, |requests| * c.window))
  {
    hide Run, ChunkRange;
    SixupSteps(map_, c, requests);
    WindowsIs(|requests|, c.window);
  }

  function Payload(ms: seq<Message>): seq<byte>
    decreases |ms|
  {
    if ms == [] then [] else Payload(ms[..|ms| - 1]) + ms[|ms| - 1].data
  }

  /** How many of the first `n` chunks do not start behind the end of the map. */
  function Count(size: nat, n: nat): nat {
    Min(n, size / 896 + 1)
  }

  /** None of the first `n` chunks has an offset that wraps around into the map. */
  ghost predicate NoneWraps(size: nat, n: nat) {
    forall i :: 4_793_491 <= i < n ==> Offset(i) > size
  }

  /** The messages are the pieces of the map in order, up to its end, each once. */
  ghost predicate Faithful(map_: seq<byte>, ms: seq<Message>, n: nat) {
    && |ms| == Count(|map_|, n)
    && (forall i :: 0 <= i < |ms| ==> Piece(map_, ms[i], i))
    && Payload(ms) == map_[..Min(n * 896, |map_|)]
  }

  /** The message has number `i` and the `i`-th piece of the map. */
  ghost predicate Piece(map_: seq<byte>, m: Message, i: nat) {
    && i * 896 <= |map_|
    && m.chunk == i
    && m.data == map_[i * 896..Min((i + 1) * 896, |map_|)]
    && (m.last <==> (i + 1) * 896 >= |map_|)
  }

  /**
   * The messages for the first `n` chunks: numbered from 0 on without a gap, each with its
   * piece of the map, and flagged as last exactly if its piece reaches the end. Together they
   * are a prefix of the map.
   */
  lemma {:induction false} RangeIs(map_: seq<byte>, n: nat)
    requires |map_| < 0x1_0000_0000 - 896 && NoneWraps(|map_|, n)
    ensures Faithful(map_, ChunkRange(map_, 0, n), n)
  {
    hide Faithful, ChunkMessages, NoneWraps;
    if n > 0 {
      OneLess(|map_|, n);
      RangeIs(map_, n - 1);
      FaithfulNext(map_, ChunkRange(map_, 0, n - 1), n - 1);
    } else {
      NoChunks(map_);
    }
  }

  lemma NoChunks(map_: seq<byte>)
    ensures Faithful(map_, [], 0)
  {
    hide Piece;
  }

  lemma OneLess(size: nat, n: nat)
    requires n > 0 && NoneWraps(size, n)
    ensures NoneWraps(size, n - 1) && (n - 1 >= 4_793_491 ==> Offset(n - 1) > size)
  {
    hide Offset;
  }

  lemma FaithfulNext(map_: seq<byte>, front: seq<Message>, i: nat)
    requires |map_| < 0x1_0000_0000 - 896 && (i >= 4_793_491 ==> Offset(i) > |map_|)
    requires Faithful(map_, front, i)
    ensures Faithful(map_, front + ChunkMessages(map_, i), i + 1)
  {
    hide Piece, ChunkMessages, Offset, Count, Min;
    var more := ChunkMessages(map_, i);
    Adding(map_, i);
    if more == [] {
      assert front + more == front;
    } else {
      assert more == [more[0]];
      assert (front + more)[..|front|] == front;
      assert Payload(front + more) == Payload(front) + more[0].data;
    }
  }

  /** That is so exactly as long as no offset wraps around into the map. */
  lemma RangeIsIff(map_: seq<byte>, n: nat)
    requires |map_| < 0x1_0000_0000 - 896
    ensures Faithful(map_, ChunkRange(map_, 0, n), n) <==> NoneWraps(|map_|, n)
  {
    hide ChunkMessages, Offset;
    if NoneWraps(|map_|, n) {
      RangeIs(map_, n);
    } else {
      var i :| 4_793_491 <= i < n && Offset(i) <= |map_|;
      RangeSplit(map_, 0, i, i + 1);
      RangeSplit(map_, 0, i + 1, n);
      assert ChunkRange(map_, i, i + 1) == ChunkRange(map_, i, i) + ChunkMessages(map_, i);
      var m := Wrapped(map_, i);
      var k := |ChunkRange(map_, 0, i)|;
      assert ChunkRange(map_, 0, n)[k] == m;
    }
  }

  /** The message for such a chunk is no piece of the map. */
  lemma Wrapped(map_: seq<byte>, i: nat) returns (m: Message)
    requires |map_| < 0x1_0000_0000 - 896 && i >= 4_793_491 && Offset(i) <= |map_|
    ensures ChunkMessages(map_, i) == [m] && forall k: nat :: !Piece(map_, m, k)
  {
    m := ChunkMessages(map_, i)[0];
  }

  /** For chunk numbers below the first wrap there is nothing to check. */
  lemma FewChunks(size: nat, n: nat)
    ensures n <= 4_793_491 ==> NoneWraps(size, n)
    ensures size >= 640 && n > 4_793_491 ==> !NoneWraps(size, n)
  {
    assert Offset(4_793_491) == 640;
  }

  lemma Adding(map_: seq<byte>, i: nat)
    requires |map_| < 0x1_0000_0000 - 896 && (i >= 4_793_491 ==> Offset(i) > |map_|)
    ensures var more := ChunkMessages(map_, i);
            && Count(|map_|, i + 1) == Count(|map_|, i) + |more|
            && (more == [] ==> Min((i + 1) * 896, |map_|) == Min(i * 896, |map_|))
            && (more != [] ==>
                  && Count(|map_|, i) == i
                  && |more| == 1 && Piece(map_, more[0], i)
                  && map_[..Min(i * 896, |map_|)] + more[0].data == map_[..Min((i + 1) * 896, |map_|)])
  {
    OffsetExactIff(i);
    if i >= 4_793_491 {
      assert i * 896 > |map_|;
    }
  }

  /** Requests in order get a prefix of the map, and far enough the whole map. */
  lemma WholeMap(map_: seq<byte>, c: Config, k: nat)
    requires !c.sixup && c.fastDownload && k > 0 && |map_| < 0x1_0000_0000 - 896
    ensures var (sent, n) := (Run(map_, c, UpTo(k)).sent, c.window + k);
            && (Faithful(map_, sent, n) <==> NoneWraps(|map_|, n))
            && (n * 896 >= |map_| && NoneWraps(|map_|, n) ==> Payload(sent) == map_)
  {
    hide Piece, NoneWraps;
    FastDownload(map_, c, k);
    RangeIsIff(map_, c.window + k);
  }

  /** The same holds without fast download, for the chunks that have been requested. */
  lemma WholeMapPlain(map_: seq<byte>, c: Config, k: nat)
    requires !c.sixup && !c.fastDownload && |map_| < 0x1_0000_0000 - 896
    ensures var sent := Run(map_, c, UpTo(k)).sent;
            && (Faithful(map_, sent, k) <==> NoneWraps(|map_|, k))
            && (k * 896 >= |map_| && NoneWraps(|map_|, k) ==> Payload(sent) == map_)
  {
    hide Piece, NoneWraps;
    PlainDownload(map_, c, k);
    RangeIsIff(map_, k);
  }

  /** A map whose size is a multiple of a chunk gets a second, empty last message. */
  lemma EmptyLastIff(map_: seq<byte>, n: nat)
    requires |map_| < 0x1_0000_0000 - 896 && |map_| / 896 < n && NoneWraps(|map_|, n)
    ensures var ms := ChunkRange(map_, 0, n);
            && |ms| == |map_| / 896 + 1 && ms[|ms| - 1].last
            && (forall i :: 0 <= i < |ms| - 2 ==> !ms[i].last)
            && (|map_| % 896 == 0 <==> ms[|ms| - 1].data == [])
            && (|ms| >= 2 ==> (ms[|ms| - 2].last <==> |map_| % 896 == 0))
  {
    RangeIs(map_, n);
    var ms := ChunkRange(map_, 0, n);
    var q := |map_| / 896;
    assert Piece(map_, ms[q], q);
    if q > 0 { assert Piece(map_, ms[q - 1], q - 1); }
    forall i | 0 <= i < |ms| - 2
      ensures !ms[i].last
    {
      assert Piece(map_, ms[i], i);
    }
  }

  /**
   * The message holds the 896 bytes at its chunk's offset, or those up to the end of the map,
   * and is flagged as last exactly if they reach it.
   */
  ghost predicate FromMap(map_: seq<byte>, m: Message) {
    var o := Offset(m.chunk);
    && m.chunk >= 0 && o <= |map_|
    && m.data == map_[o..Min(o + 896, |map_|)]
    && |m.data| <= 896 && (m.last <==> |map_| - o <= 896)
  }

  /** Whatever a client asks for, every message holds the bytes at its chunk's offset. */
  lemma {:induction false} EveryMessageIsFromTheMap(map_: seq<byte>, c: Config, requests: seq<int>, m: Message)
    requires m in Run(map_, c, requests).sent
    ensures FromMap(map_, m)
    decreases |requests|
  {
    hide ChunkMessages;
    if requests != [] {
      var before, chunk := Run(map_, c, requests[..|requests| - 1]), requests[|requests| - 1];
      if m in before.sent {
        EveryMessageIsFromTheMap(map_, c, requests[..|requests| - 1], m);
      } else if c.sixup {
        InRange(map_, before.next, before.next + c.window, m);
      } else if m in ChunkMessages(map_, chunk) {
        OneMessage(map_, chunk, m);
      } else if m in ChunkMessages(map_, c.window + before.next) {
        OneMessage(map_, c.window + before.next, m);
      } else {
        InRange(map_, 0, c.window, m);
      }
    }
  }

  lemma OneMessage(map_: seq<byte>, chunk: int, m: Message)
    requires m in ChunkMessages(map_, chunk)
    ensures FromMap(map_, m)
  {
  }

  lemma {:induction false} InRange(map_: seq<byte>, lo: int, hi: int, m: Message)
    requires m in ChunkRange(map_, lo, hi)
    ensures FromMap(map_, m)
    decreases hi - lo
  {
    hide ChunkMessages, FromMap;
    if lo < hi {
      if m in ChunkMessages(map_, hi - 1) {
        OneMessage(map_, hi - 1, m);
      } else {
        InRange(map_, lo, hi - 1, m);
      }
    }
  }
}
