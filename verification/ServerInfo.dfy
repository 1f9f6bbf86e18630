/**
 * What `CPacker` writes for strings and numbers: strings are decoded, cut to a limit in bytes
 * between code points, and terminated.
 */
module PackerText {
  import opened Bytes
  import opened Utf8Spec
  import opened Utf8
  import opened Utf8Truncation

  const PACKER_BUFFER_SIZE: nat := 2048

  /** A code point's bytes; an error is written as the replacement character. */
  function Shown(code: int): (b: seq<byte>)
    ensures 1 <= |b| <= 4
  {
    if 0 <= code <= 0x10FFFF then Encode(code) else Encode(0xFFFD)
  }

  function ShownUpTo(codes: seq<int>, limit: nat): (b: seq<byte>)
    ensures |b| <= limit
    decreases |codes|
  {
    if codes == [] || |Shown(codes[0])| > limit then []
    else Shown(codes[0]) + ShownUpTo(codes[1..], limit - |Shown(codes[0])|)
  }

  function Limit(limit: int): nat {
    if limit <= 0 then PACKER_BUFFER_SIZE else limit
  }

  /** What is shown of a string from the cursor on, in at most `left` bytes. */
  function Text(s: seq<byte>, cursor: nat, left: nat): (b: seq<byte>)
    requires cursor <= |s|
    ensures |b| <= left
  {
    ShownUpTo(Codes(s, cursor), left)
  }

  /** What `AddString` adds while the buffer has room. */
  function AddedString(s: seq<byte>, limit: int): (b: seq<byte>)
    ensures 1 <= |b| <= Limit(limit) + 1
  {
    Text(s, 0, Limit(limit)) + [0]
  }

  /** The bytes written so far, and `m_Error`. */
  datatype Packer = Packer(bytes: seq<byte>, error: bool)

  /** How many bytes of text fit behind `used` bytes, with room for the terminator. */
  function Room(used: nat): nat {
    if used < PACKER_BUFFER_SIZE then PACKER_BUFFER_SIZE - 1 - used else 0
  }

  /**
   * `AddString`. What fits of the text is added, and a terminator; the error is set if that is
   * not all of it. The terminator is not checked: it is `inside` the buffer if and only if
   * that was not full before.
   */
  method AddString(p: Packer, s: seq<byte>, limit: int) returns (r: Packer, inside: bool)
    requires IsCString(s) && |p.bytes| <= PACKER_BUFFER_SIZE
    ensures p.error ==> r == p && inside
    ensures !p.error ==>
      && r.bytes == p.bytes + Text(s, 0, Min(Limit(limit), Room(|p.bytes|))) + [0]
      && (r.error <==> |AddedString(s, limit)| > 1 + Room(|p.bytes|))
      && (!r.error ==> r.bytes == p.bytes + AddedString(s, limit))
      && (inside <==> |p.bytes| < PACKER_BUFFER_SIZE)
    ensures inside ==> |r.bytes| <= PACKER_BUFFER_SIZE
  {
    hide Decoded, Shown, Text;
    if p.error {
      return p, true;
    }
    ghost var all, most := Text(s, 0, Limit(limit)), Text(s, 0, Min(Limit(limit), Room(|p.bytes|)));
    var left := Limit(limit);
    var cursor := 0;
    var bytes, error := p.bytes, false;
    while cursor < |s| && left != 0
      invariant 0 <= cursor <= |s| && 0 <= left
      invariant p.bytes + all == bytes + Text(s, cursor, left)
      invariant p.bytes + most == bytes + Text(s, cursor, Min(left, Room(|bytes|)))
      invariant p.bytes <= bytes && (bytes == p.bytes || |bytes| < PACKER_BUFFER_SIZE)
      decreases |s| - cursor
    {
      OneMore(s, cursor, left);
      OneMore(s, cursor, Min(left, Room(|bytes|)));
      var code, next := Decode(s, cursor);
      var b := Shown(code);
      if left < |b| {
        break;
      }
      if PACKER_BUFFER_SIZE - |bytes| < |b| + 1 {
        error := true;
        break;
      }
      bytes := bytes + b;
      left := left - |b|;
      cursor := next;
    }
    if !error {
      NothingMore(s, cursor, left);
      NothingMore(s, cursor, Min(left, Room(|bytes|)));
    }
    assert bytes == p.bytes + most;
    inside := |bytes| < PACKER_BUFFER_SIZE;
    r := Packer(bytes + [0], error);
  }

  lemma OneMore(s: seq<byte>, at: nat, left: nat)
    requires IsCString(s) && at < |s|
    ensures var (code, next) := Decoded(s, at);
            && at < next <= |s|
            && (|Shown(code)| <= left ==> Text(s, at, left) == Shown(code) + Text(s, next, left - |Shown(code)|))
            && (|Shown(code)| > left ==> Text(s, at, left) == [])
  {
    hide Decoded, Shown;
    var (code, next) := Decoded(s, at);
    DecodedInside(s, at);
    assert Codes(s, at)[0] == code && Codes(s, at)[1..] == Codes(s, next);
  }

  lemma NothingMore(s: seq<byte>, at: nat, left: nat)
    requires IsCString(s) && at <= |s|
    requires at == |s| || left == 0 || left < |Shown(Decoded(s, at).0)|
    ensures Text(s, at, left) == []
  {
    hide Decoded, Shown;
    if at < |s| { OneMore(s, at, left); }
  }

  /** Of a valid string, the most whole characters within the limit are added. */
  lemma {:induction false} AddsWholeChars(cs: seq<int>, limit: nat)
    requires AllChars(cs)
    ensures ShownUpTo(cs, limit) == EncodeAll(cs[..FitCount(cs, limit)])
    decreases |cs|
  {
    hide Encode;
    if cs != [] && |Encode(cs[0])| <= limit {
      var n := |Encode(cs[0])|;
      AddsWholeChars(cs[1..], limit - n);
      var m := FitCount(cs[1..], limit - n);
      assert cs[..m + 1][1..] == cs[1..][..m];
    }
  }

  /** A decoding error shows as the replacement character U+FFFD; a code point as itself. */
  lemma ShownIs(code: int)
    requires code == -1 || IsChar(code)
    ensures Utf8Char(Shown(code)) && CodeOf(Shown(code)) == if code == -1 then 0xFFFD else code
  {
    hide Encode, Utf8Char;
    CodeEncode(if code == -1 then 0xFFFD else code);
  }

  /** Of what is decoded from any bytes, only valid UTF-8 is added. */
  lemma {:induction false} AddsValidText(codes: seq<int>, limit: nat)
    requires forall i :: 0 <= i < |codes| ==> codes[i] == -1 || IsChar(codes[i])
    ensures Utf8Octets(ShownUpTo(codes, limit)) && IsCString(ShownUpTo(codes, limit))
    decreases |codes|
  {
    hide Shown, Utf8Char;
    if codes != [] && |Shown(codes[0])| <= limit {
      var b := Shown(codes[0]);
      AddsValidText(codes[1..], limit - |b|);
      ShownIs(codes[0]);
      CharNoNul(b);
      var t := b + ShownUpTo(codes[1..], limit - |b|);
      assert t[..|b|] == b && t[|b|..] == ShownUpTo(codes[1..], limit - |b|);
    }
  }

  lemma CharNoNul(b: seq<byte>)
    requires Utf8Char(b)
    ensures 0 !in b
  {
  }

  lemma {:induction false} CodesAre(s: seq<byte>, at: nat)
    requires IsCString(s) && at <= |s|
    ensures forall i :: 0 <= i < |Codes(s, at)| ==> Codes(s, at)[i] == -1 || IsChar(Codes(s, at)[i])
    decreases |s| - at
  {
    hide Decoded, Utf8Char, CodeOf;
    if at < |s| {
      DecodedInside(s, at);
      DecodedFromChar(s, at);
      var (code, next) := Decoded(s, at);
      if code != -1 { CodeIsChar(s[at..next]); }
      CodesAre(s, next);
    }
  }

  /** Whatever the bytes of a string are, what is added of it is valid UTF-8 without a terminator in it. */
  lemma TextIsValid(s: seq<byte>, left: nat)
    requires IsCString(s)
    ensures Utf8Octets(Text(s, 0, left)) && IsCString(Text(s, 0, left))
  {
    hide ShownUpTo, Codes, Utf8Octets;
    CodesAre(s, 0);
    AddsValidText(Codes(s, 0), left);
  }

  /** `ADD_INT`: the decimal digits as a string. */
  function TextInt(n: nat): seq<byte> {
    Decimal(n) + [0]
  }

  /** `ADD_INT` of a number that may be negative. */
  function SignedInt(n: int): seq<byte> {
    if n < 0 then [45] + TextInt(-n) else TextInt(n)
  }

  /** A number is a string without a limit of its own: the limit 0 stands for the whole buffer. */
  lemma IntIsAdded(n: int, d: seq<byte>)
    requires IsInt32(n) && d == if n < 0 then [45] + Decimal(-n) else Decimal(n)
    ensures AddedString(d, 0) == SignedInt(n)
  {
    hide Decimal, Codes, ShownUpTo, FitCount, EncodeAll;
    IntLength(n);
    assert d + [0] == SignedInt(n);
    DigitsEncode(d);
    RoundTrip(d);
    AddsWholeChars(d, Limit(0));
    FitAll(d, Limit(0));
    assert d[..|d|] == d;
  }

  lemma {:induction false} DigitsEncode(d: seq<byte>)
    requires forall k :: 0 <= k < |d| ==> 45 <= d[k] <= 57
    ensures AllChars(d) && EncodeAll(d) == d
    decreases |d|
  {
    if d != [] { DigitsEncode(d[1..]); }
  }

  predicate IsInt32(n: int) {
    -0x8000_0000 <= n < 0x8000_0000
  }

  function Pow10(k: nat): nat {
    if k == 0 then 1 else 10 * Pow10(k - 1)
  }

  lemma {:induction false} DecimalLength(n: nat, k: nat)
    requires k > 0 && n < Pow10(k)
    ensures |Decimal(n)| <= k
    decreases k
  {
    if k > 1 && n >= 10 { DecimalLength(n / 10, k - 1); }
  }

  lemma IntLength(n: int)
    requires IsInt32(n)
    ensures |SignedInt(n)| <= 12
  {
    assert Pow10(5) == 100_000;
    assert Pow10(10) == 10_000_000_000;
    var k: nat := 10;
    DecimalLength(if n < 0 then -n else n, k);
  }

  /** `CVariableInt::Pack` of a number that is not negative. */
  function PackInt(n: nat): (b: seq<byte>)
    ensures n < 8192 ==> |b| <= 2
  {
    if n < 64 then [n] else [128 + n % 64] + PackMore(n / 64)
  }

  function PackMore(n: nat): (b: seq<byte>)
    ensures n < 128 ==> |b| == 1
  {
    if n < 128 then [n] else [128 + n % 128] + PackMore(n / 128)
  }
}

/**
 * Packing the clients of a server into info packets: the loop of `CacheServerInfo`, with the
 * retry of a client whose record does not fit any more.
 */
module ServerInfo {
  import opened Bytes
  import opened PackerText

  const MAX_CLIENTS: nat := 64

  /** NET_MAX_PAYLOAD without the type and the largest token. */
  const LIMIT: nat := 1394 - 18

  datatype Type = EXTENDED | LEGACY64 | VANILLA | INGAME

  /** A client slot, with the record that the packer writes for the client. */
  datatype Slot = Empty | Present(record: seq<byte>)

  // ----- what a packet should hold

  /** The ids below `n` of the clients that are there. */
  function Listed(slots: seq<Slot>, n: nat): (ids: seq<nat>)
    requires n <= |slots|
    ensures forall i :: 0 <= i < |ids| ==> ids[i] < n && slots[ids[i]].Present?
    ensures |ids| <= n
  {
    if n == 0 then [] else Listed(slots, n - 1) + if slots[n - 1].Present? then [n - 1] else []
  }

  /** Every client that is there is listed once, in the order of the ids. */
  lemma {:induction false} ListedOnce(slots: seq<Slot>, n: nat)
    requires n <= |slots|
    ensures var ids := Listed(slots, n);
            && (forall i, j :: 0 <= i < j < |ids| ==> ids[i] < ids[j])
            && (forall c :: 0 <= c < n ==> (slots[c].Present? <==> c in ids))
  {
    if n > 0 { ListedOnce(slots, n - 1); }
  }

  lemma NextListed(slots: seq<Slot>, n: nat)
    requires n < |slots|
    ensures |Listed(slots, n + 1)| == |Listed(slots, n)| + if slots[n].Present? then 1 else 0
  {
  }

  lemma {:induction false} ListedGrows(slots: seq<Slot>, n: nat, m: nat)
    requires n <= m <= |slots|
    ensures Listed(slots, n) <= Listed(slots, m)
    decreases m
  {
    if n < m { ListedGrows(slots, n, m - 1); }
  }

  function Records(slots: seq<Slot>, ids: seq<nat>): seq<byte>
    requires AreClients(slots, ids)
    decreases |ids|
  {
    if ids == [] then [] else Records(slots, ids[..|ids| - 1]) + slots[ids[|ids| - 1]].record
  }

  predicate AreClients(slots: seq<Slot>, ids: seq<nat>) {
    forall i :: 0 <= i < |ids| ==> ids[i] < |slots| && slots[ids[i]].Present?
  }

  function Flat(listed: seq<seq<nat>>): seq<nat>
    decreases |listed|
  {
    if listed == [] then [] else Flat(listed[..|listed| - 1]) + listed[|listed| - 1]
  }

  /** How the `k`-th packet starts when `stored` players are in the packets before it. */
  function Head(type_: Type, prefix: seq<byte>, k: nat, stored: nat): seq<byte> {
    match type_
    case EXTENDED => if k == 0 then prefix else TextInt(k) + [0]
    case LEGACY64 => prefix + PackInt(stored)
    case _ => prefix
  }

  /** Each packet is its head and the records of the clients listed in it. */
  ghost predicate Packets(type_: Type, prefix: seq<byte>, slots: seq<Slot>, chunks: seq<seq<byte>>, listed: seq<seq<nat>>)
    decreases |listed|
  {
    && |chunks| == |listed|
    && (listed != [] ==>
          && var n := |listed| - 1;
          && AreClients(slots, listed[n])
          && Packets(type_, prefix, slots, chunks[..n], listed[..n])
          && chunks[n] == Head(type_, prefix, n, |Flat(listed[..n])|) + Records(slots, listed[n]))
  }

  lemma {:induction false} PacketIs(type_: Type, prefix: seq<byte>, slots: seq<Slot>, chunks: seq<seq<byte>>,
                                    listed: seq<seq<nat>>, k: nat)
    requires Packets(type_, prefix, slots, chunks, listed) && k < |listed|
    ensures AreClients(slots, listed[k])
    ensures chunks[k] == Head(type_, prefix, k, |Flat(listed[..k])|) + Records(slots, listed[k])
    decreases |listed|
  {
    hide Head, AreClients;
    var n := |listed| - 1;
    if k < n {
      PacketIs(type_, prefix, slots, chunks[..n], listed[..n], k);
      assert listed[..n][..k] == listed[..k];
    }
  }

  /** Only the first packet may have no clients, and a client is in a new one only for want of room. */
  ghost predicate Greedy(slots: seq<Slot>, chunks: seq<seq<byte>>, listed: seq<seq<nat>>, k: nat)
    requires 1 <= k < |chunks| == |listed| && AreClients(slots, listed[k])
  {
    listed[k] != [] && |chunks[k - 1]| + |slots[listed[k][0]].record| >= LIMIT
  }

  // ----- the loop

  class Cache {
    var chunks: seq<seq<byte>>

    constructor ()
      ensures chunks == []
    {
      chunks := [];
    }

    method AddChunk(data: seq<byte>)
      modifies this
      ensures chunks == old(chunks) + [data]
    {
      chunks := chunks + [data];
    }
  }

  /** The packer `q` holds the head of the next packet and the records of `current`. */
  ghost predicate Building(type_: Type, prefix: seq<byte>, slots: seq<Slot>, chunks: seq<seq<byte>>,
                           listed: seq<seq<nat>>, current: seq<nat>, q: seq<byte>)
  {
    && Packets(type_, prefix, slots, chunks, listed)
    && AreClients(slots, current)
    && q == Head(type_, prefix, |listed|, |Flat(listed)|) + Records(slots, current)
  }

  lemma Saved(type_: Type, prefix: seq<byte>, slots: seq<Slot>, chunks: seq<seq<byte>>,
              listed: seq<seq<nat>>, current: seq<nat>, q: seq<byte>)
    requires Building(type_, prefix, slots, chunks, listed, current, q)
    ensures Packets(type_, prefix, slots, chunks + [q], listed + [current])
    ensures Flat(listed + [current]) == Flat(listed) + current
    ensures var head := Head(type_, prefix, |listed| + 1, |Flat(listed) + current|);
            Building(type_, prefix, slots, chunks + [q], listed + [current], [], head)
  {
    hide Head;
    assert (chunks + [q])[..|chunks|] == chunks && (listed + [current])[..|listed|] == listed;
  }

  lemma Added(type_: Type, prefix: seq<byte>, slots: seq<Slot>, chunks: seq<seq<byte>>,
              listed: seq<seq<nat>>, current: seq<nat>, q: seq<byte>, i: nat)
    requires Building(type_, prefix, slots, chunks, listed, current, q) && i < |slots| && slots[i].Present?
    ensures Building(type_, prefix, slots, chunks, listed, current + [i], q + slots[i].record)
  {
    hide Head, Packets;
    assert (current + [i])[..|current|] == current;
  }

  /** With a prefix that leaves room, no packet for the extended type exceeds the payload. */
  predicate Fits(type_: Type, prefix: seq<byte>, chunks: seq<seq<byte>>) {
    type_ == EXTENDED && |prefix| < LIMIT ==> forall k :: 0 <= k < |chunks| ==> |chunks[k]| < LIMIT
  }

  ghost predicate AllGreedy(slots: seq<Slot>, chunks: seq<seq<byte>>, listed: seq<seq<nat>>) {
    |chunks| == |listed| && forall k :: 1 <= k < |listed| ==> AreClients(slots, listed[k]) && Greedy(slots, chunks, listed, k)
  }

  /** The record of the first client in the next packet would not have fitted into the last one. */
  ghost predicate Forced(slots: seq<Slot>, chunks: seq<seq<byte>>, i: nat) {
    chunks != [] ==> i < |slots| && slots[i].Present? && |chunks[|chunks| - 1]| + |slots[i].record| >= LIMIT
  }

  /** Every packet but the last has 24 players, and only a single packet can be empty. */
  predicate Full24(listed: seq<seq<nat>>) {
    && (forall k :: 0 <= k < |listed| - 1 ==> |listed[k]| == 24)
    && (listed != [] ==> |listed[|listed| - 1]| <= 24)
    && (|listed| >= 2 ==> listed[|listed| - 1] != [])
  }

  predicate Counted(type_: Type, listed: seq<seq<nat>>, current: seq<nat>, remaining: int) {
    match type_
    case EXTENDED => remaining == -1
    case LEGACY64 =>
      && (forall k :: 0 <= k < |listed| ==> |listed[k]| == 24)
      && 0 <= remaining == 24 - |current|
      && (listed != [] ==> current != [])
    case _ => listed == [] && 0 <= remaining == 16 - |current|
  }

  lemma SavedGreedy(slots: seq<Slot>, chunks: seq<seq<byte>>, listed: seq<seq<nat>>, current: seq<nat>, q: seq<byte>)
    requires AllGreedy(slots, chunks, listed) && AreClients(slots, current)
    requires listed != [] ==> current != [] && Forced(slots, chunks, current[0])
    ensures AllGreedy(slots, chunks + [q], listed + [current])
  {
    forall k | 1 <= k < |listed + [current]|
      ensures AreClients(slots, (listed + [current])[k]) && Greedy(slots, chunks + [q], listed + [current], k)
    {
      if k < |listed| {
        assert Greedy(slots, chunks, listed, k);
        assert (chunks + [q])[k - 1] == chunks[k - 1];
      }
    }
  }

  lemma SavedFits(type_: Type, prefix: seq<byte>, chunks: seq<seq<byte>>, q: seq<byte>)
    requires Fits(type_, prefix, chunks) && Fits(type_, prefix, [q])
    ensures Fits(type_, prefix, chunks + [q])
  {
    assert [q][0] == q;
  }

  /** A fresh packet has room for one record. */
  predicate RecordsFit(slots: seq<Slot>) {
    forall i :: 0 <= i < |slots| && slots[i].Present? ==> |slots[i].record| + 4 < LIMIT
  }

  datatype Loop = Loop(chunks: seq<seq<byte>>, listed: seq<seq<nat>>, current: seq<nat>, q: seq<byte>, remaining: int, i: nat)

  /** What holds when the loop is about to look at client `i`. */
  ghost predicate Inv(type_: Type, prefix: seq<byte>, slots: seq<Slot>, s: Loop) {
    && s.i <= |slots| == MAX_CLIENTS && |s.chunks| == |s.listed|
    && Building(type_, prefix, slots, s.chunks, s.listed, s.current, s.q)
    && Flat(s.listed) + s.current == Listed(slots, s.i)
    && |s.listed| <= 1 + |Flat(s.listed)|
    && Fits(type_, prefix, s.chunks) && Fits(type_, prefix, [s.q])
    && (type_ == EXTENDED ==>
          && AllGreedy(slots, s.chunks, s.listed)
          && Forced(slots, s.chunks, if s.current != [] then s.current[0] else s.i))
    && Counted(type_, s.listed, s.current, s.remaining)
  }

  function First(type_: Type, prefix: seq<byte>): Loop {
    Loop([], [], [], Head(type_, prefix, 0, 0), match type_ { case EXTENDED => -1 case LEGACY64 => 24 case _ => 16 }, 0)
  }

  lemma Starts(type_: Type, prefix: seq<byte>, slots: seq<Slot>)
    requires |slots| == MAX_CLIENTS
    ensures Inv(type_, prefix, slots, First(type_, prefix))
  {
    hide PackInt;
    assert Head(type_, prefix, 0, 0) + [] == Head(type_, prefix, 0, 0);
  }

  lemma Unlimited(type_: Type, prefix: seq<byte>, slots: seq<Slot>, s: Loop)
    requires Inv(type_, prefix, slots, s)
    ensures type_ == EXTENDED ==> s.remaining == -1
  {
    hide Building;
  }

  lemma Skips(type_: Type, prefix: seq<byte>, slots: seq<Slot>, s: Loop)
    requires Inv(type_, prefix, slots, s) && s.i < |slots| && slots[s.i].Empty?
    ensures Inv(type_, prefix, slots, s.(i := s.i + 1))
  {
    hide Building, AllGreedy, Fits, Counted;
    assert Listed(slots, s.i + 1) == Listed(slots, s.i);
  }

  /** The client's record goes into the packet. */
  lemma Adds(type_: Type, prefix: seq<byte>, slots: seq<Slot>, s: Loop)
    requires Inv(type_, prefix, slots, s) && s.i < |slots| && slots[s.i].Present? && s.remaining != 0
    requires type_ == EXTENDED ==> |s.q| + |slots[s.i].record| < LIMIT
    ensures Inv(type_, prefix, slots, s.(current := s.current + [s.i], q := s.q + slots[s.i].record, i := s.i + 1,
                                         remaining := if s.remaining > 0 then s.remaining - 1 else s.remaining))
  {
    hide Building, AllGreedy;
    Added(type_, prefix, slots, s.chunks, s.listed, s.current, s.q, s.i);
    assert Flat(s.listed) + (s.current + [s.i]) == Listed(slots, s.i + 1);
  }

  lemma Saves(type_: Type, prefix: seq<byte>, slots: seq<Slot>, s: Loop)
    requires Inv(type_, prefix, slots, s)
    requires type_ == EXTENDED ==> s.listed == [] || s.current != []
    ensures var (chunks, listed) := (s.chunks + [s.q], s.listed + [s.current]);
            && Building(type_, prefix, slots, chunks, listed, [], Head(type_, prefix, |listed|, |Listed(slots, s.i)|))
            && Flat(listed) + [] == Flat(listed) == Listed(slots, s.i)
            && Fits(type_, prefix, chunks)
            && (type_ == EXTENDED ==> AllGreedy(slots, chunks, listed))
  {
    hide AllGreedy, Fits, Head, Packets, Greedy;
    Saved(type_, prefix, slots, s.chunks, s.listed, s.current, s.q);
    SavedFits(type_, prefix, s.chunks, s.q);
    if type_ == EXTENDED {
      SavedGreedy(slots, s.chunks, s.listed, s.current, s.q);
    }
  }

  /** The packet is full, and the client's record goes into the next one. */
  lemma Splits(prefix: seq<byte>, slots: seq<Slot>, s: Loop)
    requires Inv(LEGACY64, prefix, slots, s) && s.i < |slots| && slots[s.i].Present? && s.remaining == 0
    ensures Inv(LEGACY64, prefix, slots,
                Loop(s.chunks + [s.q], s.listed + [s.current], [s.i],
                     prefix + PackInt(|Listed(slots, s.i)|) + slots[s.i].record, 23, s.i + 1))
  {
    hide Building, PackInt;
    Saves(LEGACY64, prefix, slots, s);
    var (chunks, listed) := (s.chunks + [s.q], s.listed + [s.current]);
    Added(LEGACY64, prefix, slots, chunks, listed, [], prefix + PackInt(|Listed(slots, s.i)|), s.i);
    assert [] + [s.i] == [s.i];
  }

  /** The record does not fit, and the next packet starts without having taken it. */
  lemma Retries(prefix: seq<byte>, slots: seq<Slot>, s: Loop)
    requires Inv(EXTENDED, prefix, slots, s) && s.i < |slots| && slots[s.i].Present? && RecordsFit(slots)
    requires |s.q| + |slots[s.i].record| >= LIMIT
    ensures s.listed == [] || s.current != []
    ensures Inv(EXTENDED, prefix, slots,
                Loop(s.chunks + [s.q], s.listed + [s.current], [], TextInt(|s.listed| + 1) + [0], -1, s.i))
  {
    hide Building, AllGreedy;
    ShortHead(prefix, slots, s);
    Saves(EXTENDED, prefix, slots, s);
  }

  lemma ShortHead(prefix: seq<byte>, slots: seq<Slot>, s: Loop)
    requires Inv(EXTENDED, prefix, slots, s)
    ensures |TextInt(|s.listed| + 1) + [0]| <= 4
    ensures s.listed != [] && s.current == [] ==> |s.q| <= 4
  {
    hide Packets, AllGreedy;
  }

  lemma FirstSixteen(slots: seq<Slot>, ids: seq<nat>, i: nat)
    requires i <= |slots| && ids == Listed(slots, i) && |ids| <= 16
    requires i == |slots| || |ids| == 16
    ensures var all := Listed(slots, |slots|); ids == all[..Min(|all|, 16)]
  {
    ListedGrows(slots, i, |slots|);
  }

  lemma LastOf24(listed: seq<seq<nat>>, current: seq<nat>, remaining: int)
    requires Counted(LEGACY64, listed, current, remaining)
    ensures Full24(listed + [current])
  {
  }

  lemma Ends(type_: Type, prefix: seq<byte>, slots: seq<Slot>, s: Loop)
    requires Inv(type_, prefix, slots, s)
    requires s.i == |slots| || ((type_ == VANILLA || type_ == INGAME) && s.remaining == 0)
    ensures var (chunks, listed, all) := (s.chunks + [s.q], s.listed + [s.current], Listed(slots, |slots|));
            && Packets(type_, prefix, slots, chunks, listed)
            && Fits(type_, prefix, chunks)
            && (type_ == EXTENDED || type_ == LEGACY64 ==> Flat(listed) == all)
            && (type_ == VANILLA || type_ == INGAME ==> listed == [all[..Min(|all|, 16)]])
            && (type_ == EXTENDED ==> AllGreedy(slots, chunks, listed))
            && (type_ == LEGACY64 ==> Full24(listed))
  {
    hide AllGreedy, Packets, Fits, Building, Head, Full24, Flat, Listed;
    Saves(type_, prefix, slots, s);
    Built(type_, prefix, slots, s.chunks + [s.q], s.listed + [s.current], [],
          Head(type_, prefix, |s.listed| + 1, |Listed(slots, s.i)|));
    match type_
    case EXTENDED =>
    case LEGACY64 =>
      LastOf24(s.listed, s.current, s.remaining);
    case _ =>
      FlatNone(s.current);
      FirstSixteen(slots, s.current, s.i);
  }

  lemma FlatNone(current: seq<nat>)
    ensures Flat([]) + current == current
  {
  }

  lemma Built(type_: Type, prefix: seq<byte>, slots: seq<Slot>, chunks: seq<seq<byte>>,
              listed: seq<seq<nat>>, current: seq<nat>, q: seq<byte>)
    requires Building(type_, prefix, slots, chunks, listed, current, q)
    ensures Packets(type_, prefix, slots, chunks, listed)
  {
  }

  /** A packet without clients. */
  lemma Alone(type_: Type, prefix: seq<byte>, slots: seq<Slot>)
    ensures var q := Head(type_, prefix, 0, 0);
            && Packets(type_, prefix, slots, [q], [[]])
            && Fits(type_, prefix, [q]) && AllGreedy(slots, [q], [[]]) && Full24([[]])
  {
    hide PackInt;
    assert Head(type_, prefix, 0, 0) + [] == Head(type_, prefix, 0, 0);
  }

  /** `CacheServerInfo` from the finished prefix on, for records of any kind. */
  method CacheClients(cache: Cache, type_: Type, prefix: seq<byte>, slots: seq<Slot>, sendClients: bool)
    returns (ghost listed: seq<seq<nat>>)
    requires |slots| == MAX_CLIENTS && (type_ == EXTENDED && sendClients ==> RecordsFit(slots))
    modifies cache
    ensures Packets(type_, prefix, slots, cache.chunks, listed)
    ensures !sendClients ==> listed == [[]]
    ensures sendClients && (type_ == EXTENDED || type_ == LEGACY64) ==> Flat(listed) == Listed(slots, |slots|)
    ensures sendClients && (type_ == VANILLA || type_ == INGAME) ==>
      var all := Listed(slots, |slots|); listed == [all[..Min(|all|, 16)]]
    ensures Fits(type_, prefix, cache.chunks)
    ensures type_ == EXTENDED ==> AllGreedy(slots, cache.chunks, listed)
    ensures type_ == LEGACY64 ==> Full24(listed)
  {
    hide Inv, Building, Packets, AllGreedy, Fits, Counted, Listed, Full24, RecordsFit, Flat;
    cache.chunks := [];
    ghost var s := First(type_, prefix);
    Starts(type_, prefix, slots);
    var chunksStored, playersStored := 0, 0;
    var q := prefix;
    if type_ == LEGACY64 {
      q := q + PackInt(playersStored);
    }
    if !sendClients {
      Alone(type_, prefix, slots);
      cache.AddChunk(q);
      assert cache.chunks == [q];
      return [[]];
    }
    var remaining := match type_ { case EXTENDED => -1 case LEGACY64 => 24 case _ => 16 };
    var i := 0;
    assert |Listed(slots, 0)| == 0;
    while i < MAX_CLIENTS
      invariant 0 <= i <= MAX_CLIENTS && Inv(type_, prefix, slots, s)
      invariant s == Loop(cache.chunks, s.listed, s.current, q, remaining, i)
      invariant chunksStored == |s.listed| && playersStored == |Listed(slots, i)|
      decreases MAX_CLIENTS - i, if s.listed == [] || s.current != [] then 1 else 0
    {
      NextListed(slots, i);
      Unlimited(type_, prefix, slots, s);
      if slots[i].Empty? {
        Skips(type_, prefix, slots, s);
        s := s.(i := i + 1);
        i := i + 1;
        continue;
      }
      if remaining == 0 {
        if type_ == VANILLA || type_ == INGAME {
          break;
        }
        Splits(prefix, slots, s);
        cache.AddChunk(q);
        chunksStored := chunksStored + 1;
        q := prefix + PackInt(playersStored);
        remaining := 24;
      }
      if remaining > 0 {
        remaining := remaining - 1;
      }
      var previousSize := |q|;
      q := q + slots[i].record;
      if type_ == EXTENDED && |q| >= LIMIT {
        Retries(prefix, slots, s);
        assert q[..previousSize] == s.q;
        cache.AddChunk(q[..previousSize]);
        chunksStored := chunksStored + 1;
        q := TextInt(chunksStored) + [0];
        s := Loop(cache.chunks, s.listed + [s.current], [], q, -1, i);
        continue;
      }
      if s.remaining == 0 {
        s := Loop(cache.chunks, s.listed + [s.current], [i], q, remaining, i + 1);
      } else {
        Adds(type_, prefix, slots, s);
        s := s.(current := s.current + [i], q := q, i := i + 1, remaining := remaining);
      }
      playersStored := playersStored + 1;
      i := i + 1;
    }
    Ends(type_, prefix, slots, s);
    cache.AddChunk(q);
    listed := s.listed + [s.current];
  }

  lemma {:induction false} Before(listed: seq<seq<nat>>, k: nat)
    requires Full24(listed) && k < |listed|
    ensures |Flat(listed[..k])| == 24 * k
  {
    if k > 0 {
      Before(listed, k - 1);
      assert listed[..k][..k - 1] == listed[..k - 1];
    }
  }

  /** The offset in a legacy packet is the number of players in the packets before it. */
  lemma LegacyOffset(prefix: seq<byte>, slots: seq<Slot>, chunks: seq<seq<byte>>, listed: seq<seq<nat>>, k: nat)
    requires Packets(LEGACY64, prefix, slots, chunks, listed) && Full24(listed) && k < |listed|
    ensures |Flat(listed[..k])| == 24 * k && AreClients(slots, listed[k])
    ensures chunks[k] == prefix + PackInt(24 * k) + Records(slots, listed[k])
  {
    hide Packets, Flat, PackInt;
    Before(listed, k);
    PacketIs(LEGACY64, prefix, slots, chunks, listed, k);
  }

  // ----- the prefix and the records

  /** What is packed about the server; the last four numbers are the counts and their limits. */
  datatype Server = Server(version: seq<byte>, name: seq<byte>, vanillaName: seq<byte>, map_: seq<byte>, crc: int,
                           size: int, gameType: seq<byte>, flags: int, players: int, maxPlayers: int,
                           clients: int, maxClients: int)

  /** What is packed about a client. */
  datatype Client = Client(name: seq<byte>, clan: seq<byte>, country: int, score: int, player: bool)

  datatype ClientSlot = NoClient | Connected(client: Client)

  function Prefix(type_: Type, s: Server): seq<byte> {
    AddedString(s.version, 32)
    + (if type_ != VANILLA then AddedString(s.name, 256) else AddedString(s.vanillaName, 64))
    + AddedString(s.map_, 32)
    + (if type_ == EXTENDED then SignedInt(s.crc) + SignedInt(s.size) else [])
    + AddedString(s.gameType, 16)
    + SignedInt(s.flags)
    + SignedInt(s.players) + SignedInt(s.maxPlayers) + SignedInt(s.clients) + SignedInt(s.maxClients)
    + (if type_ == EXTENDED then AddedString([], 0) else [])
  }

  function Record(type_: Type, c: Client): seq<byte> {
    AddedString(c.name, 16) + AddedString(c.clan, 12)
    + SignedInt(c.country) + SignedInt(c.score) + TextInt(if c.player then 1 else 0)
    + (if type_ == EXTENDED then AddedString([], 0) else [])
  }

  /** The numbers are C ints. */
  predicate ServerInts(s: Server) {
    && IsInt32(s.crc) && IsInt32(s.size) && IsInt32(s.flags)
    && IsInt32(s.players) && IsInt32(s.maxPlayers) && IsInt32(s.clients) && IsInt32(s.maxClients)
  }

  predicate ClientInts(c: Client) {
    IsInt32(c.country) && IsInt32(c.score)
  }

  lemma EmptyString()
    ensures AddedString([], 0) == [0]
  {
  }

  /** Whatever the strings are, the prefix of every type is far below the payload. */
  lemma PrefixFits(type_: Type, s: Server)
    requires ServerInts(s)
    ensures |Prefix(type_, s)| <= 425 < LIMIT
  {
    hide SignedInt, AddedString, IsInt32;
    EmptyString();
    IntLength(s.crc);
    IntLength(s.size);
    IntLength(s.flags);
    IntLength(s.players);
    IntLength(s.maxPlayers);
    IntLength(s.clients);
    IntLength(s.maxClients);
  }

  /** A fresh packet has room for the record of any client. */
  lemma RecordFits(type_: Type, c: Client)
    requires ClientInts(c)
    ensures |Record(type_, c)| <= 57 && |Record(type_, c)| + 4 < LIMIT
  {
    hide SignedInt, AddedString, IsInt32;
    EmptyString();
    IntLength(c.country);
    IntLength(c.score);
  }

  function SlotOf(type_: Type, c: ClientSlot): Slot {
    match c
    case NoClient => Empty
    case Connected(client) => Present(Record(type_, client))
  }

  function Slots(type_: Type, clients: seq<ClientSlot>): (slots: seq<Slot>)
    ensures |slots| == |clients|
    ensures forall i :: 0 <= i < |slots| ==> slots[i] == SlotOf(type_, clients[i])
  {
    seq(|clients|, i requires 0 <= i < |clients| => SlotOf(type_, clients[i]))
  }

  predicate AllInts(clients: seq<ClientSlot>) {
    forall i :: 0 <= i < |clients| && clients[i].Connected? ==> ClientInts(clients[i].client)
  }

  predicate Short(slots: seq<Slot>) {
    forall i :: 0 <= i < |slots| && slots[i].Present? ==> |slots[i].record| <= 57
  }

  lemma SlotsShort(type_: Type, clients: seq<ClientSlot>)
    requires AllInts(clients)
    ensures Short(Slots(type_, clients)) && RecordsFit(Slots(type_, clients))
  {
    hide Record, ClientInts;
    var slots := Slots(type_, clients);
    forall i | 0 <= i < |slots| && slots[i].Present?
      ensures |slots[i].record| <= 57
    {
      assert slots[i] == SlotOf(type_, clients[i]);
      RecordFits(type_, clients[i].client);
    }
  }

  lemma {:induction false} RecordsLength(slots: seq<Slot>, ids: seq<nat>)
    requires AreClients(slots, ids) && Short(slots)
    ensures |Records(slots, ids)| <= 57 * |ids|
    decreases |ids|
  {
    if ids != [] { RecordsLength(slots, ids[..|ids| - 1]); }
  }

  /** Every packet of the types with a fixed number of players is within the packer's buffer. */
  lemma FixedFits(type_: Type, prefix: seq<byte>, slots: seq<Slot>, chunks: seq<seq<byte>>, listed: seq<seq<nat>>, k: nat)
    requires Packets(type_, prefix, slots, chunks, listed) && k < |listed|
    requires type_ != EXTENDED && |prefix| <= 425 && Short(slots)
    requires |listed[k]| <= 24 && (type_ == LEGACY64 ==> |Flat(listed[..k])| < 8192)
    ensures |chunks[k]| < PACKER_BUFFER_SIZE - 57
  {
    hide Packets, Flat, PackInt;
    PacketIs(type_, prefix, slots, chunks, listed, k);
    RecordsLength(slots, listed[k]);
    PackedLength(|Flat(listed[..k])|);
  }

  lemma PackedLength(n: nat)
    ensures n < 8192 ==> |PackInt(n)| <= 2
  {
  }

  lemma {:induction false} FlatOfFew(listed: seq<seq<nat>>)
    requires Full24(listed) && listed != []
    ensures 24 * (|listed| - 1) <= |Flat(listed)|
  {
    Before(listed, |listed| - 1);
  }

  /** The packer's buffer never fills up: with one more record each packet is still below 2048 bytes. */
  ghost predicate NoOverflow(chunks: seq<seq<byte>>) {
    forall k :: 0 <= k < |chunks| ==> |chunks[k]| + 57 < PACKER_BUFFER_SIZE
  }

  lemma NeverFull(type_: Type, prefix: seq<byte>, slots: seq<Slot>, chunks: seq<seq<byte>>, listed: seq<seq<nat>>)
    requires Packets(type_, prefix, slots, chunks, listed) && |chunks| == |listed| && |prefix| <= 425 && Short(slots)
    requires |slots| == MAX_CLIENTS
    requires type_ == EXTENDED ==> Fits(type_, prefix, chunks)
    requires type_ == LEGACY64 ==> Full24(listed) && |Flat(listed)| <= MAX_CLIENTS
    requires type_ == VANILLA || type_ == INGAME ==> |listed| == 1 && |listed[0]| <= 16
    ensures NoOverflow(chunks)
  {
    hide Packets, Short;
    forall k | 0 <= k < |chunks| ensures |chunks[k]| + 57 < PACKER_BUFFER_SIZE {
      if type_ == LEGACY64 {
        FlatOfFew(listed);
        Before(listed, k);
      }
      if type_ != EXTENDED { FixedFits(type_, prefix, slots, chunks, listed, k); }
    }
  }

  /**
   * `CacheServerInfo`. EXTENDED packets stay under the payload limit, whatever the texts and
   * numbers are, and no packet of any type overflows the packer.
   */
  method CacheServerInfo(cache: Cache, type_: Type, server: Server, clients: seq<ClientSlot>, sendClients: bool)
    returns (ghost listed: seq<seq<nat>>)
    requires |clients| == MAX_CLIENTS && ServerInts(server) && AllInts(clients)
    modifies cache
    ensures Packets(type_, Prefix(type_, server), Slots(type_, clients), cache.chunks, listed)
    ensures !sendClients ==> listed == [[]]
    ensures sendClients && (type_ == EXTENDED || type_ == LEGACY64) ==>
      Flat(listed) == Listed(Slots(type_, clients), MAX_CLIENTS)
    ensures sendClients && (type_ == VANILLA || type_ == INGAME) ==>
      var all := Listed(Slots(type_, clients), MAX_CLIENTS); listed == [all[..Min(|all|, 16)]]
    ensures type_ == EXTENDED ==> forall k :: 0 <= k < |cache.chunks| ==> |cache.chunks[k]| < LIMIT
    ensures NoOverflow(cache.chunks)
    ensures type_ == EXTENDED ==> AllGreedy(Slots(type_, clients), cache.chunks, listed)
    ensures type_ == LEGACY64 ==> Full24(listed)
  {
    hide Packets, AllGreedy, Listed, Full24, RecordsFit, Flat, Prefix, Short, NoOverflow;
    var prefix, slots := Prefix(type_, server), Slots(type_, clients);
    PrefixFits(type_, server);
    SlotsShort(type_, clients);
    listed := CacheClients(cache, type_, prefix, slots, sendClients);
    AsMany(type_, prefix, slots, cache.chunks, listed);
    if !sendClients { NoneListed(); }
    NeverFull(type_, prefix, slots, cache.chunks, listed);
  }

  lemma AsMany(type_: Type, prefix: seq<byte>, slots: seq<Slot>, chunks: seq<seq<byte>>, listed: seq<seq<nat>>)
    requires Packets(type_, prefix, slots, chunks, listed)
    ensures |chunks| == |listed|
  {
  }

  lemma NoneListed()
    ensures Flat([[]]) == []
  {
    var none: seq<seq<nat>> := [[]];
    assert none[..0] == [] && Flat(none) == Flat([]) + [];
  }
}
