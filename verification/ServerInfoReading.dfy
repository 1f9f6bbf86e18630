/**
 * Reading the info packets back: the strings between the terminators, the numbers in them, and
 * the packed offset. What is read is the server and the clients listed, in order.
 */
module ServerInfoReading {
  import opened Bytes
  import opened Utf8Spec
  import opened Utf8Truncation
  import opened PackerText
  import opened ServerInfo

  // ----- strings

  /** The terminated strings of a packet. */
  function Fields(b: seq<byte>): seq<seq<byte>>
    decreases |b|
  {
    if 0 !in b then [] else
      ContentEnds(b);
      [Content(b)] + Fields(b[|Content(b)| + 1..])
  }

  /** What comes behind the first `n` strings. */
  function Behind(b: seq<byte>, n: nat): seq<byte>
    decreases n
  {
    if n == 0 || 0 !in b then b else
      ContentEnds(b);
      Behind(b[|Content(b)| + 1..], n - 1)
  }

  /** Strings as they are packed. */
  function Packed(ss: seq<seq<byte>>): seq<byte>
    decreases |ss|
  {
    if ss == [] then [] else ss[0] + [0] + Packed(ss[1..])
  }

  predicate AllStrings(ss: seq<seq<byte>>) {
    forall i :: 0 <= i < |ss| ==> IsCString(ss[i])
  }

  lemma FirstString(s: seq<byte>, rest: seq<byte>)
    requires IsCString(s)
    ensures Fields(s + [0] + rest) == [s] + Fields(rest)
    ensures forall n: nat :: Behind(s + [0] + rest, n + 1) == Behind(rest, n)
  {
    var b := s + [0] + rest;
    assert b[|s|] == 0 && b[..|s|] == s;
    ContentIs(b, s);
    assert b[|s| + 1..] == rest;
  }

  lemma {:induction false} PackedFields(ss: seq<seq<byte>>, rest: seq<byte>)
    requires AllStrings(ss)
    ensures Fields(Packed(ss) + rest) == ss + Fields(rest)
    ensures Behind(Packed(ss) + rest, |ss|) == rest
    decreases |ss|
  {
    hide Fields, Behind;
    if ss == [] {
      assert Packed(ss) + rest == rest;
      NoneBehind(rest);
    } else {
      PackedFields(ss[1..], rest);
      FirstString(ss[0], Packed(ss[1..]) + rest);
      assert Packed(ss) + rest == ss[0] + [0] + (Packed(ss[1..]) + rest);
      assert ss == [ss[0]] + ss[1..];
    }
  }

  lemma NoneBehind(b: seq<byte>)
    ensures Behind(b, 0) == b
  {
  }

  lemma {:induction false} PackedParts(a: seq<seq<byte>>, b: seq<seq<byte>>)
    ensures Packed(a + b) == Packed(a) + Packed(b)
    decreases |a|
  {
    if a == [] {
      assert a + b == b;
    } else {
      assert (a + b)[1..] == a[1..] + b;
      PackedParts(a[1..], b);
    }
  }

  // ----- numbers

  /** `str_toint` of a decimal number. */
  function ReadInt(t: seq<byte>): int {
    if t != [] && t[0] == 45 then -DecimalValue(t[1..]) else DecimalValue(t)
  }

  /** The text of a number, without its terminator. */
  function IntText(n: int): (t: seq<byte>)
    ensures IsCString(t) && t + [0] == SignedInt(n)
  {
    if n < 0 then [45] + Decimal(-n) else Decimal(n)
  }

  lemma IntReads(n: int)
    ensures ReadInt(IntText(n)) == n
  {
    hide Decimal, DecimalValue;
    if n < 0 {
      DecimalReads(-n);
      assert IntText(n)[1..] == Decimal(-n);
    } else {
      DecimalReads(n);
    }
  }

  /** `CVariableInt::Unpack`: the number, and how many bytes it takes. */
  function Unpack(b: seq<byte>): (int, nat) {
    if b == [] then (0, 0)
    else
      var (more, size) := if b[0] >= 128 then UnpackMore(b[1..], 0) else (0, 0);
      var v := b[0] % 64 + 64 * more;
      (if b[0] / 64 % 2 == 1 then -v - 1 else v, 1 + size)
  }

  /** The bytes that extend it: seven bits each, and four bits of the last one. */
  function UnpackMore(b: seq<byte>, i: nat): (int, nat)
    decreases |b|
  {
    if b == [] then (0, 0)
    else if i == 3 then (b[0] % 16, 1)
    else
      var (more, size) := if b[0] >= 128 then UnpackMore(b[1..], i + 1) else (0, 0);
      (b[0] % 128 + 128 * more, 1 + size)
  }

  function Room(i: nat): nat {
    if i == 0 then 0x200_0000 else if i == 1 then 0x4_0000 else if i == 2 then 0x800 else 0x10
  }

  lemma {:induction false} UnpackPackedMore(n: nat, i: nat, rest: seq<byte>)
    requires i <= 3 && n < Room(i)
    ensures UnpackMore(PackMore(n) + rest, i) == (n, |PackMore(n)|)
    decreases n
  {
    if n >= 128 {
      UnpackPackedMore(n / 128, i + 1, rest);
      assert (PackMore(n) + rest)[1..] == PackMore(n / 128) + rest;
    }
  }

  /** What is packed is unpacked again. */
  lemma UnpackPacked(n: nat, rest: seq<byte>)
    requires n < 0x8000_0000
    ensures Unpack(PackInt(n) + rest) == (n, |PackInt(n)|)
    ensures (PackInt(n) + rest)[|PackInt(n)|..] == rest
  {
    if n >= 64 {
      hide PackMore, UnpackMore;
      UnpackPackedMore(n / 64, 0, rest);
      assert PackInt(n) + rest == [128 + n % 64] + (PackMore(n / 64) + rest);
    }
  }

  // ----- clients

  /** What a reader learns about a client. */
  datatype Info = Info(name: seq<byte>, clan: seq<byte>, country: int, score: int, player: int)

  /** The text that arrives: as much of it as fits, errors replaced. */
  function Arrives(s: seq<byte>, limit: nat): seq<byte> {
    Text(s, 0, limit)
  }

  function InfoOf(c: Client): Info {
    Info(Arrives(c.name, 16), Arrives(c.clan, 12), c.country, c.score, if c.player then 1 else 0)
  }

  /** How many strings a client takes; the extended type adds a reserved one. */
  function Width(type_: Type): nat {
    if type_ == EXTENDED then 6 else 5
  }

  function ReadClients(type_: Type, f: seq<seq<byte>>): seq<Info>
    decreases |f|
  {
    if |f| < Width(type_) then []
    else [Info(f[0], f[1], ReadInt(f[2]), ReadInt(f[3]), ReadInt(f[4]))] + ReadClients(type_, f[Width(type_)..])
  }

  predicate ClientStrings(c: Client) {
    IsCString(c.name) && IsCString(c.clan)
  }

  function RecordFields(type_: Type, c: Client): (f: seq<seq<byte>>)
    ensures |f| == Width(type_)
  {
    [Arrives(c.name, 16), Arrives(c.clan, 12), IntText(c.country), IntText(c.score), IntText(if c.player then 1 else 0)]
    + if type_ == EXTENDED then [[]] else []
  }

  /** One more string behind others. */
  lemma PackedOneMore(ss: seq<seq<byte>>, t: seq<byte>)
    ensures Packed(ss + [t]) == Packed(ss) + (t + [0])
  {
    PackedParts(ss, [t]);
    assert [t][1..] == [];
    assert Packed([t]) == t + [0] + [];
  }

  lemma PackedFive(a: seq<byte>, b: seq<byte>, c: seq<byte>, d: seq<byte>, e: seq<byte>)
    ensures Packed([a, b, c, d, e]) == (a + [0]) + (b + [0]) + (c + [0]) + (d + [0]) + (e + [0])
  {
    hide Packed;
    NonePacked();
    PackedOneMore([], a);
    PackedOneMore([a], b);
    PackedOneMore([a, b], c);
    PackedOneMore([a, b, c], d);
    PackedOneMore([a, b, c, d], e);
    assert [] + [a] == [a];
    assert [a] + [b] == [a, b];
    assert [a, b] + [c] == [a, b, c];
    assert [a, b, c] + [d] == [a, b, c, d];
    assert [a, b, c, d] + [e] == [a, b, c, d, e];
  }

  lemma FlagText(player: bool)
    ensures IntText(if player then 1 else 0) + [0] == TextInt(if player then 1 else 0)
  {
    hide Decimal;
  }

  lemma AddedIs(s: seq<byte>, limit: int)
    requires limit > 0
    ensures AddedString(s, limit) == Arrives(s, limit) + [0]
  {
    hide Text;
  }

  lemma RecordIsPacked(type_: Type, c: Client)
    requires ClientStrings(c)
    ensures Record(type_, c) == Packed(RecordFields(type_, c)) && AllStrings(RecordFields(type_, c))
  {
    TextIsValid(c.name, 16);
    TextIsValid(c.clan, 12);
    EmptyString();
    FlagText(c.player);
    AddedIs(c.name, 16);
    AddedIs(c.clan, 12);
    var (a, b, x, y, z) := (Arrives(c.name, 16), Arrives(c.clan, 12), IntText(c.country), IntText(c.score),
                            IntText(if c.player then 1 else 0));
    hide Text, Packed, Decimal, SignedInt, IntText, AddedString, TextInt, Arrives, Utf8Octets;
    PackedFive(a, b, x, y, z);
    PackedOneMore([a, b, x, y, z], []);
    assert [a, b, x, y, z] + [] == [a, b, x, y, z];
    assert [] + [0] == [0];
  }

  lemma NonePacked()
    ensures Packed([]) == []
  {
  }

  lemma ReadOne(type_: Type, c: Client, f: seq<seq<byte>>)
    ensures ReadClients(type_, RecordFields(type_, c) + f) == [InfoOf(c)] + ReadClients(type_, f)
  {
    IntReads(c.country);
    IntReads(c.score);
    IntReads(if c.player then 1 else 0);
    hide Arrives, IntText, ReadInt;
    var g := RecordFields(type_, c) + f;
    assert g[Width(type_)..] == f;
  }

  /** The ids are those of connected clients. */
  predicate AreConnected(clients: seq<ClientSlot>, ids: seq<nat>) {
    forall i :: 0 <= i < |ids| ==> ids[i] < |clients| && clients[ids[i]].Connected?
  }

  predicate ClientsStrings(clients: seq<ClientSlot>) {
    forall i :: 0 <= i < |clients| && clients[i].Connected? ==> ClientStrings(clients[i].client)
  }

  function Infos(clients: seq<ClientSlot>, ids: seq<nat>): (infos: seq<Info>)
    requires AreConnected(clients, ids)
    ensures |infos| == |ids| && forall i :: 0 <= i < |ids| ==> infos[i] == InfoOf(clients[ids[i]].client)
  {
    seq(|ids|, i requires 0 <= i < |ids| => InfoOf(clients[ids[i]].client))
  }

  lemma ConnectedOnly(type_: Type, clients: seq<ClientSlot>, ids: seq<nat>)
    ensures AreClients(Slots(type_, clients), ids) <==> AreConnected(clients, ids)
  {
    hide Record;
  }

  function ClientFields(type_: Type, clients: seq<ClientSlot>, ids: seq<nat>): seq<seq<byte>>
    requires AreConnected(clients, ids)
    decreases |ids|
  {
    if ids == [] then [] else RecordFields(type_, clients[ids[0]].client) + ClientFields(type_, clients, ids[1..])
  }

  lemma {:induction false} ClientFieldsRead(type_: Type, clients: seq<ClientSlot>, ids: seq<nat>)
    requires AreConnected(clients, ids)
    ensures ReadClients(type_, ClientFields(type_, clients, ids)) == Infos(clients, ids)
    decreases |ids|
  {
    hide InfoOf, RecordFields;
    if ids != [] {
      ClientFieldsRead(type_, clients, ids[1..]);
      ReadOne(type_, clients[ids[0]].client, ClientFields(type_, clients, ids[1..]));
      assert Infos(clients, ids) == [InfoOf(clients[ids[0]].client)] + Infos(clients, ids[1..]);
    }
  }

  lemma {:induction false} RecordsFromFront(slots: seq<Slot>, ids: seq<nat>)
    requires AreClients(slots, ids) && ids != []
    ensures Records(slots, ids) == slots[ids[0]].record + Records(slots, ids[1..])
    decreases |ids|
  {
    var front, last := ids[..|ids| - 1], ids[|ids| - 1];
    if front == [] {
      assert ids[1..] == front;
      Sides(slots[ids[0]].record);
    } else {
      RecordsFromFront(slots, front);
      assert ids[1..][..|ids| - 2] == front[1..] && ids[1..][|ids| - 2] == last;
      Associates(slots[ids[0]].record, Records(slots, front[1..]), slots[last].record);
    }
  }

  lemma Sides(a: seq<byte>)
    ensures [] + a == a + []
  {
  }

  lemma Associates(a: seq<byte>, b: seq<byte>, c: seq<byte>)
    ensures (a + b) + c == a + (b + c)
  {
  }

  lemma {:induction false} RecordsArePacked(type_: Type, clients: seq<ClientSlot>, ids: seq<nat>)
    requires AreConnected(clients, ids) && AreClients(Slots(type_, clients), ids) && ClientsStrings(clients)
    ensures var f := ClientFields(type_, clients, ids);
            Records(Slots(type_, clients), ids) == Packed(f) && AllStrings(f)
    decreases |ids|
  {
    hide Packed, RecordFields, Record, ClientStrings;
    if ids == [] {
      NonePacked();
    } else {
      var first, rest := clients[ids[0]].client, ClientFields(type_, clients, ids[1..]);
      RecordsFromFront(Slots(type_, clients), ids);
      RecordsArePacked(type_, clients, ids[1..]);
      RecordIsPacked(type_, first);
      PackedParts(RecordFields(type_, first), rest);
    }
  }

  /** The records of a packet read back as its clients. */
  lemma RecordsRead(type_: Type, clients: seq<ClientSlot>, ids: seq<nat>)
    requires AreConnected(clients, ids) && AreClients(Slots(type_, clients), ids) && ClientsStrings(clients)
    ensures ReadClients(type_, Fields(Records(Slots(type_, clients), ids))) == Infos(clients, ids)
  {
    hide Packed, Fields, ReadClients, Infos, ClientFields;
    var f := ClientFields(type_, clients, ids);
    RecordsArePacked(type_, clients, ids);
    ClientFieldsRead(type_, clients, ids);
    PackedFields(f, []);
    NoFields();
    assert Packed(f) + [] == Packed(f) && f + [] == f;
  }

  lemma NoFields()
    ensures Fields([]) == []
  {
  }

  // ----- the prefix

  predicate ServerStrings(s: Server) {
    IsCString(s.version) && IsCString(s.name) && IsCString(s.vanillaName) && IsCString(s.map_) && IsCString(s.gameType)
  }

  function PrefixWidth(type_: Type): nat {
    if type_ == EXTENDED then 12 else 9
  }

  /** The first strings: version, name, map, and for the extended type checksum and size of the map. */
  function FrontFields(type_: Type, s: Server): seq<seq<byte>> {
    [Arrives(s.version, 32), if type_ != VANILLA then Arrives(s.name, 256) else Arrives(s.vanillaName, 64),
     Arrives(s.map_, 32)]
    + if type_ == EXTENDED then [IntText(s.crc), IntText(s.size)] else []
  }

  function BackFields(s: Server): seq<seq<byte>> {
    [Arrives(s.gameType, 16), IntText(s.flags), IntText(s.players), IntText(s.maxPlayers), IntText(s.clients),
     IntText(s.maxClients)]
  }

  function PrefixFields(type_: Type, s: Server): (f: seq<seq<byte>>)
    ensures |f| == PrefixWidth(type_)
  {
    FrontFields(type_, s) + BackFields(s) + if type_ == EXTENDED then [[]] else []
  }

  lemma PackedThree(a: seq<byte>, b: seq<byte>, c: seq<byte>)
    ensures Packed([a, b, c]) == (a + [0]) + (b + [0]) + (c + [0])
  {
    hide Packed;
    NonePacked();
    PackedOneMore([], a);
    PackedOneMore([a], b);
    PackedOneMore([a, b], c);
    assert [] + [a] == [a];
    assert [a] + [b] == [a, b];
    assert [a, b] + [c] == [a, b, c];
  }

  lemma PackedTwo(a: seq<byte>, b: seq<byte>)
    ensures Packed([a, b]) == (a + [0]) + (b + [0])
  {
    hide Packed;
    NonePacked();
    PackedOneMore([], a);
    PackedOneMore([a], b);
    assert [] + [a] == [a];
    assert [a] + [b] == [a, b];
  }

  lemma PackedSix(ss: seq<seq<byte>>, a: seq<byte>, b: seq<byte>, c: seq<byte>, d: seq<byte>, e: seq<byte>, f: seq<byte>)
    ensures Packed(ss + [a, b, c, d, e, f])
            == Packed(ss) + (a + [0]) + (b + [0]) + (c + [0]) + (d + [0]) + (e + [0]) + (f + [0])
  {
    hide Packed;
    PackedOneMore(ss, a);
    PackedOneMore(ss + [a], b);
    PackedOneMore(ss + [a] + [b], c);
    PackedOneMore(ss + [a] + [b] + [c], d);
    PackedOneMore(ss + [a] + [b] + [c] + [d], e);
    PackedOneMore(ss + [a] + [b] + [c] + [d] + [e], f);
    assert ss + [a] + [b] + [c] + [d] + [e] + [f] == ss + [a, b, c, d, e, f];
  }

  lemma PackedFront(a: seq<byte>, b: seq<byte>, c: seq<byte>, x: seq<byte>, y: seq<byte>, both: bool)
    ensures Packed([a, b, c] + if both then [x, y] else [])
            == (a + [0]) + (b + [0]) + (c + [0]) + if both then (x + [0]) + (y + [0]) else []
  {
    hide Packed;
    PackedThree(a, b, c);
    PackedTwo(x, y);
    PackedParts([a, b, c], [x, y]);
    assert [a, b, c] + [] == [a, b, c];
  }

  lemma FrontStrings(type_: Type, s: Server)
    requires ServerStrings(s)
    ensures AllStrings(FrontFields(type_, s))
  {
    hide Text, Utf8Octets, IntText;
    TextIsValid(s.version, 32);
    TextIsValid(s.name, 256);
    TextIsValid(s.vanillaName, 64);
    TextIsValid(s.map_, 32);
  }

  lemma FrontIsPacked(type_: Type, s: Server)
    ensures Packed(FrontFields(type_, s)) ==
      AddedString(s.version, 32)
      + (if type_ != VANILLA then AddedString(s.name, 256) else AddedString(s.vanillaName, 64))
      + AddedString(s.map_, 32)
      + (if type_ == EXTENDED then SignedInt(s.crc) + SignedInt(s.size) else [])
  {
    hide Packed, SignedInt, IntText, AddedString, Arrives;
    AddedIs(s.version, 32);
    AddedIs(s.name, 256);
    AddedIs(s.vanillaName, 64);
    AddedIs(s.map_, 32);
    PackedFront(Arrives(s.version, 32), if type_ != VANILLA then Arrives(s.name, 256) else Arrives(s.vanillaName, 64),
                Arrives(s.map_, 32), IntText(s.crc), IntText(s.size), type_ == EXTENDED);
  }

  lemma BackStrings(s: Server)
    requires ServerStrings(s)
    ensures AllStrings(BackFields(s))
  {
    TextIsValid(s.gameType, 16);
    hide Text, Utf8Octets, IntText;
  }

  lemma PrefixIsPacked(type_: Type, s: Server)
    requires ServerStrings(s)
    ensures Prefix(type_, s) == Packed(PrefixFields(type_, s)) && AllStrings(PrefixFields(type_, s))
  {
    FrontIsPacked(type_, s);
    FrontStrings(type_, s);
    BackStrings(s);
    AddedIs(s.gameType, 16);
    EmptyString();
    var front, f := FrontFields(type_, s), BackFields(s);
    hide Text, Packed, Decimal, SignedInt, IntText, AddedString, Arrives, FrontFields;
    PackedSix(front, f[0], f[1], f[2], f[3], f[4], f[5]);
    assert f == [f[0], f[1], f[2], f[3], f[4], f[5]];
    PackedOneMore(front + f, []);
    assert [] + [0] == [0];
    assert front + f + [] == front + f;
  }

  /** Among these strings, each string and each number of the server is in its place. */
  predicate ReadsServer(type_: Type, s: Server, f: seq<seq<byte>>) {
    && |f| >= PrefixWidth(type_)
    && f[0] == Arrives(s.version, 32)
    && f[1] == (if type_ == VANILLA then Arrives(s.vanillaName, 64) else Arrives(s.name, 256))
    && f[2] == Arrives(s.map_, 32)
    && (type_ == EXTENDED ==> ReadInt(f[3]) == s.crc && ReadInt(f[4]) == s.size && f[11] == [])
    && var g := f[if type_ == EXTENDED then 5 else 3..];
       && g[0] == Arrives(s.gameType, 16) && ReadInt(g[1]) == s.flags
       && ReadInt(g[2]) == s.players && ReadInt(g[3]) == s.maxPlayers
       && ReadInt(g[4]) == s.clients && ReadInt(g[5]) == s.maxClients
  }

  lemma PrefixFieldsRead(type_: Type, s: Server, more: seq<seq<byte>>)
    ensures ReadsServer(type_, s, PrefixFields(type_, s) + more)
  {
    IntReads(s.crc);
    IntReads(s.size);
    IntReads(s.flags);
    IntReads(s.players);
    IntReads(s.maxPlayers);
    IntReads(s.clients);
    IntReads(s.maxClients);
    hide ReadInt, IntText, Arrives;
    var front, back, f := FrontFields(type_, s), BackFields(s), PrefixFields(type_, s) + more;
    assert f[..|front|] == front && f[|front|..|front| + 6] == back;
    assert forall i :: 0 <= i < 6 ==> f[|front|..][i] == back[i];
    assert type_ == EXTENDED ==> f[11] == [];
  }

  /** That is so for what a reader finds in a packet that starts with the prefix. */
  lemma PrefixReads(type_: Type, s: Server, b: seq<byte>, rest: seq<byte>)
    requires ServerStrings(s) && b == Prefix(type_, s) + rest
    ensures ReadsServer(type_, s, Fields(b)) && Behind(b, PrefixWidth(type_)) == rest
  {
    hide Packed, Prefix, Fields, Behind, ReadsServer, PrefixFields;
    PrefixIsPacked(type_, s);
    PackedFields(PrefixFields(type_, s), rest);
    PrefixFieldsRead(type_, s, Fields(rest));
  }

  // ----- packets

  /** The clients that a reader finds in the `k`-th packet. */
  function ReadPacket(type_: Type, k: nat, b: seq<byte>): seq<Info> {
    match type_
    case EXTENDED => ReadClients(type_, Fields(Behind(b, if k == 0 then 12 else 2)))
    case LEGACY64 =>
      var rest := Behind(b, 9);
      var size := Unpack(rest).1;
      if size <= |rest| then ReadClients(type_, Fields(rest[size..])) else []
    case _ => ReadClients(type_, Fields(Behind(b, 9)))
  }

  /** A later packet of the extended type starts with its number and a reserved string. */
  lemma LaterHead(k: nat, rest: seq<byte>)
    ensures Fields(TextInt(k) + [0] + rest) == [IntText(k), []] + Fields(rest)
    ensures Behind(TextInt(k) + [0] + rest, 2) == rest
  {
    hide Fields, Behind, Decimal, Packed;
    PackedTwo(IntText(k), []);
    assert [] + [0] == [0];
    assert Packed([IntText(k), []]) == TextInt(k) + [0];
    PackedFields([IntText(k), []], rest);
  }

  /**
   * Read back, each packet gives the clients listed in it, in order, with their texts as far as
   * they fit, and every number as it is; the packets that start with the prefix also give the
   * server, a legacy packet its offset, and a later extended one its number.
   */
  lemma PacketReads(type_: Type, server: Server, clients: seq<ClientSlot>, chunks: seq<seq<byte>>,
                    listed: seq<seq<nat>>, k: nat)
    requires Packets(type_, Prefix(type_, server), Slots(type_, clients), chunks, listed) && k < |listed|
    requires ServerStrings(server) && ClientsStrings(clients) && |Flat(listed[..k])| < 0x8000_0000
    ensures |chunks| == |listed| && AreConnected(clients, listed[k])
    ensures ReadPacket(type_, k, chunks[k]) == Infos(clients, listed[k])
    ensures type_ != EXTENDED || k == 0 ==> ReadsServer(type_, server, Fields(chunks[k]))
    ensures type_ == LEGACY64 ==> Unpack(Behind(chunks[k], 9)).0 == |Flat(listed[..k])|
    ensures type_ == EXTENDED && k > 0 ==> |Fields(chunks[k])| > 0 && ReadInt(Fields(chunks[k])[0]) == k
  {
    hide Packets, Slots, Fields, Behind, ReadClients, Prefix, Infos, Flat, Unpack, PackInt, ReadInt, IntText, Records, ReadsServer;
    AsMany(type_, Prefix(type_, server), Slots(type_, clients), chunks, listed);
    PacketIs(type_, Prefix(type_, server), Slots(type_, clients), chunks, listed, k);
    ConnectedOnly(type_, clients, listed[k]);
    RecordsRead(type_, clients, listed[k]);
    var records, offset := Records(Slots(type_, clients), listed[k]), |Flat(listed[..k])|;
    if type_ == LEGACY64 {
      PrefixReads(type_, server, chunks[k], PackInt(offset) + records);
    } else if type_ != EXTENDED || k == 0 {
      PrefixReads(type_, server, chunks[k], records);
    }
    assert Prefix(type_, server) + PackInt(offset) + records == Prefix(type_, server) + (PackInt(offset) + records);
    UnpackPacked(offset, records);
    LaterHead(k, records);
    IntReads(k);
  }

  function ReadAll(type_: Type, chunks: seq<seq<byte>>): seq<Info>
    decreases |chunks|
  {
    if chunks == [] then []
    else ReadAll(type_, chunks[..|chunks| - 1]) + ReadPacket(type_, |chunks| - 1, chunks[|chunks| - 1])
  }

  lemma FrontPackets(type_: Type, prefix: seq<byte>, slots: seq<Slot>, chunks: seq<seq<byte>>, listed: seq<seq<nat>>)
    requires Packets(type_, prefix, slots, chunks, listed) && listed != []
    ensures |chunks| == |listed| && Packets(type_, prefix, slots, chunks[..|chunks| - 1], listed[..|listed| - 1])
    ensures Flat(listed) == Flat(listed[..|listed| - 1]) + listed[|listed| - 1]
  {
    hide Head, Records;
  }

  /** A reader of all packets gets the clients listed in them, in order: for the extended type, everybody. */
  lemma {:induction false} AllRead(type_: Type, server: Server, clients: seq<ClientSlot>, chunks: seq<seq<byte>>,
                                   listed: seq<seq<nat>>)
    requires Packets(type_, Prefix(type_, server), Slots(type_, clients), chunks, listed)
    requires ServerStrings(server) && ClientsStrings(clients) && |Flat(listed)| < 0x8000_0000
    ensures AreConnected(clients, Flat(listed)) && ReadAll(type_, chunks) == Infos(clients, Flat(listed))
    decreases |listed|
  {
    hide Packets, Slots, ReadPacket, Prefix, Flat, ServerStrings, ClientsStrings;
    AsMany(type_, Prefix(type_, server), Slots(type_, clients), chunks, listed);
    if listed == [] {
      NoneFlat();
    } else {
      var n := |listed| - 1;
      FrontPackets(type_, Prefix(type_, server), Slots(type_, clients), chunks, listed);
      AllRead(type_, server, clients, chunks[..n], listed[..n]);
      PacketReads(type_, server, clients, chunks, listed, n);
      InfosParts(clients, Flat(listed[..n]), listed[n]);
    }
  }

  lemma NoneFlat()
    ensures Flat([]) == []
  {
  }

  lemma InfosParts(clients: seq<ClientSlot>, a: seq<nat>, b: seq<nat>)
    requires AreConnected(clients, a) && AreConnected(clients, b)
    ensures AreConnected(clients, a + b) && Infos(clients, a + b) == Infos(clients, a) + Infos(clients, b)
  {
    hide InfoOf;
  }
}
