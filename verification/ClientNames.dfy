/**
 * Client names: `IsClientNameAvailable` and the renaming of `SetClientNameImpl`, which makes
 * "(1)name", "(2)name", ... until one is not confusable with another client's name.
 */
module ClientNames {
  import opened Bytes
  import opened Ranges
  import opened Utf8Spec
  import opened Utf8
  import opened Utf8Truncation
  import opened ConfusableTables
  import opened Confusables
  import opened WhiteSpace
  import opened NameBans

  const MAX_CLIENTS: nat := 64
  const INT_MAX: int := 0x7FFF_FFFF

  /** The states of a client, in the order of their numbers. */
  datatype ClientState = EMPTY | PREAUTH | AUTH | CONNECTING | READY | INGAME

  datatype Client = Client(state: ClientState, name: seq<byte>)

  /** The number of a state in the source's enumeration. */
  function StateNumber(s: ClientState): nat {
    match s
    case EMPTY => 0
    case PREAUTH => 1
    case AUTH => 2
    case CONNECTING => 3
    case READY => 4
    case INGAME => 5
  }

  predicate Ready(c: Client) {
    c.state == READY || c.state == INGAME
  }

  /** No other client at READY or above has a confusable name. */
  ghost predicate Unconfusable(m: map<int, seq<int>>, clients: seq<Client>, id: int, name: seq<byte>) {
    forall i :: 0 <= i < |clients| && i != id && Ready(clients[i]) ==>
      SkeletonOf(m, clients[i].name) != SkeletonOf(m, name)
  }

  ghost predicate Available(m: map<int, seq<int>>, clients: seq<Client>, id: int, name: seq<byte>) {
    && name != [] && name[0] != 47    // '/'
    && Unconfusable(m, clients, id, name)
  }

  predicate NamesAreStrings(clients: seq<Client>) {
    forall i :: 0 <= i < |clients| ==> IsCString(clients[i].name)
  }

  /** `IsClientNameAvailable`. */
  method IsClientNameAvailable(t: Tables, ghost m: map<int, seq<int>>, clients: seq<Client>, id: int, name: seq<byte>)
    returns (ok: bool)
    requires Represents(t, m) && NoZero(m) && NamesAreStrings(clients) && IsCString(name)
    ensures ok <==> Available(m, clients, id, name)
  {
    hide SkeletonOf, Represents, NoZero;
    if name == [] {
      return false;
    }
    if name[0] == 47 {
      return false;
    }
    for i := 0 to |clients|
      invariant forall k :: 0 <= k < i && k != id && Ready(clients[k]) ==>
        SkeletonOf(m, clients[k].name) != SkeletonOf(m, name)
    {
      if i != id && StateNumber(clients[i].state) >= StateNumber(READY) {
        var r := CompConfusable(t, m, name, clients[i].name);
        if r == 0 {
          return false;
        }
      }
    }
    return true;
  }

  // ----- the candidates

  lemma DecimalInjective(i: nat, j: nat)
    requires Decimal(i) == Decimal(j)
    ensures i == j
  {
    DecimalReads(i);
    DecimalReads(j);
  }

  predicate Ascii(s: seq<byte>) {
    forall i :: 0 <= i < |s| ==> 0 < s[i] < 0x80
  }

  function Pow10(k: nat): (p: nat)
    ensures p >= 1
  {
    if k == 0 then 1 else 10 * Pow10(k - 1)
  }

  lemma {:induction false} DecimalLength(i: nat, n: nat)
    requires n >= 1 && i < Pow10(n)
    ensures |Decimal(i)| <= n
    decreases n
  {
    assert Pow10(0) == 1 && Pow10(1) == 10;
    if i >= 10 { DecimalLength(i / 10, n - 1); }
  }

  /** "(i)". */
  function Prefix(i: nat): (p: seq<byte>)
    ensures Ascii(p) && p != [] && p[0] == 40
  {
    [40] + Decimal(i) + [41]
  }

  /** However large an int is, "(i)" leaves room in a buffer for names. */
  lemma PrefixLength(i: nat)
    requires i <= INT_MAX
    ensures |Prefix(i)| <= 12
  {
    assert Pow10(2) == 100 && Pow10(4) == 1_0000 && Pow10(6) == 100_0000;
    assert Pow10(8) == 1_0000_0000 && Pow10(10) == 100_0000_0000;
    DecimalLength(i, 10);
  }

  /** "(i)name", as `str_format` writes it into a buffer for names. */
  function Candidate(i: nat, name: seq<byte>): seq<byte> {
    Cut(Prefix(i) + name)
  }

  lemma AsciiDecoded(s: seq<byte>, at: nat)
    requires at < |s| && 0 < s[at] < 0x80
    ensures Decoded(s, at) == (s[at] as int, at + 1)
  {
    assert s[at..at + 1] == [s[at]];
  }

  /** The repair of the end leaves a leading run of ASCII alone. */
  lemma FixedKeepsAscii(p: seq<byte>, rest: seq<byte>) returns (left: seq<byte>)
    requires Ascii(p)
    ensures Fixed(p + rest) == p + left
  {
    hide Decoded;
    var s := p + rest;
    left := rest;
    if s != [] {
      var i := RewindTo(s, |s|);
      if i < |p| {
        assert s[i] == p[i];
        AsciiDecoded(s, i);
      } else {
        left := if Decoded(s, i).0 == -1 then rest[..i - |p|] else rest;
      }
    }
  }

  lemma {:induction false} CodesOfAscii(p: seq<byte>, at: nat, rest: seq<byte>)
    requires Ascii(p) && at <= |p|
    ensures Codes(p + rest, at) == p[at..] + Codes(p + rest, |p|)
    decreases |p| - at
  {
    hide Decoded;
    if at < |p| {
      var s := p + rest;
      assert s[at] == p[at];
      AsciiDecoded(s, at);
      CodesOfAscii(p, at + 1, rest);
      assert p[at..] == [p[at]] + p[at + 1..];
    }
  }

  // ----- the candidates are pairwise not confusable

  /** The digits and ")" stay ten and one different code points in a skeleton. */
  ghost predicate DigitsApart(m: map<int, seq<int>>) {
    && (forall a :: 48 <= a <= 57 || a == 41 ==> |Decomposition(m, a)| == 1)
    && (forall a, b :: (48 <= a <= 57 || a == 41) && (48 <= b <= 57 || b == 41) && a != b ==>
          Decomposition(m, a) != Decomposition(m, b))
  }

  predicate Digits(d: seq<int>) {
    forall i :: 0 <= i < |d| ==> 48 <= d[i] <= 57
  }

  lemma {:induction false} DecomposedAppend(m: map<int, seq<int>>, a: seq<int>, b: seq<int>)
    ensures Decomposed(m, a + b) == Decomposed(m, a) + Decomposed(m, b)
    decreases |a|
  {
    if a == [] {
      assert a + b == b;
    } else {
      assert (a + b)[1..] == a[1..] + b;
      DecomposedAppend(m, a[1..], b);
    }
  }

  /** A run of digits that ")" ends can be read off a skeleton, whatever follows. */
  lemma {:induction false} RunsDecide(m: map<int, seq<int>>, a: seq<int>, b: seq<int>, x: seq<int>, y: seq<int>)
    requires DigitsApart(m) && Digits(a) && Digits(b)
    requires Decomposed(m, a + [41] + x) == Decomposed(m, b + [41] + y)
    ensures a == b
    decreases |a|
  {
    hide Decomposition;
    var s, t := a + [41] + x, b + [41] + y;
    assert Decomposed(m, s)[0] == Decomposition(m, s[0])[0];
    assert Decomposed(m, t)[0] == Decomposition(m, t[0])[0];
    assert Decomposition(m, s[0]) == Decomposition(m, t[0]);
    assert s[0] == t[0];
    if a != [] {
      assert s[1..] == a[1..] + [41] + x && t[1..] == b[1..] + [41] + y;
      assert Decomposed(m, s)[1..] == Decomposed(m, s[1..]) && Decomposed(m, t)[1..] == Decomposed(m, t[1..]);
      RunsDecide(m, a[1..], b[1..], x, y);
      assert a == [a[0]] + a[1..] && b == [b[0]] + b[1..];
    }
  }

  lemma CandidateStarts(i: nat, name: seq<byte>) returns (left: seq<byte>)
    requires i <= INT_MAX
    ensures Candidate(i, name) == Prefix(i) + left
  {
    hide Fixed, Prefix;
    PrefixLength(i);
    var p := Prefix(i);
    var s := p + name;
    var n := Min(|s|, MAX_NAME_LENGTH - 1);
    assert s[..n] == p + name[..n - |p|];
    left := FixedKeepsAscii(p, name[..n - |p|]);
  }

  lemma HeadOff(m: map<int, seq<int>>, h: int, d: seq<int>, x: seq<int>)
    ensures Decomposed(m, ([h] + d + [41]) + x) == Decomposition(m, h) + Decomposed(m, d + [41] + x)
  {
    hide Decomposition;
    var codes := ([h] + d + [41]) + x;
    assert codes[1..] == d + [41] + x;
  }

  lemma CandidateSkeleton(m: map<int, seq<int>>, i: nat, name: seq<byte>) returns (x: seq<int>)
    requires i <= INT_MAX
    ensures SkeletonOf(m, Candidate(i, name)) == Decomposition(m, 40) + Decomposed(m, Decimal(i) + [41] + x)
  {
    hide Candidate, Decimal, Decomposition, Decomposed, Codes;
    var left := CandidateStarts(i, name);
    var p := Prefix(i);
    CodesOfAscii(p, 0, left);
    x := Codes(p + left, |p|);
    assert p[0..] == p;
    HeadOff(m, 40, Decimal(i), x);
  }

  ghost predicate CandidatesApart(m: map<int, seq<int>>, name: seq<byte>) {
    forall i, j :: 1 <= i < j <= MAX_CLIENTS ==> SkeletonOf(m, Candidate(i, name)) != SkeletonOf(m, Candidate(j, name))
  }

  lemma SameCandidate(m: map<int, seq<int>>, i: nat, j: nat, name: seq<byte>)
    requires DigitsApart(m) && i <= INT_MAX && j <= INT_MAX
    requires SkeletonOf(m, Candidate(i, name)) == SkeletonOf(m, Candidate(j, name))
    ensures i == j
  {
    hide Decomposed, Decomposition, SkeletonOf, DigitsApart, Candidate, Decimal;
    var x := CandidateSkeleton(m, i, name);
    var y := CandidateSkeleton(m, j, name);
    var h := Decomposition(m, 40);
    var s, t := Decomposed(m, Decimal(i) + [41] + x), Decomposed(m, Decimal(j) + [41] + y);
    assert (h + s)[|h|..] == s && (h + t)[|h|..] == t;
    RunsDecide(m, Decimal(i), Decimal(j), x, y);
    DecimalInjective(i, j);
  }

  /** With the digits apart, no two of the names that are tried are confusable. */
  lemma DigitsApartSuffices(m: map<int, seq<int>>, name: seq<byte>)
    requires DigitsApart(m)
    ensures CandidatesApart(m, name)
  {
    hide SkeletonOf, DigitsApart, Candidate;
    forall i, j | 1 <= i < j <= MAX_CLIENTS
      ensures SkeletonOf(m, Candidate(i, name)) != SkeletonOf(m, Candidate(j, name))
    {
      if SkeletonOf(m, Candidate(i, name)) == SkeletonOf(m, Candidate(j, name)) {
        SameCandidate(m, i, j, name);
      }
    }
  }

  // ----- what is stored

  lemma {:induction false} AsciiEncodes(p: seq<byte>)
    requires Ascii(p)
    ensures AllChars(p) && EncodeAll(p) == p
    decreases |p|
  {
    if p != [] { AsciiEncodes(p[1..]); }
  }

  lemma CutKeeps(name: seq<byte>)
    requires Utf8Octets(name) && |name| < MAX_NAME_LENGTH
    ensures Cut(name) == name && IsCString(name)
  {
    hide Fixed, Utf8Octets, EncodeAll;
    var cs := OctetsAreEncoded(name);
    EncodedIsOctets(cs);
    FixedWhole(cs);
    assert name[..|name|] == name;
  }

  /** A candidate is not a command. */
  lemma CandidateIs(i: nat, name: seq<byte>)
    requires IsCString(name) && i <= INT_MAX
    ensures var c := Candidate(i, name); IsCString(c) && |c| < MAX_NAME_LENGTH && c != [] && c[0] == 40
  {
    hide Fixed, Prefix, Cut;
    var p := Prefix(i);
    var left := CandidateStarts(i, name);
    CutNoNul(p + name);
  }

  /** Of a valid name, it is valid UTF-8, so storing it cuts nothing off. */
  lemma CandidateStores(i: nat, name: seq<byte>)
    requires Utf8Octets(name) && i <= INT_MAX
    ensures var c := Candidate(i, name);
            Utf8Octets(c) && |c| < MAX_NAME_LENGTH && Cut(c) == c
  {
    hide Fixed, Utf8Octets, Prefix, Cut, EncodeAll;
    var p := Prefix(i);
    AsciiEncodes(p);
    var cs := OctetsAreEncoded(name);
    var all: seq<int> := p + cs;
    EncodeAllAppend(p, cs);
    CutOfEncoded(all);
    CutNoNul(p + name);
    CutKeeps(Candidate(i, name));
  }

  /** The candidate is the number in parentheses and as many whole characters of the name as fit behind it. */
  lemma CandidateKeeps(i: nat, cs: seq<int>)
    requires AllChars(cs) && i <= INT_MAX
    ensures |Decimal(i)| <= 10
    ensures Candidate(i, EncodeAll(cs))
            == [40] + Decimal(i) + [41] + EncodeAll(cs[..FitCount(cs, MAX_NAME_LENGTH - 1 - 2 - |Decimal(i)|)])
  {
    hide Fixed, EncodeAll, Decimal, FitCount;
    var p: seq<int> := Prefix(i);
    PrefixLength(i);
    AsciiEncodes(Prefix(i));
    EncodeAllAppend(p, cs);
    FixedIsLongestFit(p + cs, MAX_NAME_LENGTH - 1);
    FitBehind(p, cs, MAX_NAME_LENGTH - 1);
    var m := FitCount(cs, MAX_NAME_LENGTH - 1 - |p|);
    assert (p + cs)[..|p| + m] == p + cs[..m];
    EncodeAllAppend(p, cs[..m]);
  }

  /** Behind a run of ASCII, characters fit into the room that is left. */
  lemma {:induction false} FitBehind(p: seq<int>, cs: seq<int>, k: int)
    requires AllChars(cs) && |p| <= k && forall i :: 0 <= i < |p| ==> 0 < p[i] < 0x80
    ensures AllChars(p + cs) && FitCount(p + cs, k) == |p| + FitCount(cs, k - |p|)
    decreases |p|
  {
    if p == [] {
      assert p + cs == cs;
    } else {
      assert (p + cs)[1..] == p[1..] + cs;
      FitBehind(p[1..], cs, k - 1);
    }
  }

  lemma CutOfEncoded(cs: seq<int>)
    requires AllChars(cs)
    ensures Utf8Octets(Cut(EncodeAll(cs)))
  {
    hide Fixed, Utf8Octets, EncodeAll;
    FixedIsLongestFit(cs, MAX_NAME_LENGTH - 1);
    EncodedIsOctets(cs[..FitCount(cs, MAX_NAME_LENGTH - 1)]);
  }

  /** No two clients at READY or above have confusable names. */
  ghost predicate AllApart(m: map<int, seq<int>>, clients: seq<Client>) {
    forall i :: 0 <= i < |clients| && Ready(clients[i]) ==> Unconfusable(m, clients, i, clients[i].name)
  }

  /** The name `SetClientNameImpl` decides on: the trimmed request or the first candidate available. */
  ghost predicate Chosen(m: map<int, seq<int>>, clients: seq<Client>, id: int, name: seq<byte>, chosen: seq<byte>) {
    if Available(m, clients, id, Cut(name)) then chosen == Cut(name)
    else exists k: nat :: k <= INT_MAX && FirstAvailable(m, clients, id, name, k) && chosen == Candidate(k, name)
  }

  ghost predicate FirstAvailable(m: map<int, seq<int>>, clients: seq<Client>, id: int, name: seq<byte>, k: nat) {
    && k >= 1 && Available(m, clients, id, Candidate(k, name))
    && forall j :: 1 <= j < k ==> !Available(m, clients, id, Candidate(j, name))
  }

  /** One of the candidates up to the `n`-th is available. */
  ghost predicate SomeAvailable(m: map<int, seq<int>>, clients: seq<Client>, id: int, name: seq<byte>, n: int) {
    exists k: nat :: 1 <= k <= n && Available(m, clients, id, Candidate(k, name))
  }

  lemma ChosenIsAvailable(m: map<int, seq<int>>, clients: seq<Client>, id: int, name: seq<byte>, chosen: seq<byte>)
    requires Chosen(m, clients, id, name, chosen) && 0 <= id < |clients|
    ensures Available(m, clients, id, chosen)
    ensures var after := clients[id := clients[id].(name := chosen)];
            && Available(m, after, id, after[id].name)
            && (AllApart(m, clients) ==> AllApart(m, after))
  {
    hide SkeletonOf, Candidate;
    var after := clients[id := clients[id].(name := chosen)];
    if AllApart(m, clients) {
      forall i | 0 <= i < |after| && Ready(after[i])
        ensures Unconfusable(m, after, i, after[i].name)
      {
        if i != id { assert Unconfusable(m, clients, i, clients[i].name); }
      }
    }
  }

  /** Without `id`, there is one index less. */
  lemma Fewer(s: set<int>, n: nat, id: int)
    requires 0 <= id < n && id !in s && forall x :: x in s ==> 0 <= x < n
    ensures |s| < n
  {
    AtMost(s + {id}, n);
  }

  /** The client's name is confusable with one of the first candidates. */
  ghost predicate Blocks(m: map<int, seq<int>>, c: Client, name: seq<byte>, n: int) {
    exists j :: 1 <= j <= n && SkeletonOf(m, c.name) == SkeletonOf(m, Candidate(j, name))
  }

  /** Every candidate that is not available has a client of its own in the way. */
  lemma {:induction false} InTheWay(m: map<int, seq<int>>, clients: seq<Client>, id: int, name: seq<byte>, n: nat)
    returns (s: set<int>)
    requires CandidatesApart(m, name) && IsCString(name) && n <= MAX_CLIENTS
    requires !SomeAvailable(m, clients, id, name, n)
    ensures |s| == n && forall x :: x in s ==> 0 <= x < |clients| && x != id && Blocks(m, clients[x], name, n)
    decreases n
  {
    hide Candidate, SkeletonOf;
    if n == 0 {
      s := {};
    } else {
      s := InTheWay(m, clients, id, name, n - 1);
      CandidateIs(n, name);
      assert !Unconfusable(m, clients, id, Candidate(n, name));
      var x :| 0 <= x < |clients| && x != id && SkeletonOf(m, clients[x].name) == SkeletonOf(m, Candidate(n, name));
      assert x !in s;
      s := s + {x};
    }
  }

  /** So among as many candidates as clients, one is available. */
  lemma OneIsAvailable(m: map<int, seq<int>>, clients: seq<Client>, id: int, name: seq<byte>)
    requires CandidatesApart(m, name) && IsCString(name) && 0 <= id < |clients| <= MAX_CLIENTS
    ensures SomeAvailable(m, clients, id, name, |clients|)
  {
    hide CandidatesApart;
    if !SomeAvailable(m, clients, id, name, |clients|) {
      var s := InTheWay(m, clients, id, name, |clients|);
      Fewer(s, |clients|, id);
    }
  }

  lemma {:induction false} DigitsVanish(m: map<int, seq<int>>, d: seq<int>, rest: seq<int>)
    requires Digits(d) && forall a :: 48 <= a <= 57 ==> Decomposition(m, a) == []
    ensures Decomposed(m, d + rest) == Decomposed(m, rest)
    decreases |d|
  {
    if d == [] {
      assert d + rest == rest;
    } else {
      assert (d + rest)[1..] == d[1..] + rest;
      DigitsVanish(m, d[1..], rest);
    }
  }

  lemma AsciiCodes(p: seq<byte>)
    requires Ascii(p)
    ensures Codes(p, 0) == p
  {
    var rest: seq<byte> := [];
    assert p + rest == p;
    CodesOfAscii(p, 0, rest);
  }

  lemma CandidateOfEmpty(k: nat)
    requires k <= INT_MAX
    ensures Candidate(k, []) == Prefix(k) && Codes(Candidate(k, []), 0) == Prefix(k)
  {
    hide Codes, Prefix, Cut, EncodeAll;
    var p := Prefix(k);
    PrefixLength(k);
    AsciiEncodes(p);
    EncodedIsOctets(p);
    CutKeeps(p);
    assert p + [] == p;
    AsciiCodes(p);
  }

  lemma EmptyNameSkeleton(m: map<int, seq<int>>, k: nat)
    requires k <= INT_MAX && forall a :: Decomposition(m, a) == if 48 <= a <= 57 then [] else [a]
    ensures SkeletonOf(m, Candidate(k, [])) == [40, 41]
  {
    hide Codes, Decimal, Candidate, Decomposition;
    var d, none: seq<int> := Decimal(k), [];
    CandidateOfEmpty(k);
    HeadOff(m, 40, d, none);
    assert ([40] + d + [41]) + none == [40] + d + [41];
    DigitsVanish(m, d, [41] + none);
    assert d + [41] + none == d + ([41] + none);
    assert ([41] + none)[1..] == none;
  }

  /**
   * With a table that drops the digits and a client called "()", the loop never ends for an
   * empty request: no candidate is available.
   */
  lemma NoneAvailable(m: map<int, seq<int>>, clients: seq<Client>, id: int, other: int)
    requires forall a :: Decomposition(m, a) == if 48 <= a <= 57 then [] else [a]
    requires 0 <= other < |clients| && other != id && clients[other] == Client(INGAME, [40, 41])
    ensures !SomeAvailable(m, clients, id, [], INT_MAX)
  {
    hide Candidate, Codes, Decimal;
    AsciiCodes([40, 41]);
    assert SkeletonOf(m, [40, 41]) == [40, 41];
    forall k: nat | 1 <= k <= INT_MAX
      ensures !Available(m, clients, id, Candidate(k, []))
    {
      EmptyNameSkeleton(m, k);
    }
  }

  /** Of a valid request, the name that has been checked is the name that is stored. */
  lemma StoredIsChosen(m: map<int, seq<int>>, clients: seq<Client>, id: int, request: seq<byte>, chosen: seq<byte>)
    requires IsCString(request) && Utf8Octets(request)
    requires Chosen(m, clients, id, Trimmed(request), chosen)
    ensures Cut(chosen) == chosen && Cut(Trimmed(request)) == Trimmed(request)
  {
    hide Available, Candidate, Utf8Octets, FirstAvailable, Cut, Trimmed;
    var name := Trimmed(request);
    TrimmedIsValid(request);
    CutKeeps(name);
    if !Available(m, clients, id, Cut(name)) {
      var k: nat :| k <= INT_MAX && FirstAvailable(m, clients, id, name, k) && chosen == Candidate(k, name);
      CandidateStores(k, name);
    }
  }

  class Server {
    const tables: Tables
    ghost const m: map<int, seq<int>>
    const lower: map<int, int>
    const bans: seq<Ban>
    var clients: seq<Client>

    ghost predicate Valid()
      reads this
    {
      && Represents(tables, m) && NoZero(m)
      && (forall i :: 0 <= i < |bans| ==> ValidBan(bans[i]))
      && |clients| == MAX_CLIENTS && NamesAreStrings(clients)
    }

    /** The loop of `SetClientNameImpl`, which ends exactly if some candidate is available. */
    method Rename(id: int, name: seq<byte>) returns (nameTry: seq<byte>)
      requires Valid() && 0 <= id < MAX_CLIENTS && IsCString(name)
      requires SomeAvailable(m, clients, id, name, INT_MAX)
      ensures exists k: nat :: k <= INT_MAX && FirstAvailable(m, clients, id, name, k) && nameTry == Candidate(k, name)
    {
      hide Available, Candidate, SkeletonOf, Represents, NoZero;
      ghost var k: nat :| 1 <= k <= INT_MAX && Available(m, clients, id, Candidate(k, name));
      var i := 1;
      while true
        invariant 1 <= i <= k
        invariant forall j :: 1 <= j < i ==> !Available(m, clients, id, Candidate(j, name))
        decreases k - i
      {
        nameTry := Candidate(i, name);
        CandidateIs(i, name);
        var ok := IsClientNameAvailable(tables, m, clients, id, nameTry);
        if ok {
          assert FirstAvailable(m, clients, id, name, i);
          return;
        }
        i := i + 1;
      }
    }

    /** Some ban applies to the requested name. */
    ghost predicate Banned(request: seq<byte>)
      requires IsCString(request)
    {
      exists i :: 0 <= i < |bans| && Applies(m, lower, bans[i], request)
    }

    /**
     * `SetClientNameImpl`. `chosen` is the name that is tried last; `kicked` says that the
     * client is to be kicked.
     */
    method SetClientNameImpl(id: int, request: seq<byte>, set_: bool)
      returns (changed: bool, kicked: bool, ghost chosen: seq<byte>)
      requires Valid() && 0 <= id < MAX_CLIENTS && IsCString(request)
      requires
        || Available(m, clients, id, Cut(Trimmed(request)))
        || SomeAvailable(m, clients, id, Trimmed(request), INT_MAX)
      modifies this`clients
      ensures Valid()
      ensures !Ready(old(clients)[id]) || Banned(request) ==> !changed && clients == old(clients)
      ensures kicked <==> old(clients)[id].state == READY && set_ && Banned(request)
      ensures Ready(old(clients)[id]) && !Banned(request) ==>
        && Chosen(m, old(clients), id, Trimmed(request), chosen)
        && (changed <==> old(clients)[id].name != chosen)
        && clients == if set_ then old(clients)[id := old(clients)[id].(name := Cut(chosen))] else old(clients)
    {
      hide Available, Candidate, SkeletonOf, Represents, NoZero, SomeAvailable, FirstAvailable, Cut, Trimmed, Applies;
      chosen := [];
      if StateNumber(clients[id].state) < StateNumber(READY) {
        return false, false, chosen;
      }
      var banned := IsNameBanned(tables, m, lower, request, bans);
      if banned >= 0 {
        return false, clients[id].state == READY && set_, chosen;
      }
      var trimmed := TrimName(request);
      CutNoNul(trimmed);
      var nameTry := Cut(trimmed);
      var ok := IsClientNameAvailable(tables, m, clients, id, nameTry);
      if !ok {
        nameTry := Rename(id, trimmed);
        ghost var k: nat :| k <= INT_MAX && FirstAvailable(m, clients, id, trimmed, k) && nameTry == Candidate(k, trimmed);
        CandidateIs(k, trimmed);
      }
      chosen := nameTry;
      changed := clients[id].name != nameTry;
      kicked := false;
      if set_ {
        CutNoNul(nameTry);
        clients := clients[id := clients[id].(name := Cut(nameTry))];
      }
    }
  }
}
