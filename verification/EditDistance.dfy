/**
 * The Levenshtein distance of `str_utf32_dist_buffer`: two rows of the table in one buffer,
 * proved to return the least number of single-character edits.
 */
module EditDistance {
  import opened Bytes
  import opened Utf8Spec
  import opened Utf8
  import opened Utf8Truncation

  type text = seq<int>

  // ----- edits

  /** One insertion, deletion or substitution. */
  datatype Edit =
    | Insert(at: nat, c: int)
    | Delete(at: nat)
    | Substitute(at: nat, c: int)

  predicate Applies(e: Edit, s: text) {
    match e
    case Insert(at, _) => at <= |s|
    case Delete(at) => at < |s|
    case Substitute(at, _) => at < |s|
  }

  function Edited(e: Edit, s: text): text
    requires Applies(e, s)
  {
    match e
    case Insert(at, c) => s[..at] + [c] + s[at..]
    case Delete(at) => s[..at] + s[at + 1..]
    case Substitute(at, c) => s[..at] + [c] + s[at + 1..]
  }

  /** The edits of `script`, one after the other, turn `a` into `b`. */
  predicate Turns(script: seq<Edit>, a: text, b: text)
    decreases |script|
  {
    if script == [] then a == b
    else Applies(script[0], a) && Turns(script[1..], Edited(script[0], a), b)
  }

  // ----- the recurrence of the table

  function Min3(a: int, b: int, c: int): int {
    Min(Min(a, b), c)
  }

  /** The table's recurrence, on the last characters as the source has it. */
  function Table(a: text, b: text): (d: nat)
    ensures a == [] ==> d == |b|
    ensures b == [] ==> d == |a|
    decreases |a| + |b|
  {
    if a == [] then |b|
    else if b == [] then |a|
    else
      var a', b' := a[..|a| - 1], b[..|b| - 1];
      Min3(Table(a', b) + 1, Table(a, b') + 1,
           Table(a', b') + if a[|a| - 1] != b[|b| - 1] then 1 else 0)
  }

  function Dist(a: text, b: text): (d: nat)
    ensures a == [] ==> d == |b|
    ensures b == [] ==> d == |a|
  {
    Table(a, b)
  }

  lemma {:induction false} DistSymmetric(a: text, b: text)
    ensures Dist(a, b) == Dist(b, a)
    decreases |a| + |b|
  {
    if a != [] && b != [] {
      var a', b' := a[..|a| - 1], b[..|b| - 1];
      DistSymmetric(a', b);
      DistSymmetric(a, b');
      DistSymmetric(a', b');
    }
  }

  // ----- the recurrence is the least number of edits

  lemma {:induction false} TurnsThen(script: seq<Edit>, a: text, b: text, rest: seq<Edit>, c: text)
    requires Turns(script, a, b) && Turns(rest, b, c)
    ensures Turns(script + rest, a, c)
    decreases |script|
  {
    hide Edited;
    if script == [] {
      assert script + rest == rest;
    } else {
      TurnsThen(script[1..], Edited(script[0], a), b, rest, c);
      assert (script + rest)[1..] == script[1..] + rest;
    }
  }

  /** A script also works in front of one more character. */
  lemma {:induction false} TurnsBefore(script: seq<Edit>, a: text, b: text, x: int)
    requires Turns(script, a, b)
    ensures Turns(script, a + [x], b + [x])
    decreases |script|
  {
    if script != [] {
      var e := script[0];
      assert Edited(e, a + [x]) == Edited(e, a) + [x];
      TurnsBefore(script[1..], Edited(e, a), b, x);
    }
  }

  lemma OneStep(e: Edit, a: text)
    requires Applies(e, a)
    ensures Turns([e], a, Edited(e, a))
  {
    assert Turns([e][1..], Edited(e, a), Edited(e, a));
  }

  lemma FrontAndLast(s: text)
    requires s != []
    ensures s[..|s| - 1] + [s[|s| - 1]] == s
  {
  }

  lemma DeleteFirst(p: text, x: int, rest: seq<Edit>, b: text) returns (script: seq<Edit>)
    requires Turns(rest, p, b)
    ensures Turns(script, p + [x], b) && |script| == |rest| + 1
  {
    var e := Delete(|p|);
    assert Edited(e, p + [x]) == p;
    OneStep(e, p + [x]);
    TurnsThen([e], p + [x], p, rest, b);
    script := [e] + rest;
  }

  lemma InsertLast(a: text, rest: seq<Edit>, q: text, y: int) returns (script: seq<Edit>)
    requires Turns(rest, a, q)
    ensures Turns(script, a, q + [y]) && |script| == |rest| + 1
  {
    var e := Insert(|q|, y);
    assert Edited(e, q) == q + [y];
    OneStep(e, q);
    TurnsThen(rest, a, q, [e], q + [y]);
    script := rest + [e];
  }

  lemma MatchLast(p: text, x: int, rest: seq<Edit>, q: text, y: int) returns (script: seq<Edit>)
    requires Turns(rest, p, q)
    ensures Turns(script, p + [x], q + [y]) && |script| == |rest| + if x != y then 1 else 0
  {
    TurnsBefore(rest, p, q, x);
    script := rest;
    if x != y {
      var e := Substitute(|q|, y);
      assert Edited(e, q + [x]) == q + [y];
      OneStep(e, q + [x]);
      TurnsThen(rest, p + [x], q + [x], [e], q + [y]);
      script := rest + [e];
    }
  }

  /** A script of exactly `Dist(a, b)` edits. */
  lemma {:induction false} Witness(a: text, b: text) returns (script: seq<Edit>)
    ensures Turns(script, a, b) && |script| == Dist(a, b)
    decreases |a| + |b|
  {
    if a == [] && b == [] {
      return [];
    }
    if a != [] { FrontAndLast(a); }
    if b != [] { FrontAndLast(b); }
    if a != [] && Dist(a, b) == Dist(a[..|a| - 1], b) + 1 {
      var rest := Witness(a[..|a| - 1], b);
      script := DeleteFirst(a[..|a| - 1], a[|a| - 1], rest, b);
    } else if b != [] && Dist(a, b) == Dist(a, b[..|b| - 1]) + 1 {
      var rest := Witness(a, b[..|b| - 1]);
      script := InsertLast(a, rest, b[..|b| - 1], b[|b| - 1]);
    } else {
      var rest := Witness(a[..|a| - 1], b[..|b| - 1]);
      script := MatchLast(a[..|a| - 1], a[|a| - 1], rest, b[..|b| - 1], b[|b| - 1]);
    }
  }

  /** The recurrence with the two last characters named. */
  lemma DistOf(a: text, x: int, b: text, y: int)
    ensures Dist(a + [x], b + [y])
            == Min3(Dist(a, b + [y]) + 1, Dist(a + [x], b) + 1, Dist(a, b) + if x != y then 1 else 0)
  {
    assert (a + [x])[..|a|] == a && (b + [y])[..|b|] == b;
  }

  lemma DistInsertLast(a: text, b: text, y: int)
    ensures Dist(a, b + [y]) <= Dist(a, b) + 1
  {
    hide Dist;
    if a != [] {
      assert a == a[..|a| - 1] + [a[|a| - 1]];
      DistOf(a[..|a| - 1], a[|a| - 1], b, y);
    }
  }

  /** One edit at the end of `s` changes the distance by at most one. */
  lemma {:induction false} EditAtEnd(p: text, x: int, y: int, b: text)
    ensures Dist(p + [x], b) <= Dist(p, b) + 1
    ensures Dist(p, b) <= Dist(p + [y], b) + 1
    ensures Dist(p + [x], b) <= Dist(p + [y], b) + 1
    decreases |b|
  {
    hide Dist;
    if b != [] {
      var b', z := b[..|b| - 1], b[|b| - 1];
      assert b == b' + [z];
      EditAtEnd(p, x, y, b');
      DistOf(p, x, b', z);
      DistOf(p, y, b', z);
      DistInsertLast(p, b', z);
    }
  }

  /** An edit in front of the last character keeps that character. */
  lemma EditInFront(e: Edit, p: text, x: int)
    requires Applies(e, p)
    ensures Edited(e, p + [x]) == Edited(e, p) + [x]
  {
  }

  lemma Min3Lipschitz(u: int, v: int, w: int, u': int, v': int, w': int)
    requires u <= u' + 1 && v <= v' + 1 && w <= w' + 1
    ensures Min3(u, v, w) <= Min3(u', v', w') + 1
  {
  }

  lemma Lipschitz(p: text, p': text, x: int, b: text, z: int)
    requires Dist(p, b + [z]) <= Dist(p', b + [z]) + 1
    requires Dist(p + [x], b) <= Dist(p' + [x], b) + 1
    requires Dist(p, b) <= Dist(p', b) + 1
    ensures Dist(p + [x], b + [z]) <= Dist(p' + [x], b + [z]) + 1
  {
    hide Dist;
    var subst := if x != z then 1 else 0;
    Min3Lipschitz(Dist(p, b + [z]) + 1, Dist(p + [x], b) + 1, Dist(p, b) + subst,
                  Dist(p', b + [z]) + 1, Dist(p' + [x], b) + 1, Dist(p', b) + subst);
    DistOf(p, x, b, z);
    DistOf(p', x, b, z);
  }

  /** One edit anywhere changes the distance by at most one. */
  lemma {:induction false} EditOnce(e: Edit, s: text, b: text)
    requires Applies(e, s)
    ensures Dist(s, b) <= Dist(Edited(e, s), b) + 1
    decreases |s| + |b|
  {
    hide Dist;
    if e.Insert? && e.at == |s| {
      assert Edited(e, s) == s + [e.c];
      EditAtEnd(s, 0, e.c, b);
      return;
    }
    var p, x := s[..|s| - 1], s[|s| - 1];
    assert s == p + [x];
    if e.at == |p| && !e.Insert? {
      assert Edited(e, s) == if e.Delete? then p else p + [e.c];
      EditAtEnd(p, x, if e.Delete? then 0 else e.c, b);
      return;
    }
    EditInFront(e, p, x);
    if b != [] {
      var b', z := b[..|b| - 1], b[|b| - 1];
      assert b == b' + [z];
      EditOnce(e, p, b);
      EditOnce(e, s, b');
      EditOnce(e, p, b');
      Lipschitz(p, Edited(e, p), x, b', z);
    }
  }

  lemma {:induction false} NoShorterScript(script: seq<Edit>, a: text, b: text)
    requires Turns(script, a, b)
    ensures Dist(a, b) <= |script|
    decreases |script|
  {
    hide Dist;
    if script == [] {
      DistSelf(a);
    } else {
      EditOnce(script[0], a, b);
      NoShorterScript(script[1..], Edited(script[0], a), b);
    }
  }

  lemma {:induction false} DistSelf(a: text)
    ensures Dist(a, a) == 0
  {
    if a != [] { DistSelf(a[..|a| - 1]); }
  }

  /** `Dist(a, b)` is the least number of edits that turn `a` into `b`. */
  lemma DistIsLeast(a: text, b: text)
    ensures exists script :: Turns(script, a, b) && |script| == Dist(a, b)
    ensures forall script :: Turns(script, a, b) ==> |script| >= Dist(a, b)
  {
    hide Dist;
    var s := Witness(a, b);
    forall script | Turns(script, a, b) ensures |script| >= Dist(a, b) {
      NoShorterScript(script, a, b);
    }
  }

  /** The distance is a metric on texts. */
  lemma DistIsMetric(a: text, b: text, c: text)
    ensures Dist(a, b) == 0 <==> a == b
    ensures Dist(a, b) == Dist(b, a)
    ensures Dist(a, c) <= Dist(a, b) + Dist(b, c)
  {
    hide Dist;
    DistSymmetric(a, b);
    DistSelf(a);
    var first := Witness(a, b);
    var second := Witness(b, c);
    TurnsThen(first, a, b, second, c);
    NoShorterScript(first + second, a, c);
  }

  // ----- the loop

  /** Where row `j` starts in the buffer: the macro `B(i, j)` is `Row(j, a_len + 1) + i`. */
  function Row(j: nat, width: nat): nat {
    if j % 2 == 1 then width else 0
  }

  /** One row of the table: the distances of all prefixes of `a` to `b`. */
  ghost function DistRow(a: text, b: text): (r: seq<int>)
    ensures |r| == |a| + 1
  {
    seq(|a| + 1, i requires 0 <= i <= |a| => Dist(a[..i], b))
  }

  lemma FirstRow(a: text, b: text)
    ensures forall i :: 0 <= i <= |a| ==> DistRow(a, b[..0])[i] == i
  {
    assert b[..0] == [];
  }

  /** The recurrence, entry by entry. */
  lemma RowStep(a: text, b: text, i: nat, j: nat)
    requires i <= |a| && 1 <= j <= |b|
    ensures DistRow(a, b[..j])[i]
            == if i == 0 then j
               else Min3(DistRow(a, b[..j])[i - 1] + 1, DistRow(a, b[..j - 1])[i] + 1,
                         DistRow(a, b[..j - 1])[i - 1] + if a[i - 1] != b[j - 1] then 1 else 0)
  {
    if i > 0 { assert a[..i][..i - 1] == a[..i - 1]; }
    assert b[..j][..j - 1] == b[..j - 1];
  }

  /**
   * `str_utf32_dist_buffer` on the part of a buffer from `base` on. That part may hold anything
   * on entry; the assertion on its length is the precondition.
   */
  method DistBuffer(a0: seq<int>, b0: seq<int>, buf: array<int>, base: nat) returns (d: int)
    requires buf.Length - base >= (|a0| + 1) + (|b0| + 1)
    modifies buf
    ensures d == Dist(a0, b0) && buf[..base] == old(buf[..base])
  {
    var a, b := a0, b0;
    if |a| > |b| {
      a, b := b, a;
      DistSymmetric(a0, b0);
    }
    hide Dist;
    var w := |a| + 1;
    FirstRow(a, b);
    FillFirstRow(buf, base, w, DistRow(a, b[..0]));
    var j := 1;
    while j <= |b|
      invariant 1 <= j <= |b| + 1 && buf[..base] == old(buf[..base])
      invariant Holds(buf[..], base + Row(j - 1, w), DistRow(a, b[..j - 1]))
    {
      RowFollows(a, b, j);
      FillRow(buf, base, a, b[j - 1], j, DistRow(a, b[..j - 1]), DistRow(a, b[..j]));
      j := j + 1;
    }
    LastOfRow(a, b);
    d := buf[base + Row(|b|, w) + |a|];
  }

  /** The loop that makes row 0. */
  method FillFirstRow(buf: array<int>, base: nat, w: nat, ghost row: seq<int>)
    requires base + w <= buf.Length && |row| == w && forall i :: 0 <= i < w ==> row[i] == i
    modifies buf
    ensures buf[..base] == old(buf[..base]) && Holds(buf[..], base + Row(0, w), row)
  {
    for i := 0 to w
      invariant buf[..base] == old(buf[..base])
      invariant forall k :: 0 <= k < i ==> row[k] == buf[base + k]
    {
      buf[base + (Row(0, w) + i)] := i;
    }
  }

  lemma LastOfRow(a: text, b: text)
    ensures DistRow(a, b[..|b|])[|a|] == Dist(a, b)
  {
    assert a[..|a|] == a && b[..|b|] == b;
  }

  /** The recurrence's value for column `i`, from the row above and the entry to the left. */
  function Entry(a: text, c: int, j: nat, above: seq<int>, row: seq<int>, i: nat): int
    requires i <= |a| && |above| == |row| == |a| + 1
  {
    if i == 0 then j
    else Min3(row[i - 1] + 1, above[i] + 1, above[i - 1] + if a[i - 1] != c then 1 else 0)
  }

  ghost predicate Follows(a: text, c: int, j: nat, above: seq<int>, row: seq<int>) {
    && |above| == |row| == |a| + 1
    && forall i {:trigger Entry(a, c, j, above, row, i)} :: 0 <= i <= |a| ==> row[i] == Entry(a, c, j, above, row, i)
  }

  lemma RowFollows(a: text, b: text, j: nat)
    requires 1 <= j <= |b|
    ensures Follows(a, b[j - 1], j, DistRow(a, b[..j - 1]), DistRow(a, b[..j]))
  {
    forall i | 0 <= i <= |a|
      ensures DistRow(a, b[..j])[i] == Entry(a, b[j - 1], j, DistRow(a, b[..j - 1]), DistRow(a, b[..j]), i)
    {
      RowStep(a, b, i, j);
    }
  }

  /** `buf` holds `r` from `base` on. */
  ghost predicate Holds(buf: seq<int>, base: nat, r: seq<int>) {
    base + |r| <= |buf| && forall k :: 0 <= k < |r| ==> r[k] == buf[base + k]
  }

  /** The inner loop of the source: row `j` from row `j - 1`. */
  method FillRow(buf: array<int>, base: nat, a: seq<int>, c: int, j: nat, ghost before: seq<int>, ghost after: seq<int>)
    requires 1 <= j && buf.Length - base >= 2 * (|a| + 1)
    requires Follows(a, c, j, before, after)
    requires Holds(buf[..], base + Row(j - 1, |a| + 1), before)
    modifies buf
    ensures Holds(buf[..], base + Row(j, |a| + 1), after) && buf[..base] == old(buf[..base])
  {
    var w := |a| + 1;
    var above, row := base + Row(j - 1, w), base + Row(j, w);
    assert (above == base && row == base + w) || (above == base + w && row == base);
    buf[row] := j;
    assert after[0] == Entry(a, c, j, before, after, 0);
    var i := 1;
    while i <= |a|
      invariant 1 <= i <= w && buf[..base] == old(buf[..base])
      invariant forall k :: 0 <= k < w ==> before[k] == buf[above + k]
      invariant forall k :: 0 <= k < i ==> after[k] == buf[row + k]
    {
      assert after[i] == Entry(a, c, j, before, after, i);
      var subst := if a[i - 1] != c then 1 else 0;
      buf[row + i] := Min3(buf[row + i - 1] + 1, buf[above + i] + 1, buf[above + i - 1] + subst);
      i := i + 1;
    }
  }

  // ----- on strings

  lemma {:induction false} CodesLength(s: seq<byte>, at: nat)
    requires IsCString(s) && at <= |s|
    ensures |Codes(s, at)| <= |s| - at
    decreases |s| - at
  {
    hide Decoded;
    if at < |s| {
      DecodedInside(s, at);
      CodesLength(s, Decoded(s, at).1);
    }
  }

  lemma CodesStep(s: seq<byte>, at: nat)
    requires IsCString(s) && at <= |s|
    ensures var (code, next) := Decoded(s, at);
            if code == 0 then Codes(s, at) == []
            else at < next <= |s| && Codes(s, at) == [code] + Codes(s, next)
  {
    hide Decoded;
    DecodedInside(s, at);
  }

  /** `str_to_utf32_unchecked`: the code points go into the buffer from `base` on, and a zero. */
  method ToUtf32(str: seq<byte>, buf: array<int>, base: nat) returns (end: nat)
    requires IsCString(str) && base + |str| < buf.Length
    modifies buf
    ensures end == base + |Codes(str, 0)| <= base + |str|
    ensures buf[..base] == old(buf[..base]) && buf[base..end] == Codes(str, 0)
  {
    hide Decoded, Codes;
    CodesLength(str, 0);
    end := base;
    var cursor := 0;
    ghost var codes := Codes(str, 0);
    ghost var done: seq<int> := [];
    while true
      invariant 0 <= cursor <= |str| && base <= end == base + |done|
      invariant end < buf.Length && codes == done + Codes(str, cursor)
      invariant buf[..base] == old(buf[..base]) && buf[base..end] == done
      decreases |str| - cursor
    {
      CodesStep(str, cursor);
      var code, next := Decode(str, cursor);
      buf[end] := code;
      if code == 0 {
        break;
      }
      assert buf[base..end + 1] == done + [code];
      done := done + [code];
      assert codes == done + Codes(str, next);
      end := end + 1;
      cursor := next;
    }
  }

  /**
   * `str_utf8_dist_buffer`: the texts are put into the buffer, and the rest of it is what the
   * table needs. Its own assertion guarantees that this is enough.
   */
  method Utf8DistBuffer(aUtf8: seq<byte>, bUtf8: seq<byte>, buf: array<int>) returns (d: int)
    requires IsCString(aUtf8) && IsCString(bUtf8)
    requires buf.Length >= 2 * (|aUtf8| + 1 + |bUtf8| + 1)
    modifies buf
    ensures d == Dist(Codes(aUtf8, 0), Codes(bUtf8, 0))
  {
    hide Dist, Codes;
    var a, b := aUtf8, bUtf8;
    if |a| > |b| {
      a, b := b, a;
      DistBothWays(Codes(aUtf8, 0), Codes(bUtf8, 0));
    }
    var aEnd := ToUtf32(a, buf, 0);
    assert buf[..aEnd] == Codes(a, 0);
    var bEnd := ToUtf32(b, buf, aEnd);
    d := DistBuffer(buf[..aEnd], buf[aEnd..bEnd], buf, bEnd);
  }

  lemma DistBothWays(a: text, b: text)
    ensures Dist(a, b) == Dist(b, a)
  {
    DistSymmetric(a, b);
  }

  /** For valid strings that is the least number of edits of characters. */
  lemma Utf8DistIsLeast(cs: seq<int>, ds: seq<int>)
    requires AllChars(cs) && AllChars(ds)
    ensures Dist(Codes(EncodeAll(cs), 0), Codes(EncodeAll(ds), 0)) == Dist(cs, ds)
  {
    hide Dist;
    RoundTrip(cs);
    RoundTrip(ds);
  }
}
