/**
 * Box movement against a tile map, over exact reals: `MoveBox` and the tests it is made of.
 */
module BoxMovement {
  import Division

  datatype Vec = Vec(x: real, y: real)

  const TILE_SOLID := 1
  const TILE_NOHOOK := 3

  /** The map, row by row; NoTiles is the null pointer. */
  datatype Collision = NoTiles | Tiles(width: int, height: int, index: seq<int>)

  predicate Valid(c: Collision) {
    c.Tiles? ==> c.width > 0 && c.height > 0 && |c.index| == c.width * c.height
  }

  /** Conversion to int drops the fraction. */
  function Trunc(r: real): int {
    if r >= 0.0 then r.Floor else -(-r).Floor
  }

  function RoundToInt(f: real): int {
    if f > 0.0 then Trunc(f + 0.5) else Trunc(f - 0.5)
  }

  /** Division in C drops the fraction as well. */
  function Div32(n: int): int {
    if n >= 0 then n / 32 else -(-n / 32)
  }

  function Clamp(v: int, lo: int, hi: int): int {
    if v < lo then lo else if hi < v then hi else v
  }

  lemma Rows(height: int, y: int, width: int)
    ensures width * height == (height - 1 - y) * width + y * width + width
  {
  }

  lemma InMap(x: int, y: int, width: int, height: int)
    requires 0 <= x < width && 0 <= y < height
    ensures 0 <= y * width + x < width * height
  {
    Rows(height, y, width);
    Division.NonNegative(height - 1 - y, width);
    Division.NonNegative(y, width);
  }

  function GetTile(c: Collision, x: int, y: int): int
    requires Valid(c)
  {
    if c.NoTiles? then 0
    else
      var nx := Clamp(Div32(x), 0, c.width - 1);
      var ny := Clamp(Div32(y), 0, c.height - 1);
      InMap(nx, ny, c.width, c.height);
      c.index[ny * c.width + nx]
  }

  predicate IsSolid(c: Collision, x: int, y: int)
    requires Valid(c)
  {
    var index := GetTile(c, x, y);
    index == TILE_SOLID || index == TILE_NOHOOK
  }

  predicate CheckPoint(c: Collision, x: real, y: real)
    requires Valid(c)
  {
    IsSolid(c, RoundToInt(x), RoundToInt(y))
  }

  predicate TestBox(c: Collision, pos: Vec, size: Vec)
    requires Valid(c)
  {
    var (sx, sy) := (size.x * 0.5, size.y * 0.5);
    || CheckPoint(c, pos.x - sx, pos.y - sy)
    || CheckPoint(c, pos.x + sx, pos.y - sy)
    || CheckPoint(c, pos.x - sx, pos.y + sy)
    || CheckPoint(c, pos.x + sx, pos.y + sy)
  }

  // ----- which tile a point is in

  /** A map of one row. */
  function Row(tiles: seq<int>): Collision {
    Tiles(|tiles|, 1, tiles)
  }

  /** In a single row, tile `k` is the pixels from 32 k to 32 k + 31 in any height, and those at the ends go on. */
  lemma RowTiles(tiles: seq<int>, k: nat, x: int, y: int)
    requires k < |tiles|
    requires (32 * k <= x || k == 0) && (x < 32 * k + 32 || k == |tiles| - 1)
    ensures Valid(Row(tiles)) && GetTile(Row(tiles), x, y) == tiles[k]
  {
  }

  /** One map on top of another of the same width: each pixel reads the one it is in. */
  lemma StackedTiles(top: Collision, bottom: Collision, x: int, y: int)
    requires Valid(top) && Valid(bottom) && top.Tiles? && bottom.Tiles? && top.width == bottom.width
    ensures var both := Tiles(top.width, top.height + bottom.height, top.index + bottom.index);
            && Valid(both)
            && GetTile(both, x, y) == if y < 32 * top.height then GetTile(top, x, y)
                                      else GetTile(bottom, x, y - 32 * top.height)
  {
    var both := Tiles(top.width, top.height + bottom.height, top.index + bottom.index);
    assert both.width * both.height == top.width * top.height + top.width * bottom.height;
    var nx := Clamp(Div32(x), 0, top.width - 1);
    if y < 32 * top.height {
      var ny := Clamp(Div32(y), 0, top.height - 1);
      assert Clamp(Div32(y), 0, both.height - 1) == ny;
      InMap(nx, ny, top.width, top.height);
    } else {
      var ny := Clamp(Div32(y - 32 * top.height), 0, bottom.height - 1);
      assert Clamp(Div32(y), 0, both.height - 1) == top.height + ny;
      InMap(nx, ny, bottom.width, bottom.height);
      Below(top.height, ny, top.width);
    }
  }

  lemma Below(above: int, ny: int, width: int)
    ensures (above + ny) * width == width * above + ny * width
  {
  }

  /** Solid are the tiles 1 and 3, and nothing else: a map of one tile stops a box everywhere or nowhere. */
  lemma OneTile(tile: int, pos: Vec, size: Vec)
    ensures Valid(Row([tile])) && (TestBox(Row([tile]), pos, size) <==> tile == 1 || tile == 3)
  {
  }

  // ----- the corners speak for the whole box

  /** No point under the box is in a solid tile. */
  ghost predicate NothingUnder(c: Collision, pos: Vec, size: Vec)
    requires Valid(c)
  {
    forall x, y :: pos.x - size.x * 0.5 <= x <= pos.x + size.x * 0.5 && pos.y - size.y * 0.5 <= y <= pos.y + size.y * 0.5
                   ==> !CheckPoint(c, x, y)
  }

  function Column(x: real): int {
    Div32(RoundToInt(x))
  }

  /** The points of a column: 32 pixels wide, but nearly 63 around zero, where both roundings meet. */
  lemma ColumnSpan(x: real)
    ensures var k := Column(x);
            && (k > 0 ==> 32.0 * k as real - 0.5 <= x < 32.0 * k as real + 31.5)
            && (k == 0 ==> -31.5 < x < 31.5)
            && (k < 0 ==> 32.0 * k as real - 31.5 < x <= 32.0 * k as real + 0.5)
  {
    var n := RoundToInt(x);
    if x > 0.0 {
      assert n as real <= x + 0.5 < n as real + 1.0;
    } else {
      assert n as real - 1.0 < x - 0.5 <= n as real;
    }
  }

  lemma ColumnMonotone(x: real, y: real)
    requires x <= y
    ensures Column(x) <= Column(y)
  {
    ColumnSpan(x);
    ColumnSpan(y);
  }

  /** No column fits between two points that are at most 32 pixels apart. */
  lemma AtMostTwoColumns(left: real, x: real, right: real)
    requires left <= x <= right <= left + 32.0
    ensures Column(x) == Column(left) || Column(x) == Column(right)
  {
    hide Column;
    ColumnMonotone(left, x);
    ColumnMonotone(x, right);
    ColumnSpan(left);
    ColumnSpan(x);
    ColumnSpan(right);
  }

  lemma SameColumns(c: Collision, x: real, y: real, x': real, y': real)
    requires Valid(c) && Column(x) == Column(x') && Column(y) == Column(y')
    ensures CheckPoint(c, x, y) == CheckPoint(c, x', y')
  {
    hide RoundToInt, Div32;
  }

  lemma CornersSuffice(c: Collision, pos: Vec, size: Vec)
    requires Valid(c) && 0.0 <= size.x <= 32.0 && 0.0 <= size.y <= 32.0 && !TestBox(c, pos, size)
    ensures NothingUnder(c, pos, size)
  {
    hide CheckPoint, Column;
    var (l, r) := (pos.x - size.x * 0.5, pos.x + size.x * 0.5);
    var (t, b) := (pos.y - size.y * 0.5, pos.y + size.y * 0.5);
    forall x, y | l <= x <= r && t <= y <= b
      ensures !CheckPoint(c, x, y)
    {
      AtMostTwoColumns(l, x, r);
      AtMostTwoColumns(t, y, b);
      var x' := if Column(x) == Column(l) then l else r;
      var y' := if Column(y) == Column(t) then t else b;
      SameColumns(c, x, y, x', y');
    }
  }

  lemma WideMisses(w: real, h: real) returns (c: Collision, pos: Vec)
    requires w > 32.0 && h >= 0.0
    ensures Valid(c) && !TestBox(c, pos, Vec(w, h)) && !NothingUnder(c, pos, Vec(w, h))
  {
    c, pos := Tiles(3, 1, [0, TILE_SOLID, 0]), Vec(63.5 - w * 0.5, 0.0);
    assert CheckPoint(c, 32.0, 0.0);
  }

  lemma HighMisses(w: real, h: real) returns (c: Collision, pos: Vec)
    requires h > 32.0 && w >= 0.0
    ensures Valid(c) && !TestBox(c, pos, Vec(w, h)) && !NothingUnder(c, pos, Vec(w, h))
  {
    c, pos := Tiles(1, 3, [0, TILE_SOLID, 0]), Vec(0.0, 63.5 - h * 0.5);
    assert CheckPoint(c, 0.0, 32.0);
  }

  /** Any larger box can have its corners in the open and a solid tile between them. */
  lemma CornersMiss(w: real, h: real) returns (c: Collision, pos: Vec)
    requires w >= 0.0 && h >= 0.0 && (w > 32.0 || h > 32.0)
    ensures Valid(c) && !TestBox(c, pos, Vec(w, h)) && !NothingUnder(c, pos, Vec(w, h))
  {
    hide *;
    if w > 32.0 {
      c, pos := WideMisses(w, h);
    } else {
      c, pos := HighMisses(w, h);
    }
  }

  /** 32 pixels are the largest size for which testing the corners is enough. */
  lemma CornersSufficeIff(w: real, h: real)
    requires w >= 0.0 && h >= 0.0
    ensures w <= 32.0 && h <= 32.0 <==>
      forall c, pos :: Valid(c) && !TestBox(c, pos, Vec(w, h)) ==> NothingUnder(c, pos, Vec(w, h))
  {
    if w <= 32.0 && h <= 32.0 {
      forall c, pos | Valid(c) && !TestBox(c, pos, Vec(w, h))
        ensures NothingUnder(c, pos, Vec(w, h))
      {
        CornersSuffice(c, pos, Vec(w, h));
      }
    } else {
      var c, pos := CornersMiss(w, h);
    }
  }

  // ----- one step

  function Scaled(v: Vec, f: real): Vec {
    Vec(v.x * f, v.y * f)
  }

  function Plus(a: Vec, b: Vec): Vec {
    Vec(a.x + b.x, a.y + b.y)
  }

  function LengthSquared(v: Vec): real {
    v.x * v.x + v.y * v.y
  }

  /** Where the box is, and how it moves. */
  datatype Body = Body(pos: Vec, vel: Vec)

  /**
   * One step: a coordinate whose own move hits stays and bounces; if only the diagonal move
   * hits, both do.
   */
  function Stepped(c: Collision, b: Body, size: Vec, e: real, f: real): Body
    requires Valid(c)
  {
    var to := Plus(b.pos, Scaled(b.vel, f));
    if !TestBox(c, to, size) then b.(pos := to)
    else
      var hitY := TestBox(c, Vec(b.pos.x, to.y), size);
      var hitX := TestBox(c, Vec(to.x, b.pos.y), size);
      var (stopX, stopY) := (hitX || !hitY, hitY || !hitX);
      Body(Vec(if stopX then b.pos.x else to.x, if stopY then b.pos.y else to.y),
           Vec(if stopX then b.vel.x * -e else b.vel.x, if stopY then b.vel.y * -e else b.vel.y))
  }

  /** `n` steps, without the early exits of the loop. */
  function Moved(c: Collision, b: Body, size: Vec, e: real, f: real, n: nat): Body
    requires Valid(c)
    decreases n
  {
    if n == 0 then b else Moved(c, Stepped(c, b, size, e, f), size, e, f, n - 1)
  }

  /** `Max`: the length of the velocity without its fraction. */
  predicate IsFloorLength(v: Vec, max: nat) {
    max as real * max as real <= LengthSquared(v) < (max as real + 1.0) * (max as real + 1.0)
  }

  function Fraction(max: nat): real {
    1.0 / (max as real + 1.0)
  }

  /** The end of the whole move. */
  function End(c: Collision, b: Body, size: Vec, e: real, max: nat): Body
    requires Valid(c)
  {
    if LengthSquared(b.vel) > 0.00001 * 0.00001 then Moved(c, b, size, e, Fraction(max), max + 1) else b
  }

  lemma {:induction false} AtRestStays(c: Collision, b: Body, size: Vec, e: real, f: real, n: nat)
    requires Valid(c) && b.vel == Vec(0.0, 0.0)
    ensures Moved(c, b, size, e, f, n) == b
    decreases n
  {
    hide TestBox;
    if n > 0 { AtRestStays(c, b, size, e, f, n - 1); }
  }

  lemma ScaledMoves(v: Vec, f: real)
    requires f > 0.0 && v != Vec(0.0, 0.0)
    ensures Scaled(v, f) != Vec(0.0, 0.0)
  {
    assert v.x * f == 0.0 ==> v.x == 0.0;
    assert v.y * f == 0.0 ==> v.y == 0.0;
  }

  /** `MoveBox`, with both of its early exits. */
  method MoveBox(c: Collision, inPos: Vec, inVel: Vec, size: Vec, elasticity: real, max: nat)
    returns (pos: Vec, vel: Vec)
    requires Valid(c) && IsFloorLength(inVel, max)
    ensures Body(pos, vel) == End(c, Body(inPos, inVel), size, elasticity, max)
  {
    hide TestBox, IsFloorLength, Scaled, LengthSquared;
    pos, vel := inPos, inVel;
    if LengthSquared(vel) > 0.00001 * 0.00001 {
      var fraction := Fraction(max);
      ghost var end := End(c, Body(inPos, inVel), size, elasticity, max);
      for i := 0 to max + 1
        invariant Moved(c, Body(pos, vel), size, elasticity, fraction, max + 1 - i) == end
      {
        if vel == Vec(0.0, 0.0) {
          AtRestStays(c, Body(pos, vel), size, elasticity, fraction, max + 1 - i);
          break;
        }
        var newPos := Plus(pos, Scaled(vel, fraction));
        ScaledMoves(vel, fraction);
        if newPos == pos {
          break;
        }
        ghost var before := Body(pos, vel);
        if TestBox(c, newPos, size) {
          var hits := 0;
          if TestBox(c, Vec(pos.x, newPos.y), size) {
            newPos := Vec(newPos.x, pos.y);
            vel := Vec(vel.x, vel.y * -elasticity);
            hits := hits + 1;
          }
          if TestBox(c, Vec(newPos.x, pos.y), size) {
            newPos := Vec(pos.x, newPos.y);
            vel := Vec(vel.x * -elasticity, vel.y);
            hits := hits + 1;
          }
          if hits == 0 {
            newPos := pos;
            vel := Vec(vel.x * -elasticity, vel.y * -elasticity);
          }
        }
        pos := newPos;
        assert Body(pos, vel) == Stepped(c, before, size, elasticity, fraction);
      }
    }
  }

  // ----- what a move keeps

  /** Wherever the box comes to, its corners are free: only a box that stays can be stuck. */
  lemma {:induction false} MovedIsFree(c: Collision, b: Body, size: Vec, e: real, f: real, n: nat)
    requires Valid(c)
    ensures var r := Moved(c, b, size, e, f, n); r.pos != b.pos ==> !TestBox(c, r.pos, size)
    ensures var r := Moved(c, b, size, e, f, n); !TestBox(c, b.pos, size) ==> !TestBox(c, r.pos, size)
    decreases n
  {
    hide TestBox;
    if n > 0 { MovedIsFree(c, Stepped(c, b, size, e, f), size, e, f, n - 1); }
  }

  /** From a free start, no solid tile is anywhere under the box where it ends. */
  lemma EndIsFree(c: Collision, b: Body, size: Vec, e: real, max: nat)
    requires Valid(c) && 0.0 <= size.x <= 32.0 && 0.0 <= size.y <= 32.0 && !TestBox(c, b.pos, size)
    ensures NothingUnder(c, End(c, b, size, e, max).pos, size)
  {
    hide TestBox, Moved, NothingUnder;
    MovedIsFree(c, b, size, e, Fraction(max), max + 1);
    CornersSuffice(c, End(c, b, size, e, max).pos, size);
  }

  function Power(base: real, k: nat): real {
    if k == 0 then 1.0 else Power(base, k - 1) * base
  }

  lemma Regroup(p: real, v: real, m: real)
    ensures p * (v * m) == p * m * v
  {
  }

  lemma NoPower(e: real, v: Vec)
    ensures v == Vec(Power(-e, 0) * v.x, Power(-e, 0) * v.y)
  {
  }

  lemma PowerMore(e: real, k: nat, v: real)
    ensures Power(-e, k + 1) * v == Power(-e, k) * (v * -e)
  {
    Regroup(Power(-e, k), v, -e);
  }

  /** Along either axis, the speed is turned round and damped some number of times. */
  lemma {:induction false} Bounces(c: Collision, b: Body, size: Vec, e: real, f: real, n: nat) returns (kx: nat, ky: nat)
    requires Valid(c)
    ensures kx <= n && ky <= n
    ensures Moved(c, b, size, e, f, n).vel == Vec(Power(-e, kx) * b.vel.x, Power(-e, ky) * b.vel.y)
    decreases n
  {
    hide TestBox, Stepped, Power;
    if n == 0 {
      kx, ky := 0, 0;
      NoPower(e, b.vel);
      return;
    }
    StopsOnlyAtWalls(c, b, size, e, f);
    var s := Stepped(c, b, size, e, f);
    kx, ky := Bounces(c, s, size, e, f, n - 1);
    if s.vel.x != b.vel.x {
      PowerMore(e, kx, b.vel.x);
      kx := kx + 1;
    }
    if s.vel.y != b.vel.y {
      PowerMore(e, ky, b.vel.y);
      ky := ky + 1;
    }
  }

  lemma {:induction false} PowerSize(e: real, k: nat)
    requires 0.0 <= e <= 1.0
    ensures Power(-e, k) * Power(-e, k) <= 1.0
    ensures e == 1.0 ==> Power(-e, k) * Power(-e, k) == 1.0
  {
    if k > 0 {
      PowerSize(e, k - 1);
      Shrink(Power(-e, k - 1), e);
    }
  }

  lemma Shrink(p: real, e: real)
    requires 0.0 <= e <= 1.0 && p * p <= 1.0
    ensures (p * -e) * (p * -e) <= 1.0
    ensures e == 1.0 ==> (p * -e) * (p * -e) == p * p
  {
    var q, d := p * p, e * e;
    assert (p * -e) * (p * -e) == q * d;
    assert e * e <= e * 1.0;
    assert 0.0 <= q && 0.0 <= d <= 1.0;
    assert q * d <= q * 1.0;
  }

  /** A damped speed, squared. */
  lemma Damped(p: real, v: real)
    requires p * p <= 1.0
    ensures (p * v) * (p * v) <= v * v
    ensures p * p == 1.0 ==> (p * v) * (p * v) == v * v
  {
    var q, w := p * p, v * v;
    assert (p * v) * (p * v) == q * w;
    assert w >= 0.0;
    assert (1.0 - q) * w >= 0.0;
  }

  /** With an elasticity in [0, 1] no speed grows; with elasticity 1 none is lost. */
  lemma SpeedNeverGrows(c: Collision, b: Body, size: Vec, e: real, f: real, n: nat)
    requires Valid(c) && 0.0 <= e <= 1.0
    ensures var v := Moved(c, b, size, e, f, n).vel;
            && v.x * v.x <= b.vel.x * b.vel.x && v.y * v.y <= b.vel.y * b.vel.y
            && (e == 1.0 ==> v.x * v.x == b.vel.x * b.vel.x && v.y * v.y == b.vel.y * b.vel.y)
  {
    hide Moved;
    var kx, ky := Bounces(c, b, size, e, f, n);
    PowerSize(e, kx);
    PowerSize(e, ky);
    Damped(Power(-e, kx), b.vel.x);
    Damped(Power(-e, ky), b.vel.y);
  }

  /** The positions after 0, 1, ..., `n` steps. */
  function Path(c: Collision, b: Body, size: Vec, e: real, f: real, n: nat): (p: seq<Vec>)
    requires Valid(c)
    ensures |p| == n + 1
    decreases n
  {
    [b.pos] + if n == 0 then [] else Path(c, Stepped(c, b, size, e, f), size, e, f, n - 1)
  }

  lemma {:induction false} PathIs(c: Collision, b: Body, size: Vec, e: real, f: real, n: nat, k: nat)
    requires Valid(c) && k <= n
    ensures Path(c, b, size, e, f, n)[k] == Moved(c, b, size, e, f, k).pos
    decreases n
  {
    hide Stepped;
    if k > 0 {
      var s := Stepped(c, b, size, e, f);
      PathIs(c, s, size, e, f, n - 1, k - 1);
      assert Path(c, b, size, e, f, n)[k] == Path(c, s, size, e, f, n - 1)[k - 1];
    }
  }

  lemma {:induction false} MovedThen(c: Collision, b: Body, size: Vec, e: real, f: real, k: nat)
    requires Valid(c)
    ensures Moved(c, b, size, e, f, k + 1) == Stepped(c, Moved(c, b, size, e, f, k), size, e, f)
    decreases k
  {
    hide Stepped;
    if k > 0 { MovedThen(c, Stepped(c, b, size, e, f), size, e, f, k - 1); }
  }

  lemma FractionIsShort(v: Vec, w: Vec, max: nat)
    requires IsFloorLength(v, max) && w.x * w.x <= v.x * v.x && w.y * w.y <= v.y * v.y
    ensures LengthSquared(Scaled(w, Fraction(max))) < 1.0
  {
    var (m, f) := (max as real + 1.0, Fraction(max));
    var w2 := LengthSquared(w);
    assert m * f == 1.0;
    ScaledLength(w, f);
    SquareOfProduct(m, f);
    Times(w2, m * m, f * f);
  }

  lemma ScaledLength(w: Vec, f: real)
    ensures LengthSquared(Scaled(w, f)) == LengthSquared(w) * (f * f)
  {
  }

  lemma SquareOfProduct(m: real, f: real)
    requires m * f == 1.0
    ensures (m * m) * (f * f) == 1.0 && f * f > 0.0
  {
    assert (m * m) * (f * f) == (m * f) * (m * f);
  }

  lemma Times(a: real, b: real, t: real)
    requires a < b && t > 0.0
    ensures a * t < b * t
  {
  }

  lemma StepIsShort(c: Collision, b: Body, size: Vec, e: real, f: real)
    requires Valid(c) && LengthSquared(Scaled(b.vel, f)) < 1.0
    ensures var s := Stepped(c, b, size, e, f);
            LengthSquared(Vec(s.pos.x - b.pos.x, s.pos.y - b.pos.y)) < 1.0
  {
    hide TestBox;
    var d := Scaled(b.vel, f);
    assert d.x * d.x >= 0.0 && d.y * d.y >= 0.0;
  }

  /** Neither the corners nor, up to 32 pixels, anything else of the box is in a solid tile. */
  ghost predicate Clear(c: Collision, pos: Vec, size: Vec)
    requires Valid(c)
  {
    !TestBox(c, pos, size) && (0.0 <= size.x <= 32.0 && 0.0 <= size.y <= 32.0 ==> NothingUnder(c, pos, size))
  }

  /** From a free start, the box is clear at every point of its path, the last one included. */
  lemma PathIsClear(c: Collision, b: Body, size: Vec, e: real, f: real, n: nat, k: nat)
    requires Valid(c) && k <= n && !TestBox(c, b.pos, size)
    ensures Clear(c, Path(c, b, size, e, f, n)[k], size)
  {
    hide TestBox, NothingUnder, Moved, Path;
    PathIs(c, b, size, e, f, n, k);
    MovedIsFree(c, b, size, e, f, k);
    var pos := Moved(c, b, size, e, f, k).pos;
    if 0.0 <= size.x <= 32.0 && 0.0 <= size.y <= 32.0 { CornersSuffice(c, pos, size); }
  }

  /** The positions of a whole move; a box that is too slow does not leave its start. */
  function Way(c: Collision, b: Body, size: Vec, e: real, max: nat): (p: seq<Vec>)
    requires Valid(c)
    ensures |p| >= 1
  {
    if LengthSquared(b.vel) > 0.00001 * 0.00001 then Path(c, b, size, e, Fraction(max), max + 1) else [b.pos]
  }

  /** A way goes from the start to where `MoveBox` ends. */
  lemma WayEnds(c: Collision, b: Body, size: Vec, e: real, max: nat)
    requires Valid(c)
    ensures var p := Way(c, b, size, e, max);
            p[0] == b.pos && p[|p| - 1] == End(c, b, size, e, max).pos
  {
    hide TestBox, Stepped, Moved, LengthSquared, Fraction;
    if LengthSquared(b.vel) > 0.00001 * 0.00001 { PathIs(c, b, size, e, Fraction(max), max + 1, max + 1); }
  }

  /**
   * With an elasticity in [0, 1], each step of the way is less than a pixel, and from a free
   * start the box is clear before and after it.
   */
  lemma NoSkipping(c: Collision, b: Body, size: Vec, e: real, max: nat, k: nat)
    requires Valid(c) && IsFloorLength(b.vel, max) && 0.0 <= e <= 1.0
    requires k + 1 < |Way(c, b, size, e, max)|
    ensures var p := Way(c, b, size, e, max);
            && LengthSquared(Vec(p[k + 1].x - p[k].x, p[k + 1].y - p[k].y)) < 1.0
            && (!TestBox(c, b.pos, size) ==> Clear(c, p[k], size) && Clear(c, p[k + 1], size))
  {
    hide TestBox, Stepped, Moved, LengthSquared, IsFloorLength, Fraction, Clear;
    var f := Fraction(max);
    PathIs(c, b, size, e, f, max + 1, k);
    PathIs(c, b, size, e, f, max + 1, k + 1);
    MovedThen(c, b, size, e, f, k);
    if !TestBox(c, b.pos, size) {
      PathIsClear(c, b, size, e, f, max + 1, k);
      PathIsClear(c, b, size, e, f, max + 1, k + 1);
    }
    var s := Moved(c, b, size, e, f, k);
    SpeedNeverGrows(c, b, size, e, f, k);
    FractionIsShort(b.vel, s.vel, max);
    StepIsShort(c, s, size, e, f);
  }

  /** A coordinate `x` after the part `t` of the velocity `v`. */
  function Along(x: real, v: real, t: real): real {
    x + v * t
  }

  function Ahead(b: Body, t: real): Vec {
    Vec(Along(b.pos.x, b.vel.x, t), Along(b.pos.y, b.vel.y, t))
  }

  /** How much of the velocity `k` steps are. */
  function Part(k: nat, f: real): real {
    k as real * f
  }

  lemma {:induction false} FreeSteps(c: Collision, b: Body, size: Vec, e: real, f: real, n: nat)
    requires Valid(c) && forall k: nat :: 1 <= k <= n ==> !TestBox(c, Ahead(b, Part(k, f)), size)
    ensures Moved(c, b, size, e, f, n) == b.(pos := Ahead(b, Part(n, f)))
  {
    hide TestBox, Stepped, Ahead, Part;
    if n == 0 {
      NotAhead(b, f);
    } else {
      FreeSteps(c, b, size, e, f, n - 1);
      MovedThen(c, b, size, e, f, n - 1);
      NextPart(n - 1, f);
      Further(b, Part(n - 1, f), f, Part(n, f));
      StepsFreely(c, b.(pos := Ahead(b, Part(n - 1, f))), size, e, f);
    }
  }

  lemma StepsFreely(c: Collision, b: Body, size: Vec, e: real, f: real)
    requires Valid(c) && !TestBox(c, Plus(b.pos, Scaled(b.vel, f)), size)
    ensures Stepped(c, b, size, e, f) == b.(pos := Plus(b.pos, Scaled(b.vel, f)))
  {
  }

  lemma NotAhead(b: Body, f: real)
    ensures Ahead(b, Part(0, f)) == b.pos
  {
  }

  lemma NextPart(k: nat, f: real)
    ensures Part(k + 1, f) == Part(k, f) + f
  {
  }

  lemma Further(b: Body, t: real, f: real, t': real)
    requires t' == t + f
    ensures Plus(Ahead(b, t), Scaled(b.vel, f)) == Ahead(b, t')
  {
    hide Along;
    AlongFurther(b.pos.x, b.vel.x, t, f, t');
    AlongFurther(b.pos.y, b.vel.y, t, f, t');
  }

  lemma AlongFurther(x: real, v: real, t: real, f: real, t': real)
    requires t' == t + f
    ensures Along(x, v, t) + v * f == Along(x, v, t')
  {
  }

  /** A box that nothing stops goes exactly as far as its velocity says, and keeps it. */
  lemma FreeFlight(c: Collision, b: Body, size: Vec, e: real, max: nat)
    requires Valid(c) && LengthSquared(b.vel) > 0.00001 * 0.00001
    requires forall k: nat :: 1 <= k <= max + 1 ==> !TestBox(c, Ahead(b, Part(k, Fraction(max))), size)
    ensures End(c, b, size, e, max) == Body(Vec(b.pos.x + b.vel.x, b.pos.y + b.vel.y), b.vel)
  {
    hide TestBox, Moved;
    FreeSteps(c, b, size, e, Fraction(max), max + 1);
    assert Part(max + 1, Fraction(max)) == 1.0;
  }

  /**
   * A coordinate that is stopped bounces, and the other way round; and it is stopped only
   * where going on would have hit: alone, or together with the other one. Along a wall the
   * box slides on.
   */
  lemma StopsOnlyAtWalls(c: Collision, b: Body, size: Vec, e: real, f: real)
    requires Valid(c)
    ensures var (s, to) := (Stepped(c, b, size, e, f), Vec(b.pos.x + b.vel.x * f, b.pos.y + b.vel.y * f));
            && (s == Body(to, b.vel) || TestBox(c, to, size))
            && ((s.pos.x == to.x && s.vel.x == b.vel.x) || (s.pos.x == b.pos.x && s.vel.x == b.vel.x * -e))
            && ((s.pos.y == to.y && s.vel.y == b.vel.y) || (s.pos.y == b.pos.y && s.vel.y == b.vel.y * -e))
            && (s.pos.x != to.x && s.pos.y == to.y ==> TestBox(c, Vec(to.x, b.pos.y), size))
            && (s.pos.y != to.y && s.pos.x == to.x ==> TestBox(c, Vec(b.pos.x, to.y), size))
            && (s.pos.x != to.x && s.pos.y != to.y ==>
                  (TestBox(c, Vec(to.x, b.pos.y), size) <==> TestBox(c, Vec(b.pos.x, to.y), size)))
  {
    hide TestBox;
  }

  lemma {:induction false} FloorUpTo(v: Vec, bound: nat) returns (max: nat)
    requires LengthSquared(v) < (bound as real + 1.0) * (bound as real + 1.0)
    ensures IsFloorLength(v, max)
  {
    max := bound;
    if bound as real * bound as real > LengthSquared(v) {
      max := FloorUpTo(v, bound - 1);
    }
  }

  /** Every velocity has exactly one `Max`. */
  lemma FloorLengthExists(v: Vec)
    ensures exists max: nat :: IsFloorLength(v, max) && forall m: nat :: IsFloorLength(v, m) ==> m == max
  {
    var b := LengthSquared(v).Floor;
    Above(LengthSquared(v), b);
    var max := FloorUpTo(v, b);
    forall m: nat | IsFloorLength(v, m)
      ensures m == max
    {
      if m < max { Ordered(m as real + 1.0, max as real); }
      if max < m { Ordered(max as real + 1.0, m as real); }
    }
  }

  lemma Ordered(a: real, b: real)
    requires 0.0 <= a <= b
    ensures a * a <= b * b
  {
  }

  lemma Above(r: real, b: int)
    requires r >= 0.0 && b == r.Floor
    ensures b >= 0 && r < (b as real + 1.0) * (b as real + 1.0)
  {
    Ordered(1.0, b as real + 1.0);
    assert (b as real + 1.0) * 1.0 <= (b as real + 1.0) * (b as real + 1.0);
  }
}
