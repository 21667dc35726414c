/** gfx_draw_line of kernel/drivers/gpu/gfx.c: Bresenham's algorithm with an error term, drawing into the
    back buffer with clipping. The variables of the loop are 32-bit: every value assigned to them is
    proved to fit. */
module Line {
  type Point = (int, int)
  type int32 = x: int | -0x8000_0000 <= x < 0x8000_0000

  const LONGEST := 0x2AAA_AAAA      // the largest number whose triple fits

  predicate Fits32(x: int) { -0x8000_0000 <= x < 0x8000_0000 }

  /** Both coordinates are 32-bit numbers. */
  predicate IsPoint(p: Point) { Fits32(p.0) && Fits32(p.1) }

  function Abs(x: int): nat { if x < 0 then -x else x }
  function Max(a: nat, b: nat): nat { if a < b then b else a }

  /** How far, scaled, the point after `a` steps in x and `b` steps in y is from the ideal line. */
  function Dev(dx: int, dy: int, a: int, b: int): int { a * dy - b * dx }

  /** That point is the nearest to the line among those with as many steps along the longer axis. Of two that
      are half a pixel away it is the one with fewer steps along the other axis. */
  ghost predicate Close(dx: nat, dy: nat, a: int, b: int) {
    if dx == 0 && dy == 0 then a == 0 && b == 0
    else if dx >= dy then 0 - dx < 2 * (a * dy - b * dx) <= dx
    else 0 - dy < 2 * (b * dx - a * dy) <= dy
  }

  lemma CloseBound(dx: nat, dy: nat, a: int, b: int)
    requires Close(dx, dy, a, b)
    ensures 2 * Abs(Dev(dx, dy, a, b)) <= Max(dx, dy)
  {
  }

  /** So the steps along the longer axis determine the point. */
  lemma CloseUnique(dx: nat, dy: nat, a: int, b: int, a': int, b': int)
    requires Close(dx, dy, a, b) && Close(dx, dy, a', b') && if dx >= dy then a == a' else b == b'
    ensures a == a' && b == b'
  {
    if dx >= dy && dx > 0 {
      OneMultiple(b, b', dx);
    } else if dx < dy {
      OneMultiple(a, a', dy);
    }
  }

  /** Two multiples of `n` less than `n` apart are the same. */
  lemma OneMultiple(b: int, b': int, n: nat)
    requires n > 0 && 0 - n < b * n - b' * n < n
    ensures b == b'
  {
    assert (b' + 1) * n == b' * n + n && (b + 1) * n == b * n + n;
    if b > b' {
      MulMono(b' + 1, b, n);
    } else if b < b' {
      MulMono(b + 1, b', n);
    }
  }

  // ---- one step ----

  lemma DevSteps(dx: int, dy: int, a: int, b: int)
    ensures Dev(dx, dy, a + 1, b) == Dev(dx, dy, a, b) + dy
    ensures Dev(dx, dy, a, b + 1) == Dev(dx, dy, a, b) - dx
    ensures Dev(dx, dy, a + 1, b + 1) == Dev(dx, dy, a, b) + dy - dx
    ensures Dev(dy, dx, b, a) == -Dev(dx, dy, a, b)
  {
  }

  lemma CloseDev(dx: nat, dy: nat, a: int, b: int)
    requires dx > 0 || dy > 0
    ensures Close(dx, dy, a, b) <==>
            if dx >= dy then 0 - dx < 2 * Dev(dx, dy, a, b) <= dx else 0 - dy <= 2 * Dev(dx, dy, a, b) < dy
  {
  }

  lemma DevOrigin(dx: nat, dy: nat)
    ensures Dev(dx, dy, 0, 0) == 0 && Close(dx, dy, 0, 0)
  {
  }

  lemma {:induction false} MulMono(a: int, b: int, n: nat)
    requires a <= b
    ensures a * n <= b * n
    decreases b - a
  {
    if a < b {
      MulMono(a, b - 1, n);
      assert b * n == (b - 1) * n + n;
    }
  }

  /** A close point does not overshoot along the shorter axis, and meets the end along both at once. */
  lemma NoOvershoot(dx: nat, dy: nat, a: nat, b: nat)
    requires 2 * Abs(Dev(dx, dy, a, b)) <= dx && dx > 0 && a <= dx
    ensures b <= dy && (a == dx ==> b == dy)
  {
    MulMono(a, dx, dy);
    assert (dy + 1) * dx == dx * dy + dx && (dy - 1) * dx == dx * dy - dx;
    if b >= dy + 1 {
      MulMono(dy + 1, b, dx);
      assert false;
    }
    if a == dx && b <= dy - 1 {
      MulMono(b, dy - 1, dx);
      assert false;
    }
  }

  /** Close points on a diagonal lie on it. */
  lemma Diagonal(dx: nat, a: int, b: int)
    requires dx > 0 && 2 * Abs(Dev(dx, dx, a, b)) <= dx
    ensures Dev(dx, dx, a, b) == 0
  {
    assert Dev(dx, dx, a, b) == (a - b) * dx;
    if a - b >= 1 {
      MulMono(1, a - b, dx);
      assert false;
    }
    if a - b <= -1 {
      MulMono(a - b, -1, dx);
      assert false;
    }
  }

  /** From a close point that is not the end, the two tests of the loop always move along the longer
      axis, never overshoot, and lead to a close point. */
  lemma Step(dx: nat, dy: nat, a: nat, b: nat, err: int)
    requires Close(dx, dy, a, b) && a <= dx && b <= dy && !(a == dx && b == dy)
    requires err == dx - dy - Dev(dx, dy, a, b)
    ensures var a' := if 2 * err > 0 - dy then a + 1 else a;
            var b' := if 2 * err < dx then b + 1 else b;
            && Close(dx, dy, a', b') && a' <= dx && b' <= dy
            && (dx >= dy ==> a' == a + 1) && (dy >= dx ==> b' == b + 1)
  {
    hide Dev, Close;
    CloseDev(dx, dy, a, b);
    CloseBound(dx, dy, a, b);
    DevSteps(dx, dy, a, b);
    if dx == dy {
      Diagonal(dx, a, b);
    }
    var a' := if 2 * err > 0 - dy then a + 1 else a;
    var b' := if 2 * err < dx then b + 1 else b;
    CloseDev(dx, dy, a', b');
    CloseBound(dx, dy, a', b');
    DevSteps(dx, dy, a', b');
    if dx >= dy {
      NoOvershoot(dx, dy, a, b);
      NoOvershoot(dx, dy, a', b');
    }
    if dy >= dx {
      NoOvershoot(dy, dx, b, a);
      NoOvershoot(dy, dx, b', a');
    }
  }

  /** The error term of a close point, twice it, and what the two updates make of it. */
  lemma ErrorFits(dx: nat, dy: nat, a: nat, b: nat, err: int)
    requires Close(dx, dy, a, b) && err == dx - dy - Dev(dx, dy, a, b) && Max(dx, dy) <= LONGEST
    ensures Fits32(err) && Fits32(2 * err) && Fits32(err - dy) && Fits32(err + dx)
    ensures 2 * Abs(err) <= 3 * Max(dx, dy)
  {
    CloseBound(dx, dy, a, b);
  }

  // ---- the screen ----

  class Screen {
    const width: nat
    const height: nat
    const backbuffer: array<nat>

    ghost predicate Valid() {
      backbuffer.Length == width * height
    }

    predicate OnScreen(p: Point) {
      0 <= p.0 < width && 0 <= p.1 < height
    }

    lemma IndexInRange(p: Point)
      requires OnScreen(p)
      ensures 0 <= p.1 * width + p.0 < width * height
    {
      MulMono(p.1 + 1, height, width);
      assert (p.1 + 1) * width == p.1 * width + width;
      MulMono(0, p.1, width);
    }

    lemma IndicesDiffer(p: Point, q: Point)
      requires OnScreen(p) && OnScreen(q) && p != q
      ensures p.1 * width + p.0 != q.1 * width + q.0
    {
      if p.1 < q.1 {
        MulMono(p.1 + 1, q.1, width);
      } else if q.1 < p.1 {
        MulMono(q.1 + 1, p.1, width);
      }
    }

    ghost function Pixel(p: Point): nat
      reads backbuffer
      requires Valid() && OnScreen(p)
    {
      IndexInRange(p);
      backbuffer[p.1 * width + p.0]
    }

    /** gfx_put_pixel: a point off the screen is ignored. */
    method PutPixel(p: Point, color: nat)
      requires Valid()
      modifies backbuffer
      ensures forall q: Point :: OnScreen(q) ==> Pixel(q) == if q == p then color else old(Pixel(q))
      ensures if 0 <= p.0 < width && 0 <= p.1 < height
              then 0 <= p.1 * width + p.0 < backbuffer.Length && backbuffer[..] == old(backbuffer[..])[p.1 * width + p.0 := color]
              else backbuffer[..] == old(backbuffer[..])
    {
      if OnScreen(p) {
        IndexInRange(p);
        forall q: Point | OnScreen(q) && q != p ensures q.1 * width + q.0 != p.1 * width + p.0 {
          IndicesDiffer(p, q);
        }
        forall q: Point | OnScreen(q) ensures 0 <= q.1 * width + q.0 < width * height {
          IndexInRange(q);
        }
        backbuffer[p.1 * width + p.0] := color;
      }
    }

    /** The line from `p` to `q`: exactly the points returned are painted. They number one more than the
        longer difference, run from `p` to `q` one unit at a time inside their bounding box, and the `i`-th is the
        one point that is `i` steps along and nearest to the ideal line. */
    method DrawLine(p: Point, q: Point, color: nat) returns (ghost points: seq<Point>)
      requires Valid() && IsPoint(p) && IsPoint(q) && Max(Abs(q.0 - p.0), Abs(q.1 - p.1)) <= LONGEST
      modifies backbuffer
      ensures |points| == Max(Abs(q.0 - p.0), Abs(q.1 - p.1)) + 1
      ensures points[0] == p && points[|points| - 1] == q
      ensures forall i :: 0 <= i < |points| ==> OnLine(p, q, i, points[i])
      ensures UnitSteps(p, q, points)
      ensures forall r: Point :: OnScreen(r) ==> Pixel(r) == if r in points then color else old(Pixel(r))
    {
      hide Dev, Close, OnLine, Pixel, UnitSteps;
      var dx: int32 := if q.0 > p.0 then q.0 - p.0 else p.0 - q.0;
      var dy: int32 := if q.1 > p.1 then q.1 - p.1 else p.1 - q.1;
      var sx, sy := if p.0 < q.0 then 1 else -1, if p.1 < q.1 then 1 else -1;
      var err: int32 := dx - dy;
      var x: int32, y: int32 := p.0, p.1;
      ghost var a: nat, b: nat := 0, 0;
      DevOrigin(dx, dy);
      NoSteps(p, q);
      points := [];
      while true
        invariant a <= dx && b <= dy && (x, y) == Walked(p, q, a, b)
        invariant err == dx - dy - Dev(dx, dy, a, b) && Close(dx, dy, a, b)
        invariant |points| == if dx >= dy then a else b
        invariant |points| > 0 ==> points[0] == p && UnitStep(p, q, points[|points| - 1], (x, y))
        invariant |points| == 0 ==> a == 0 && b == 0
        invariant forall i :: 0 <= i < |points| ==> OnLine(p, q, i, points[i])
        invariant UnitSteps(p, q, points)
        invariant forall r: Point :: OnScreen(r) ==> Pixel(r) == if r in points then color else old(Pixel(r))
        decreases dx + dy - a - b
      {
        PutPixel((x, y), color);
        Placed(p, q, a, b);
        AddStep(p, q, points, (x, y));
        points := points + [(x, y)];
        if x == q.0 && y == q.1 {
          return;
        }
        x, y, err, a, b := Move(p, q, dx, dy, sx, sy, x, y, err, a, b);
      }
    }

    /** The two tests at the end of the loop: the next point and its error term. */
    method Move(ghost p: Point, ghost q: Point, dx: int32, dy: int32, sx: int, sy: int, x0: int32, y0: int32, err0: int32, ghost a: nat, ghost b: nat)
      returns (x: int32, y: int32, err: int32, ghost a': nat, ghost b': nat)
      requires IsPoint(p) && IsPoint(q) && dx == Abs(q.0 - p.0) && dy == Abs(q.1 - p.1) && Max(dx, dy) <= LONGEST
      requires sx == (if p.0 < q.0 then 1 else -1) && sy == if p.1 < q.1 then 1 else -1
      requires a <= dx && b <= dy && (x0, y0) == Walked(p, q, a, b) && (x0, y0) != q
      requires err0 == dx - dy - Dev(dx, dy, a, b) && Close(dx, dy, a, b)
      ensures a' <= dx && b' <= dy && (x, y) == Walked(p, q, a', b')
      ensures err == dx - dy - Dev(dx, dy, a', b') && Close(dx, dy, a', b')
      ensures a <= a' && b <= b' && if dx >= dy then a' == a + 1 else b' == b + 1
      ensures UnitStep(p, q, (x0, y0), (x, y))
    {
      hide Dev, Close;
      x, y, err, a', b' := x0, y0, err0, a, b;
      Step(dx, dy, a, b, err);
      DevSteps(dx, dy, a, b);
      ErrorFits(dx, dy, a, b, err);
      var e2: int32 := 2 * err;
      if e2 > 0 - dy {
        a' := a + 1;
        assert Fits32(x + sx);
        err := err - dy;
        x := x + sx;
      }
      if e2 < dx {
        b' := b + 1;
        err := err + dx;
        y := y + sy;
      }
    }
  }

  /** `a` steps in x and `b` steps in y from `p` towards `q`. */
  ghost function Walked(p: Point, q: Point, a: nat, b: nat): Point {
    (if p.0 < q.0 then p.0 + a else p.0 - a, if p.1 < q.1 then p.1 + b else p.1 - b)
  }

  /** The point of the bounding box of `p` and `q` that is `i` steps from `p` along the longer axis and nearest to
      the line between them. */
  ghost predicate OnLine(p: Point, q: Point, i: nat, r: Point) {
    var dx, dy, a, b := Abs(q.0 - p.0), Abs(q.1 - p.1), Abs(r.0 - p.0), Abs(r.1 - p.1);
    && (p.0 <= r.0 <= q.0 || q.0 <= r.0 <= p.0) && (p.1 <= r.1 <= q.1 || q.1 <= r.1 <= p.1)
    && i == (if dx >= dy then a else b) && Close(dx, dy, a, b)
  }

  /** There is only one such point. */
  lemma OnLineUnique(p: Point, q: Point, i: nat, r: Point, s: Point)
    requires OnLine(p, q, i, r) && OnLine(p, q, i, s)
    ensures r == s
  {
    hide Close;
    CloseUnique(Abs(q.0 - p.0), Abs(q.1 - p.1), Abs(r.0 - p.0), Abs(r.1 - p.1), Abs(s.0 - p.0), Abs(s.1 - p.1));
  }

  /** From `r` one unit towards `q` along the longer axis, and at most one along the other. */
  ghost predicate UnitStep(p: Point, q: Point, r: Point, s: Point) {
    var dx, dy := Abs(q.0 - p.0), Abs(q.1 - p.1);
    var u, v := if p.0 < q.0 then s.0 - r.0 else r.0 - s.0, if p.1 < q.1 then s.1 - r.1 else r.1 - s.1;
    0 <= u <= 1 && 0 <= v <= 1 && (dx >= dy ==> u == 1) && (dy >= dx ==> v == 1)
  }

  ghost predicate UnitSteps(p: Point, q: Point, points: seq<Point>) {
    forall i :: 0 < i < |points| ==> UnitStep(p, q, points[i - 1], points[i])
  }

  lemma NoSteps(p: Point, q: Point)
    ensures UnitSteps(p, q, [])
  {
  }

  lemma AddStep(p: Point, q: Point, points: seq<Point>, r: Point)
    requires UnitSteps(p, q, points) && (|points| > 0 ==> UnitStep(p, q, points[|points| - 1], r))
    ensures UnitSteps(p, q, points + [r])
  {
  }

  lemma Placed(p: Point, q: Point, a: nat, b: nat)
    requires a <= Abs(q.0 - p.0) && b <= Abs(q.1 - p.1) && Close(Abs(q.0 - p.0), Abs(q.1 - p.1), a, b)
    ensures var r := Walked(p, q, a, b);
            OnLine(p, q, if Abs(q.0 - p.0) >= Abs(q.1 - p.1) then a else b, r) && (r == q <==> a == Abs(q.0 - p.0) && b == Abs(q.1 - p.1))
  {
  }
}
