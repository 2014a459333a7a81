/** Line drawing (gui/gui.c): Bresenham's loop against the rounded straight line. */
module Line {
  import opened Arithmetic

  datatype Point = Point(x: int, y: int)

  /** The integer nearest to `a / d`; a half rounds down. */
  function Nearest(a: nat, d: nat): int
    requires d > 0
  {
    (2 * a + d - 1) / (2 * d)
  }

  lemma NearestIs(a: nat, d: nat, r: int)
    requires d > 0
    ensures r == Nearest(a, d) <==> 2 * (r * d - a) < d && 2 * (a - r * d) <= d
  {
    var n, m := 2 * a + d - 1, 2 * d;
    if 2 * (r * d - a) < d && 2 * (a - r * d) <= d {
      assert n == m * r + (2 * (a - r * d) + d - 1);
      DivModUnique(n, m, r, 2 * (a - r * d) + d - 1);
    }
    assert n == m * (n / m) + n % m && m * (n / m) == 2 * (n / m * d);
  }

  /** Step `n` on the axis along which the line is not longest */
  function Minor(n: nat, minor: nat, major: nat): int {
    if major == 0 then 0 else Nearest(n * minor, major)
  }

  /** Pixel `n` of the line: one step a pixel along the longer axis, rounded along the other. */
  function LinePoint(p: Point, q: Point, n: nat): Point {
    var dx, dy := Abs(q.x - p.x), Abs(q.y - p.y);
    var sx, sy := if p.x < q.x then 1 else -1, if p.y < q.y then 1 else -1;
    if dx >= dy then Point(p.x + sx * n, p.y + sy * Minor(n, dy, dx))
    else Point(p.x + sx * Minor(n, dx, dy), p.y + sy * n)
  }

  function Length(p: Point, q: Point): nat {
    if Abs(q.x - p.x) >= Abs(q.y - p.y) then Abs(q.x - p.x) else Abs(q.y - p.y)
  }

  function LinePixels(p: Point, q: Point): seq<Point> {
    FirstPixels(p, q, Length(p, q) + 1)
  }

  function FirstPixels(p: Point, q: Point, count: nat): seq<Point> {
    seq(count, n requires 0 <= n => LinePoint(p, q, n))
  }

  lemma OneMorePixel(p: Point, q: Point, n: nat)
    ensures FirstPixels(p, q, n) + [LinePoint(p, q, n)] == FirstPixels(p, q, n + 1)
  {
  }

  // ---- What the rounded line is

  lemma MinorStep(n: nat, minor: nat, major: nat)
    requires minor <= major
    ensures Minor(0, minor, major) == 0 && Minor(major, minor, major) == minor
    ensures Minor(n, minor, major) <= Minor(n + 1, minor, major) <= Minor(n, minor, major) + 1
    ensures Minor(n + 1, minor, major) == Minor(n, minor, major) + 1 <==>
            2 * ((n + 1) * minor - Minor(n, minor, major) * major) > major
  {
    if major > 0 {
      NearestIs(0, major, 0);
      NearestIs(major * minor, major, minor);
      assert (n + 1) * minor == n * minor + minor;
      NearestStep(n * minor, minor, major);
    }
  }

  lemma NearestStep(a: nat, minor: nat, major: nat)
    requires minor <= major && major > 0
    ensures var r, r' := Nearest(a, major), Nearest(a + minor, major);
            r <= r' <= r + 1 && (r' == r + 1 <==> 2 * (a + minor - r * major) > major)
  {
    var r := Nearest(a, major);
    NearestIs(a, major, r);
    assert (r + 1) * major == r * major + major;
    NearestIs(a + minor, major, r);
    NearestIs(a + minor, major, r + 1);
  }

  /** The line goes from one end to the other in king's moves, and every pixel lies within half a pixel of the ideal
  line. */
  lemma LineIsStraight(p: Point, q: Point, n: nat)
    requires n <= Length(p, q)
    ensures LinePoint(p, q, 0) == p && LinePoint(p, q, Length(p, q)) == q
    ensures var a, b := LinePoint(p, q, n), LinePoint(p, q, n + 1);
            && Abs(b.x - a.x) <= 1 && Abs(b.y - a.y) <= 1
            && Abs(if Abs(q.x - p.x) >= Abs(q.y - p.y) then b.x - a.x else b.y - a.y) == 1
    ensures var a := LinePoint(p, q, n);
            2 * Abs((a.x - p.x) * (q.y - p.y) - (a.y - p.y) * (q.x - p.x)) <= Length(p, q)
  {
    var dx, dy := Abs(q.x - p.x), Abs(q.y - p.y);
    if dx >= dy { MinorStep(n, dy, dx); } else { MinorStep(n, dx, dy); }
    NearIdeal(p, q, n);
  }

  /** Half a pixel along the shorter axis, measured as the cross product with the direction of the line. */
  lemma NearIdeal(p: Point, q: Point, n: nat)
    requires n <= Length(p, q)
    ensures var a := LinePoint(p, q, n);
            2 * Abs((a.x - p.x) * (q.y - p.y) - (a.y - p.y) * (q.x - p.x)) <= Length(p, q)
  {
    var dx, dy := Abs(q.x - p.x), Abs(q.y - p.y);
    if dx >= dy {
      NearMinor(n, dy, dx);
      CrossProduct(p, q, n, Minor(n, dy, dx));
    } else {
      NearMinor(n, dx, dy);
      CrossProduct(p, q, Minor(n, dx, dy), n);
    }
  }

  lemma NearMinor(n: nat, minor: nat, major: nat)
    requires n <= major && minor <= major
    ensures 2 * Abs(n * minor - Minor(n, minor, major) * major) <= major
    ensures Abs(n * minor - Minor(n, minor, major) * major) == Abs(Minor(n, minor, major) * major - n * minor)
  {
    if major > 0 { NearestIs(n * minor, major, Minor(n, minor, major)); }
  }

  lemma CrossProduct(p: Point, q: Point, i: int, j: int)
    ensures var sx, sy := if p.x < q.x then 1 else -1, if p.y < q.y then 1 else -1;
            Abs((sx * i) * (q.y - p.y) - (sy * j) * (q.x - p.x)) == Abs(i * Abs(q.y - p.y) - j * Abs(q.x - p.x))
  {
    var u, v := q.x - p.x, q.y - p.y;
    Negated(i, v);
    Negated(j, u);
  }

  lemma Negated(a: int, b: int)
    ensures -a * b == -(a * b) && a * -b == -(a * b) && -a * -b == a * b
  {
  }

  // ---- The loop

  /** Bresenham's decisions: with the error term of pixel `n`, the tests say which coordinates the next pixel
  changes. */
  ghost predicate ErrorAt(p: Point, q: Point, n: nat, err: int) {
    var dx, dy: int := Abs(q.x - p.x), Abs(q.y - p.y);
    err == if dx >= dy then (Minor(n, dy, dx) + 1) * dx - (n + 1) * dy else (n + 1) * dx - (Minor(n, dx, dy) + 1) * dy
  }

  lemma StepsMatch(p: Point, q: Point, n: nat, err: int)
    requires n < Length(p, q) && ErrorAt(p, q, n, err)
    ensures var dx, dy := Abs(q.x - p.x), Abs(q.y - p.y);
            var sx, sy := if p.x < q.x then 1 else -1, if p.y < q.y then 1 else -1;
            var a, b := LinePoint(p, q, n), LinePoint(p, q, n + 1);
            && b.x == a.x + (if 2 * err > -(dy as int) then sx else 0)
            && b.y == a.y + (if 2 * err < dx then sy else 0)
            && ErrorAt(p, q, n + 1, err - (if 2 * err > -(dy as int) then dy else 0) + if 2 * err < dx then dx else 0)
    ensures 2 * Abs(err) <= 3 * Length(p, q)
  {
    var dx, dy := Abs(q.x - p.x), Abs(q.y - p.y);
    if dx >= dy { MajorSteps(n, dy, dx); } else { MajorSteps(n, dx, dy); }
  }

  /** With `d` the deviation of the minor axis, twice it lies between `-major` (exclusive) and `major`. */
  lemma MajorSteps(n: nat, minor: nat, major: nat)
    requires minor <= major && 0 < major
    ensures var r, r' := Minor(n, minor, major), Minor(n + 1, minor, major);
            var d := n * minor - r * major;
            && 2 * d <= major && 2 * -d < major
            && (r + 1) * major - (n + 1) * minor == major - minor - d
            && (r' + 1) * major - (n + 2) * minor
               == major - 2 * minor - d + (if 2 * (d + minor) > major then major else 0)
            && r' == r + (if 2 * (d + minor) > major then 1 else 0)
            && (minor == major ==> d == 0)
  {
    var r := Minor(n, minor, major);
    MinorStep(n, minor, major);
    NearestIs(n * minor, major, r);
    assert (n + 1) * minor == n * minor + minor && (n + 2) * minor == n * minor + 2 * minor;
    assert (r + 1) * major == r * major + major && (r + 2) * major == r * major + 2 * major;
    if minor == major { NearestIs(n * minor, major, n); }
  }

  lemma EndsExactly(p: Point, q: Point, n: nat)
    requires n <= Length(p, q)
    ensures LinePoint(p, q, n) == q <==> n == Length(p, q)
  {
    LineIsStraight(p, q, n);
  }

  class Screen {
    const width: nat
    const height: nat
    const framebuffer: array<nat>

    ghost predicate Valid() {
      framebuffer.Length == width * height
    }

    constructor (width: nat, height: nat, framebuffer: array<nat>)
      requires framebuffer.Length == width * height
      ensures Valid() && this.width == width && this.height == height && this.framebuffer == framebuffer
    {
      this.width, this.height, this.framebuffer := width, height, framebuffer;
    }

    predicate OnScreen(p: Point) {
      0 <= p.x < width && 0 <= p.y < height
    }

    function Pixel(p: Point): nat
      requires Valid() && OnScreen(p)
      reads framebuffer
    {
      IndexInRange(p, width, height);
      framebuffer[p.y * width + p.x]
    }

    /** `gui_set_pixel`: pixels outside the screen are dropped; the others are stored row by row. */
    method SetPixel(p: Point, color: nat)
      requires Valid()
      modifies framebuffer
      ensures framebuffer[..] == if 0 <= p.x < width && 0 <= p.y < height
                                 then (IndexInRange(p, width, height); old(framebuffer[..])[p.y * width + p.x := color])
                                 else old(framebuffer[..])
      ensures forall a | OnScreen(a) :: Pixel(a) == if a == p then color else old(Pixel(a))
    {
      if p.x >= 0 && p.x < width && p.y >= 0 && p.y < height {
        IndexInRange(p, width, height);
        framebuffer[p.y * width + p.x] := color;
        forall a | OnScreen(a) && a != p ensures a.y * width + a.x != p.y * width + p.x { IndexIsUnique(a, p, width); }
      }
    }

    /** `gui_draw_line` paints the pixels of the rounded straight line, in order, and no others. */
    method DrawLine(x1: int, y1: int, x2: int, y2: int, color: nat) returns (ghost painted: seq<Point>)
      requires Valid()
      modifies framebuffer
      ensures painted == LinePixels(Point(x1, y1), Point(x2, y2))
      ensures forall a | OnScreen(a) :: Pixel(a) == if a in painted then color else old(Pixel(a))
    {
      ghost var p, q := Point(x1, y1), Point(x2, y2);
      var x, y := x1, y1;
      var dx: int := Abs(x2 - x1);
      var dy: int := Abs(y2 - y1);
      var sx := if x1 < x2 then 1 else -1;
      var sy := if y1 < y2 then 1 else -1;
      var err := dx - dy;
      painted := [];
      LineIsStraight(p, q, 0);
      while true
        invariant |painted| <= Length(p, q) && Point(x, y) == LinePoint(p, q, |painted|)
        invariant ErrorAt(p, q, |painted|, err)
        invariant painted == FirstPixels(p, q, |painted|)
        invariant forall a | OnScreen(a) :: Pixel(a) == if a in painted then color else old(Pixel(a))
        decreases Length(p, q) - |painted|
      {
        SetPixel(Point(x, y), color);
        EndsExactly(p, q, |painted|);
        OneMorePixel(p, q, |painted|);
        painted := painted + [Point(x, y)];
        if x == x2 && y == y2 { break; }
        x, y, err := NextPixel(p, q, |painted| - 1, x, y, dx, dy, sx, sy, err);
      }
    }
  }

  /** The error term's decisions about the next pixel */
  method NextPixel(ghost p: Point, ghost q: Point, ghost n: nat, x1: int, y1: int, dx: int, dy: int, sx: int, sy: int,
                   error: int) returns (x: int, y: int, err: int)
    requires n < Length(p, q) && Point(x1, y1) == LinePoint(p, q, n) && ErrorAt(p, q, n, error)
    requires dx == Abs(q.x - p.x) && dy == Abs(q.y - p.y)
    requires sx == (if p.x < q.x then 1 else -1) && sy == if p.y < q.y then 1 else -1
    ensures Point(x, y) == LinePoint(p, q, n + 1) && ErrorAt(p, q, n + 1, err)
  {
    StepsMatch(p, q, n, error);
    x, y, err := x1, y1, error;
    var e2 := err * 2;
    if e2 > -dy {
      err := err - dy;
      x := x + sx;
    }
    if e2 < dx {
      err := err + dx;
      y := y + sy;
    }
  }

  lemma IndexInRange(p: Point, width: nat, height: nat)
    requires 0 <= p.x < width && 0 <= p.y < height
    ensures 0 <= p.y * width + p.x < width * height
  {
    assert p.y * width <= (height - 1) * width;
  }

  lemma IndexIsUnique(a: Point, b: Point, width: nat)
    requires 0 <= a.x < width && 0 <= b.x < width
    ensures a.y * width + a.x == b.y * width + b.x ==> a == b
  {
    DivModUnique(a.y * width + a.x, width, a.y, a.x);
    DivModUnique(b.y * width + b.x, width, b.y, b.x);
  }
}
