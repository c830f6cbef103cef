/** The line drawing of the pose decoder: a Bresenham loop over a frame of pixels. */
module PoseLine {
  import opened Bytes
  import opened Integers

  /** `PIXEL_VALUE`: white. */
  const PIXEL_VALUE: Word32 := 0xFFFF_FFFF

  datatype Point = Point(x: int, y: int)

  datatype Frame = Frame(width: nat, height: nat) {
    predicate Contains(p: Point)
    {
      0 <= p.x < width && 0 <= p.y < height
    }

    /** Where a pixel lies in the row-major array. */
    function Index(p: Point): (i: int)
      requires Contains(p)
      ensures 0 <= i < width * height
    {
      IndexInside(p.x, p.y, width, height);
      p.y * width + p.x
    }

    /** `now` shows the points of `s` in white and everything else as in `was`. */
    ghost predicate Shows(now: seq<Word32>, was: seq<Word32>, s: set<Point>)
    {
      && |now| == |was| == width * height
      && forall p | Contains(p) :: now[Index(p)] == if p in s then PIXEL_VALUE else was[Index(p)]
    }
  }

  lemma IndexInside(x: int, y: int, w: nat, h: nat)
    requires 0 <= x < w && 0 <= y < h
    ensures 0 <= y * w + x < w * h
  {
    assert (h - 1 - y) * w >= 0;
    assert w * h == (h - 1 - y) * w + y * w + w;
  }

  /** Row by row from the upper left corner. */
  lemma RowMajor(f: Frame, p: Point)
    requires f.Contains(p)
    ensures p == Point(0, 0) ==> f.Index(p) == 0
    ensures p.x + 1 < f.width ==> f.Index(Point(p.x + 1, p.y)) == f.Index(p) + 1
    ensures p.y + 1 < f.height ==> f.Index(Point(p.x, p.y + 1)) == f.Index(p) + f.width
  {
  }

  /** Different pixels lie at different indices. */
  lemma IndexInjective(f: Frame, p: Point, q: Point)
    requires f.Contains(p) && f.Contains(q) && f.Index(p) == f.Index(q)
    ensures p == q
  {
    assert (p.y - q.y) * f.width == q.x - p.x;
    SmallMultiple(p.y - q.y, f.width);
  }

  /** Writing one pixel adds one point. */
  lemma ShowsOneMore(f: Frame, now: seq<Word32>, was: seq<Word32>, s: set<Point>, p: Point)
    requires f.Shows(now, was, s) && f.Contains(p)
    ensures f.Shows(now[f.Index(p) := PIXEL_VALUE], was, s + {p})
  {
    hide f.Index;
    var next := now[f.Index(p) := PIXEL_VALUE];
    forall q | f.Contains(q)
      ensures next[f.Index(q)] == if q in s + {p} then PIXEL_VALUE else was[f.Index(q)]
    {
      if f.Index(q) == f.Index(p) {
        IndexInjective(f, p, q);
      }
    }
  }

  // ----- what gets painted -----

  function InFrame(f: Frame, p: Point): set<Point>
  {
    if f.Contains(p) then {p} else {}
  }

  /** A pixel and its right and lower neighbours, unless the pixel itself is outside. */
  function Stamp(f: Frame, p: Point): set<Point>
  {
    if f.Contains(p) then {p} + InFrame(f, Point(p.x + 1, p.y)) + InFrame(f, Point(p.x, p.y + 1)) else {}
  }

  const XX: seq<int> := [
    -4, 0, 4, 0, -3, -3, -3, -2, -2, -2, -2, -2, -1, -1, -1, -1, -1, -1, -1,
    0, 0, 0, 0, 0, 0, 1, 1, 1, 1, 1, 1, 1, 2, 2, 2, 2, 2, 3, 3, 3
  ]
  const YY: seq<int> := [
    0, -4, 0, 4, -1, 0, 1, -2, -1, 0, 1, 2, -3, -2, -1, 0, 1, 2, 3, -3, -2,
    -1, 1, 2, 3, -3, -2, -1, 0, 1, 2, 3, -2, -1, 0, 1, 2, -1, 0, 1
  ]

  /** The first `n` pixels, by offsets, of the dots around both end points. */
  function Dots(f: Frame, a: Point, b: Point, xx: seq<int>, yy: seq<int>, n: nat): set<Point>
    requires n <= |xx| == |yy|
  {
    if n == 0 then {}
    else
      Dots(f, a, b, xx, yy, n - 1)
      + InFrame(f, Point(a.x + xx[n - 1], a.y + yy[n - 1]))
      + InFrame(f, Point(b.x + xx[n - 1], b.y + yy[n - 1]))
  }

  // ----- the line -----

  datatype Line = Line(start: Point, end: Point) {
    function Dx(): (d: int)
      ensures d >= 0
    {
      Abs(end.x - start.x)
    }

    function Dy(): (d: int)
      ensures d >= 0
    {
      Abs(end.y - start.y)
    }

    function Sx(): int { if start.x < end.x then 1 else -1 }
    function Sy(): int { if start.y < end.y then 1 else -1 }

    /** max(dx, dy) */
    function Length(): nat
    {
      if Dx() > Dy() then Dx() else Dy()
    }

    /** Steps on the minor axis after `k` steps on the major axis: `m*k/n`, rounded half down. */
    static function Rounded(m: nat, n: nat, k: nat): int
      requires n > 0
    {
      (m * k + (n - 1) / 2) / n
    }

    function StepsX(k: nat): int
    {
      if Dx() > Dy() then k else if Dy() == 0 then 0 else Rounded(Dx(), Dy(), k)
    }

    function StepsY(k: nat): int
    {
      if Dx() > Dy() then Rounded(Dy(), Dx(), k) else k
    }

    /** Point number `k` of the line, in closed form. */
    function At(k: nat): Point
    {
      Point(start.x + Sx() * StepsX(k), start.y + Sy() * StepsY(k))
    }

    /** The pixels painted for points `0..n-1`. */
    function Pixels(f: Frame, n: nat): set<Point>
    {
      if n == 0 then {} else Pixels(f, n - 1) + Stamp(f, At(n - 1))
    }
  }

  /** The error term of the loop pins down the number of minor steps. */
  lemma RoundedFromError(m: nat, n: nat, k: nat, b: int, e: int)
    requires n > 0 && e == n / 2 - m * k + n * b && 0 <= e < n
    ensures b == Line.Rounded(m, n, k)
  {
    assert (n - 1) / 2 + n / 2 == n - 1;
    DivUnique(m * k + (n - 1) / 2, n, b);
  }

  lemma RoundedEnds(m: nat, n: nat)
    requires n > 0
    ensures Line.Rounded(m, n, 0) == 0 && Line.Rounded(m, n, n) == m
  {
    DivUnique(m * 0 + (n - 1) / 2, n, 0);
    assert m * n == n * m;
    DivUnique(m * n + (n - 1) / 2, n, m);
  }

  /** Half a pixel, and exactly half a pixel is rounded down: `-n/2 <= n*b - m*k < n/2`. */
  lemma RoundedIsClose(m: nat, n: nat, k: nat)
    requires n > 0
    ensures 0 <= 2 * (n * Line.Rounded(m, n, k) - m * k) + n < 2 * n
  {
  }

  lemma RoundedWithin(m: nat, n: nat, k: nat)
    requires n > 0 && k <= n
    ensures 0 <= Line.Rounded(m, n, k) <= m
  {
    RoundedEnds(m, n);
    MulMonotone(m, k, n);
    DivMonotone(m * k + (n - 1) / 2, m * n + (n - 1) / 2, n);
    DivMonotone(m * 0 + (n - 1) / 2, m * k + (n - 1) / 2, n);
  }

  lemma MulMonotone(m: nat, k: nat, n: nat)
    requires k <= n
    ensures 0 <= m * k <= m * n
  {
  }

  lemma DivMonotone(x: int, y: int, d: int)
    requires x <= y && d > 0
    ensures x / d <= y / d
  {
    var p, q := x / d, y / d;
    assert x == d * p + x % d && y == d * q + y % d;
    assert d * (q + 1 - p) == d * q + d - d * p;
    PositiveFactor(d, q + 1 - p);
  }

  lemma PositiveFactor(d: int, z: int)
    requires d > 0 && d * z > 0
    ensures z > 0
  {
  }

  /** The line runs from its start to its end, stays within both axis ranges and near the ideal line. */
  lemma LineGeometry(l: Line, k: nat)
    requires k <= l.Length()
    ensures l.At(0) == l.start && l.At(l.Length()) == l.end
    ensures 0 <= l.StepsX(k) <= l.Dx() && 0 <= l.StepsY(k) <= l.Dy()
    ensures 2 * Abs(l.Dx() * l.StepsY(k) - l.Dy() * l.StepsX(k)) <= l.Length()
    ensures l.Dx() > l.Dy() ==> l.StepsX(k) == k && 2 * (l.Dx() * l.StepsY(k) - l.Dy() * k) < l.Dx()
    ensures l.Dy() > 0 && l.Dy() >= l.Dx() ==> l.StepsY(k) == k && 2 * (l.Dy() * l.StepsX(k) - l.Dx() * k) < l.Dy()
    ensures k < l.Length() ==> l.At(k) != l.end
  {
    hide Line.Rounded;
    var dx, dy := l.Dx(), l.Dy();
    if dx > dy {
      RoundedEnds(dy, dx);
      RoundedIsClose(dy, dx, k);
      RoundedWithin(dy, dx, k);
    } else if dy > 0 {
      RoundedEnds(dx, dy);
      RoundedIsClose(dx, dy, k);
      RoundedWithin(dx, dy, k);
    }
  }

  // ----- the code -----

  predicate IsValueWithin(value: int, lower: int, upper: int)
  {
    if value < lower then false else if value >= upper then false else true
  }

  method SetPixel(pixels: array<Word32>, f: Frame, x: int, y: int, ghost was: seq<Word32>, ghost s: set<Point>)
    requires pixels.Length == f.width * f.height && f.Shows(pixels[..], was, s)
    modifies pixels
    ensures f.Shows(pixels[..], was, s + Stamp(f, Point(x, y)))
  {
    hide f.Shows, f.Index;
    if IsValueWithin(x, 0, f.width) && IsValueWithin(y, 0, f.height) {
      ghost var before := pixels[..];
      var p, right, below := Point(x, y), Point(x + 1, y), Point(x, y + 1);
      ghost var s1 := s + {p};
      ShowsOneMore(f, pixels[..], was, s, p);
      WriteAt(pixels, f.Index(p));
      if x + 1 < f.width {
        ShowsOneMore(f, pixels[..], was, s1, right);
        WriteAt(pixels, f.Index(right));
      }
      ghost var s2 := s1 + InFrame(f, right);
      assert s1 + {} == s1;
      if y + 1 < f.height {
        ShowsOneMore(f, pixels[..], was, s2, below);
        WriteAt(pixels, f.Index(below));
      }
      assert s2 + {} == s2;
      assert s2 + InFrame(f, below) == s + Stamp(f, p);
    } else {
      assert s + Stamp(f, Point(x, y)) == s;
    }
  }

  method WriteAt(pixels: array<Word32>, i: int)
    requires 0 <= i < pixels.Length
    modifies pixels
    ensures pixels[..] == old(pixels[..])[i := PIXEL_VALUE]
  {
    pixels[i] := PIXEL_VALUE;
  }

  method DrawDot(pixels: array<Word32>, f: Frame, p: Point, ghost was: seq<Word32>, ghost s: set<Point>)
    requires pixels.Length == f.width * f.height && f.Shows(pixels[..], was, s)
    modifies pixels
    ensures f.Shows(pixels[..], was, s + InFrame(f, p))
  {
    hide f.Shows, f.Index;
    if p.y >= 0 && p.y < f.height && p.x >= 0 && p.x < f.width {
      ShowsOneMore(f, pixels[..], was, s, p);
      WriteAt(pixels, f.Index(p));
    } else {
      assert s + {} == s;
    }
  }

  /** The end point with the smaller x comes first. */
  function Oriented(x1: int, y1: int, x2: int, y2: int): (l: Line)
    ensures {l.start, l.end} == {Point(x1, y1), Point(x2, y2)}
    ensures l.start.x <= l.end.x && (x1 == x2 ==> l.start == Point(x1, y1))
  {
    if x1 > x2 then Line(Point(x2, y2), Point(x1, y1)) else Line(Point(x1, y1), Point(x2, y2))
  }

  /** The dots around both end points. */
  method DrawDots(pixels: array<Word32>, f: Frame, a: Point, b: Point, xx: seq<int>, yy: seq<int>)
    requires pixels.Length == f.width * f.height && |xx| == |yy|
    modifies pixels
    ensures f.Shows(pixels[..], old(pixels[..]), Dots(f, a, b, xx, yy, |xx|))
  {
    hide f.Shows;
    ghost var was := pixels[..];
    NothingPainted(f, was);
    for i := 0 to |xx|
      invariant f.Shows(pixels[..], was, Dots(f, a, b, xx, yy, i))
    {
      ghost var s := Dots(f, a, b, xx, yy, i);
      var p, q := Point(a.x + xx[i], a.y + yy[i]), Point(b.x + xx[i], b.y + yy[i]);
      DrawDot(pixels, f, p, was, s);
      DrawDot(pixels, f, q, was, s + InFrame(f, p));
    }
  }

  lemma PixelsGrow(f: Frame, l: Line, k: nat, s: set<Point>)
    ensures s + l.Pixels(f, k) + Stamp(f, l.At(k)) == s + l.Pixels(f, k + 1)
  {
  }

  /**
   The Bresenham loop. It visits the points of the rounded line one after the other and stops
   after exactly max(dx, dy) iterations.
   */
  method DrawLine(pixels: array<Word32>, f: Frame, l: Line, ghost was: seq<Word32>, ghost s: set<Point>)
    returns (ghost steps: nat)
    requires pixels.Length == f.width * f.height && f.Shows(pixels[..], was, s)
    modifies pixels
    ensures steps == l.Length()
    ensures f.Shows(pixels[..], was, s + l.Pixels(f, l.Length() + 1))
  {
    hide f.Shows, Stamp, Line.At, Line.Pixels, LoopState;
    var xs, ys, xe, ye := l.start.x, l.start.y, l.end.x, l.end.y;
    var dx, dy := Abs(xe - xs), Abs(ye - ys);
    var sx, sy := if xs < xe then 1 else -1, if ys < ye then 1 else -1;
    var err := if dx > dy then dx / 2 else -(dy / 2);
    steps := 0;
    ghost var a, b := 0, 0;
    StateStarts(l);
    LineGeometry(l, 0);
    PixelsEmpty(f, l, s);
    SetPixel(pixels, f, xs, ys, was, s + l.Pixels(f, 0));
    PixelsGrow(f, l, 0, s);
    while xs != xe || ys != ye
      invariant steps <= l.Length() && LoopState(l, steps, a, b, err)
      invariant Point(xs, ys) == l.At(steps)
      invariant f.Shows(pixels[..], was, s + l.Pixels(f, steps + 1))
      decreases l.Length() - steps
    {
      LineGeometry(l, steps);
      ghost var a0, b0 := a, b;
      var e2 := err;
      if e2 > -dx {
        err := err - dy;
        xs := xs + sx;
        a := a + 1;
      }
      if e2 < dy {
        err := err + dx;
        ys := ys + sy;
        b := b + 1;
      }
      StateStep(l, steps, a0, b0, e2, a, b, err);
      steps := steps + 1;
      SetPixel(pixels, f, xs, ys, was, s + l.Pixels(f, steps));
      PixelsGrow(f, l, steps, s);
    }
    LineGeometry(l, steps);
  }

  lemma PixelsEmpty(f: Frame, l: Line, s: set<Point>)
    ensures s + l.Pixels(f, 0) == s
  {
  }

  // ----- the picture -----

  /** The shape of a dot: a disc without its centre, and four points on the axes. */
  predicate InDot(x: int, y: int)
  {
    (x != 0 || y != 0) && (x * x + y * y <= 10 || (x * y == 0 && x * x + y * y == 16))
  }

  lemma LeftOffsets(i: nat)
    requires i < 20
    ensures InDot(XX[i], YY[i])
  {
  }

  lemma RightOffsets(i: nat)
    requires 20 <= i < 40
    ensures InDot(XX[i], YY[i])
  {
  }

  /** The rows of the disc. */
  lemma DotRows(x: int, y: int)
    requires InDot(x, y)
    ensures -4 <= x <= 4 && -4 <= y <= 4
    ensures (x == 4 || x == -4 ==> y == 0) && (y == 4 || y == -4 ==> x == 0)
    ensures (x == 3 || x == -3 ==> -1 <= y <= 1) && (x == 2 || x == -2 ==> -2 <= y <= 2)
    ensures -1 <= x <= 1 && y != 4 && y != -4 ==> -3 <= y <= 3
  {
  }

  lemma OffsetsLeft(x: int, y: int) returns (i: nat)
    requires InDot(x, y) && x < 0
    ensures i < 40 && XX[i] == x && YY[i] == y
  {
    DotRows(x, y);
    i := if x == -4 then 0 else if x == -3 then 5 + y else if x == -2 then 9 + y else 15 + y;
  }

  lemma OffsetsMiddle(y: int) returns (i: nat)
    requires InDot(0, y)
    ensures i < 40 && XX[i] == 0 && YY[i] == y
  {
    DotRows(0, y);
    i := if y == -4 then 1 else if y == 4 then 3 else if y < 0 then 22 + y else 21 + y;
  }

  lemma OffsetsRight(x: int, y: int) returns (i: nat)
    requires InDot(x, y) && x > 0
    ensures i < 40 && XX[i] == x && YY[i] == y
  {
    DotRows(x, y);
    i := if x == 4 then 2 else if x == 1 then 28 + y else if x == 2 then 34 + y else 38 + y;
  }

  /** The forty offsets are exactly the points of the dot. */
  lemma OffsetsAreDot(x: int, y: int)
    ensures |XX| == |YY| == 40
    ensures InDot(x, y) <==> exists i :: 0 <= i < 40 && XX[i] == x && YY[i] == y
  {
    hide InDot;
    if InDot(x, y) {
      var i;
      if x < 0 {
        i := OffsetsLeft(x, y);
      } else if x == 0 {
        i := OffsetsMiddle(y);
      } else {
        i := OffsetsRight(x, y);
      }
      assert XX[i] == x && YY[i] == y;
    }
    forall i | 0 <= i < 40 && XX[i] == x && YY[i] == y ensures InDot(x, y) {
      if i < 20 {
        LeftOffsets(i);
      } else {
        RightOffsets(i);
      }
    }
  }

  lemma {:induction false} DotsAreOffsets(f: Frame, a: Point, b: Point, xx: seq<int>, yy: seq<int>, n: nat, q: Point)
    requires n <= |xx| == |yy|
    ensures q in Dots(f, a, b, xx, yy, n) <==>
            f.Contains(q) && exists i :: 0 <= i < n && (q == Point(a.x + xx[i], a.y + yy[i])
                                                       || q == Point(b.x + xx[i], b.y + yy[i]))
  {
    if n > 0 {
      DotsAreOffsets(f, a, b, xx, yy, n - 1, q);
    }
  }

  /** A pixel, its right neighbour or its lower neighbour. */
  predicate Covers(p: Point, q: Point)
  {
    q == p || q == Point(p.x + 1, p.y) || q == Point(p.x, p.y + 1)
  }

  lemma {:induction false} PixelsAreCovered(l: Line, f: Frame, n: nat, q: Point)
    ensures q in l.Pixels(f, n) <==>
            f.Contains(q) && exists k :: 0 <= k < n && f.Contains(l.At(k)) && Covers(l.At(k), q)
  {
    hide Line.At;
    if n > 0 {
      PixelsAreCovered(l, f, n - 1, q);
      if q in l.Pixels(f, n) && q !in l.Pixels(f, n - 1) {
        assert Covers(l.At(n - 1), q);
      }
    }
  }

  /** A pixel is painted: it belongs to a dot around an end, or is covered by a point of the line in the frame. */
  ghost predicate Painted(f: Frame, l: Line, q: Point)
  {
    || InDot(q.x - l.start.x, q.y - l.start.y)
    || InDot(q.x - l.end.x, q.y - l.end.y)
    || exists k :: 0 <= k <= l.Length() && f.Contains(l.At(k)) && Covers(l.At(k), q)
  }

  lemma PaintedIff(f: Frame, l: Line, q: Point)
    requires f.Contains(q)
    ensures |XX| == |YY|
    ensures q in Dots(f, l.start, l.end, XX, YY, |XX|) + l.Pixels(f, l.Length() + 1) <==> Painted(f, l, q)
  {
    hide InDot, Dots, Line.Pixels, Line.At, Line.Length, f.Contains, Painted;
    OffsetsAreDot(q.x - l.start.x, q.y - l.start.y);
    OffsetsAreDot(q.x - l.end.x, q.y - l.end.y);
    PaintedWith(f, l, q, XX, YY);
  }

  lemma PaintedWith(f: Frame, l: Line, q: Point, xx: seq<int>, yy: seq<int>)
    requires f.Contains(q) && |xx| == |yy| == 40
    requires InDot(q.x - l.start.x, q.y - l.start.y) <==>
             exists i :: 0 <= i < 40 && xx[i] == q.x - l.start.x && yy[i] == q.y - l.start.y
    requires InDot(q.x - l.end.x, q.y - l.end.y) <==>
             exists i :: 0 <= i < 40 && xx[i] == q.x - l.end.x && yy[i] == q.y - l.end.y
    ensures q in Dots(f, l.start, l.end, xx, yy, 40) + l.Pixels(f, l.Length() + 1) <==> Painted(f, l, q)
  {
    hide InDot, Dots, Line.Pixels, Line.At, Line.Length, f.Contains;
    DotsAreOffsets(f, l.start, l.end, xx, yy, 40, q);
    PixelsAreCovered(l, f, l.Length() + 1, q);
  }

  /** Both ends of the line are painted. */
  lemma EndsPainted(f: Frame, l: Line)
    ensures f.Contains(l.start) ==> Painted(f, l, l.start)
    ensures f.Contains(l.end) ==> Painted(f, l, l.end)
  {
    hide InDot;
    LineGeometry(l, 0);
    assert Covers(l.At(0), l.start) && Covers(l.At(l.Length()), l.end);
  }

  /**
   `draw_line_with_dot`: every pixel of the frame that belongs to a dot around an end point or is
   covered by the line between the given points becomes white, every other pixel stays as it was,
   and the loop runs once per step on the longer axis. Both end points are white if they lie in
   the frame.
   */
  method DrawLineWithDot(pixels: array<Word32>, f: Frame, x1: int, y1: int, x2: int, y2: int) returns (ghost steps: nat)
    requires pixels.Length == f.width * f.height
    modifies pixels
    ensures steps == if Abs(x2 - x1) > Abs(y2 - y1) then Abs(x2 - x1) else Abs(y2 - y1)
    ensures exists l: Line ::
              && {l.start, l.end} == {Point(x1, y1), Point(x2, y2)}
              && l.start.x <= l.end.x && (x1 == x2 ==> l.start == Point(x1, y1))
              && forall q | f.Contains(q) ::
                   pixels[f.Index(q)] == if Painted(f, l, q) then PIXEL_VALUE else old(pixels[f.Index(q)])
    ensures f.Contains(Point(x1, y1)) ==> pixels[f.Index(Point(x1, y1))] == 0xFFFF_FFFF
    ensures f.Contains(Point(x2, y2)) ==> pixels[f.Index(Point(x2, y2))] == 0xFFFF_FFFF
  {
    hide Dots, Line.Pixels, Painted, f.Index, f.Contains, Line.At, Oriented;
    var l := Oriented(x1, y1, x2, y2);
    DrawDots(pixels, f, l.start, l.end, XX, YY);
    steps := DrawLine(pixels, f, l, old(pixels[..]), Dots(f, l.start, l.end, XX, YY, |XX|));
    ghost var was, now := old(pixels[..]), pixels[..];
    forall q | f.Contains(q)
      ensures pixels[f.Index(q)] == if Painted(f, l, q) then PIXEL_VALUE else old(pixels[f.Index(q)])
    {
      PaintedIff(f, l, q);
      assert now[f.Index(q)] == pixels[f.Index(q)] && was[f.Index(q)] == old(pixels[f.Index(q)]);
    }
    EndsPainted(f, l);
  }

  lemma StateStarts(l: Line)
    ensures LoopState(l, 0, 0, 0, if l.Dx() > l.Dy() then l.Dx() / 2 else -(l.Dy() / 2))
  {
  }

  lemma NothingPainted(f: Frame, was: seq<Word32>)
    requires |was| == f.width * f.height
    ensures f.Shows(was, was, {})
  {
  }

  /** After `k` iterations: `a` steps in x, `b` steps in y, and an error term of bounded size. */
  ghost predicate LoopState(l: Line, k: nat, a: nat, b: nat, err: int)
  {
    var dx, dy := l.Dx(), l.Dy();
    && k <= l.Length()
    && if dx > dy then a == k && err == dx / 2 - dy * a + dx * b && 0 <= err < dx
       else
         && b == k && err == -(dy / 2) - dy * a + dx * b
         && (dy > 0 ==> -dy < err <= 0) && (dy == 0 ==> a == 0 && err == 0)
  }

  /** The point reached is the closed form. */
  lemma StateIsPoint(l: Line, k: nat, a: nat, b: nat, err: int)
    requires LoopState(l, k, a, b, err)
    ensures a == l.StepsX(k) && b == l.StepsY(k)
    ensures l.At(k) == Point(l.start.x + l.Sx() * a, l.start.y + l.Sy() * b)
  {
    hide Line.Rounded;
    var dx, dy := l.Dx(), l.Dy();
    if dx > dy {
      RoundedFromError(dy, dx, k, b, err);
    } else if dy > 0 {
      RoundedFromError(dx, dy, k, a, -err);
    }
  }

  /** The state after one iteration: x moves if the error exceeds -dx, y if it is below dy. */
  ghost predicate Advanced(l: Line, a: nat, b: nat, err: int, a': nat, b': nat, err': int)
  {
    var dx, dy := l.Dx(), l.Dy();
    && a' == a + (if err > -dx then 1 else 0)
    && b' == b + (if err < dy then 1 else 0)
    && err' == err - (if err > -dx then dy else 0) + (if err < dy then dx else 0)
  }

  lemma StateAdvances(l: Line, k: nat, a: nat, b: nat, err: int, a': nat, b': nat, err': int)
    requires LoopState(l, k, a, b, err) && k < l.Length() && Advanced(l, a, b, err, a', b', err')
    ensures LoopState(l, k + 1, a', b', err')
  {
    var dx, dy := l.Dx(), l.Dy();
    assert dy * (a + 1) == dy * a + dy;
    assert dx * (b + 1) == dx * b + dx;
  }

  /** One iteration advances the state, and the point with it. */
  lemma StateStep(l: Line, k: nat, a: nat, b: nat, err: int, a': nat, b': nat, err': int)
    requires LoopState(l, k, a, b, err) && k < l.Length() && Advanced(l, a, b, err, a', b', err')
    ensures LoopState(l, k + 1, a', b', err')
    ensures l.At(k + 1) == Point(l.At(k).x + l.Sx() * (a' - a), l.At(k).y + l.Sy() * (b' - b))
  {
    hide Line.At, LoopState, Line.StepsX, Line.StepsY, Line.Dx, Line.Dy;
    StateAdvances(l, k, a, b, err, a', b', err');
    StateIsPoint(l, k, a, b, err);
    StateIsPoint(l, k + 1, a', b', err');
    assert l.Sx() * a' == l.Sx() * a + l.Sx() * (a' - a);
    assert l.Sy() * b' == l.Sy() * b + l.Sy() * (b' - b);
  }
}
