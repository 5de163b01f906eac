/** Interpolating the Composite estimate: find the table interval of x, put a window of four
    knots around it, and evaluate the cubic through them. */
module HllInterpolation {
  const NUM_X_VALUES: nat := 257

  ghost predicate Increasing(xs: seq<real>) {
    forall i, j :: 0 <= i < j < |xs| ==> xs[i] < xs[j]
  }

  /** Binary search for the interval of x; values outside the table get an end interval. */
  method FindStraddle(xs: seq<real>, x: real) returns (left: nat)
    requires |xs| >= 2 && Increasing(xs)
    ensures left <= |xs| - 2
    ensures xs[0] <= x ==> xs[left] <= x
    ensures x < xs[|xs| - 1] ==> x < xs[left + 1]
    ensures x < xs[0] ==> left == 0
    ensures x >= xs[|xs| - 1] ==> left == |xs| - 2
  {
    left := 0;
    var right := |xs| - 1;
    while left + 1 < right
      invariant 0 <= left < right <= |xs| - 1
      invariant left == 0 || xs[left] <= x
      invariant right == |xs| - 1 || x < xs[right]
      decreases right - left
    {
      var middle := left + (right - left) / 2;
      if xs[middle] <= x {
        left := middle;
      } else {
        right := middle;
      }
    }
  }

  function Numerator(x: real, a: real, b: real, c: real): real {
    (x - a) * (x - b) * (x - c)
  }

  /** One term of the sum: y times the basis polynomial that is 1 at its own knot and 0 at
      the other three. */
  function Share(y: real, own: real, a: real, b: real, c: real, x: real): real
    requires own != a && own != b && own != c
  {
    NumeratorNonzero(own, a, b, c);
    y * Numerator(x, a, b, c) / Numerator(own, a, b, c)
  }

  function CubicInterpolate(x0: real, y0: real, x1: real, y1: real, x2: real, y2: real, x3: real, y3: real,
                            x: real): real
    requires x0 < x1 < x2 < x3
  {
    Share(y0, x0, x1, x2, x3, x) + Share(y1, x1, x0, x2, x3, x)
    + Share(y2, x2, x0, x1, x3, x) + Share(y3, x3, x0, x1, x2, x)
  }

  lemma ProductNonzero(a: real, b: real)
    requires a != 0.0 && b != 0.0
    ensures a * b != 0.0
  {}

  lemma NumeratorNonzero(x: real, a: real, b: real, c: real)
    requires x != a && x != b && x != c
    ensures Numerator(x, a, b, c) != 0.0
  {
    var u, v, w := x - a, x - b, x - c;
    ProductNonzero(u, v);
    ProductNonzero(u * v, w);
  }

  // ----- a cubic is determined by four points -----

  datatype Cubic = Cubic(c0: real, c1: real, c2: real, c3: real) {
    function At(x: real): real {
      c0 + x * (c1 + x * (c2 + x * c3))
    }

    function Minus(other: Cubic): Cubic {
      Cubic(c0 - other.c0, c1 - other.c1, c2 - other.c2, c3 - other.c3)
    }

    function Plus(other: Cubic): Cubic {
      Cubic(c0 + other.c0, c1 + other.c1, c2 + other.c2, c3 + other.c3)
    }
  }

  lemma MinusAt(p: Cubic, q: Cubic, x: real)
    ensures p.Minus(q).At(x) == p.At(x) - q.At(x)
  {
    Linear3(x, p.c1, q.c1, p.c2, q.c2, p.c3, q.c3, -1.0);
  }

  lemma PlusAt(p: Cubic, q: Cubic, x: real)
    ensures p.Plus(q).At(x) == p.At(x) + q.At(x)
  {
    Linear3(x, p.c1, q.c1, p.c2, q.c2, p.c3, q.c3, 1.0);
  }

  lemma Linear3(x: real, a1: real, b1: real, a2: real, b2: real, a3: real, b3: real, s: real)
    requires s == 1.0 || s == -1.0
    ensures x * (a1 + s * b1 + x * (a2 + s * b2 + x * (a3 + s * b3)))
         == x * (a1 + x * (a2 + x * a3)) + s * (x * (b1 + x * (b2 + x * b3)))
  {}

  /** First divided difference of e. */
  function Slope(e: Cubic, a: real, b: real): real {
    e.c1 + e.c2 * (a + b) + e.c3 * (a * a + a * b + b * b)
  }

  lemma CancelFactor(f: real, g: real)
    requires f != 0.0 && f * g == 0.0
    ensures g == 0.0
  {}

  lemma SlopeZero(e: Cubic, a: real, b: real)
    requires a != b && e.At(a) == 0.0 && e.At(b) == 0.0
    ensures Slope(e, a, b) == 0.0
  {
    assert (a - b) * Slope(e, a, b) == e.At(a) - e.At(b);
    CancelFactor(a - b, Slope(e, a, b));
  }

  lemma CurveZero(e: Cubic, a: real, b: real, c: real)
    requires b != c && Slope(e, a, b) == 0.0 && Slope(e, a, c) == 0.0
    ensures e.c2 + e.c3 * (a + b + c) == 0.0
  {
    assert (b - c) * (e.c2 + e.c3 * (a + b + c)) == Slope(e, a, b) - Slope(e, a, c);
    CancelFactor(b - c, e.c2 + e.c3 * (a + b + c));
  }

  lemma FourRoots(e: Cubic, a: real, b: real, c: real, d: real)
    requires a < b < c < d
    requires e.At(a) == e.At(b) == e.At(c) == e.At(d) == 0.0
    ensures e == Cubic(0.0, 0.0, 0.0, 0.0)
  {
    SlopeZero(e, a, b);
    SlopeZero(e, a, c);
    SlopeZero(e, a, d);
    CurveZero(e, a, b, c);
    CurveZero(e, a, b, d);
    assert (c - d) * e.c3 == 0.0;
    CancelFactor(c - d, e.c3);
  }

  /** (x - a)(x - b)(x - c), scaled. */
  function Roots(w: real, a: real, b: real, c: real): Cubic {
    Cubic(-w * (a * b * c), w * (a * b + a * c + b * c), -w * (a + b + c), w)
  }

  lemma RootsAt(w: real, a: real, b: real, c: real, x: real)
    ensures Roots(w, a, b, c).At(x) == w * Numerator(x, a, b, c)
  {}

  function Part(y: real, own: real, a: real, b: real, c: real): Cubic
    requires own != a && own != b && own != c
  {
    NumeratorNonzero(own, a, b, c);
    Roots(y / Numerator(own, a, b, c), a, b, c)
  }

  lemma ShareIs(y: real, own: real, a: real, b: real, c: real, x: real, w: real)
    requires own != a && own != b && own != c
    requires Numerator(own, a, b, c) != 0.0 && w == y / Numerator(own, a, b, c)
    ensures Share(y, own, a, b, c, x) == w * Numerator(x, a, b, c)
  {
    QuotientFirst(y, Numerator(x, a, b, c), Numerator(own, a, b, c));
  }

  lemma PartAt(y: real, own: real, a: real, b: real, c: real, x: real)
    requires own != a && own != b && own != c
    ensures Part(y, own, a, b, c).At(x) == Share(y, own, a, b, c, x)
  {
    NumeratorNonzero(own, a, b, c);
    var w := y / Numerator(own, a, b, c);
    assert Part(y, own, a, b, c) == Roots(w, a, b, c);
    RootsAt(w, a, b, c, x);
    ShareIs(y, own, a, b, c, x, w);
  }

  lemma QuotientFirst(y: real, n: real, d: real)
    requires d != 0.0
    ensures y * n / d == y / d * n
  {
    var w := y / d;
    assert w * d == y;
    assert y * n == w * n * d;
  }

  /** The interpolant, as a cubic. */
  function Interpolant(x0: real, y0: real, x1: real, y1: real, x2: real, y2: real, x3: real, y3: real): Cubic
    requires x0 < x1 < x2 < x3
  {
    Part(y0, x0, x1, x2, x3).Plus(Part(y1, x1, x0, x2, x3))
                            .Plus(Part(y2, x2, x0, x1, x3)).Plus(Part(y3, x3, x0, x1, x2))
  }

  lemma InterpolantAt(x0: real, y0: real, x1: real, y1: real, x2: real, y2: real, x3: real, y3: real, x: real)
    requires x0 < x1 < x2 < x3
    ensures Interpolant(x0, y0, x1, y1, x2, y2, x3, y3).At(x) == CubicInterpolate(x0, y0, x1, y1, x2, y2, x3, y3, x)
  {
    SumAt(Part(y0, x0, x1, x2, x3), Part(y1, x1, x0, x2, x3), Part(y2, x2, x0, x1, x3), Part(y3, x3, x0, x1, x2), x);
    PartAt(y0, x0, x1, x2, x3, x);
    PartAt(y1, x1, x0, x2, x3, x);
    PartAt(y2, x2, x0, x1, x3, x);
    PartAt(y3, x3, x0, x1, x2, x);
  }

  lemma SumAt(r0: Cubic, r1: Cubic, r2: Cubic, r3: Cubic, x: real)
    ensures r0.Plus(r1).Plus(r2).Plus(r3).At(x) == r0.At(x) + r1.At(x) + r2.At(x) + r3.At(x)
  {
    PlusAt(r0, r1, x);
    PlusAt(r0.Plus(r1), r2, x);
    PlusAt(r0.Plus(r1).Plus(r2), r3, x);
  }

  lemma TermAtOwnKnot(y: real, d: real)
    requires d != 0.0
    ensures y * d / d == y
  {}

  lemma TermAtOtherKnot(y: real, n: real, d: real)
    requires d != 0.0 && n == 0.0
    ensures y * n / d == 0.0
  {}

  /** The curve passes through its four points. */
  lemma PassesThroughKnots(x0: real, y0: real, x1: real, y1: real, x2: real, y2: real, x3: real, y3: real)
    requires x0 < x1 < x2 < x3
    ensures CubicInterpolate(x0, y0, x1, y1, x2, y2, x3, y3, x0) == y0
    ensures CubicInterpolate(x0, y0, x1, y1, x2, y2, x3, y3, x1) == y1
    ensures CubicInterpolate(x0, y0, x1, y1, x2, y2, x3, y3, x2) == y2
    ensures CubicInterpolate(x0, y0, x1, y1, x2, y2, x3, y3, x3) == y3
  {
    KnotValue(x0, y0, x1, y1, x2, y2, x3, y3, x0);
    KnotValue(x0, y0, x1, y1, x2, y2, x3, y3, x1);
    KnotValue(x0, y0, x1, y1, x2, y2, x3, y3, x2);
    KnotValue(x0, y0, x1, y1, x2, y2, x3, y3, x3);
  }

  lemma VanishesAt(x: real, a: real, b: real, c: real)
    requires x == a || x == b || x == c
    ensures Numerator(x, a, b, c) == 0.0
  {}

  /** A term at a knot: its own value there, nothing at the other knots. */
  lemma ShareAtKnot(y: real, own: real, a: real, b: real, c: real, x: real)
    requires own != a && own != b && own != c
    requires x == own || x == a || x == b || x == c
    ensures Share(y, own, a, b, c, x) == if x == own then y else 0.0
  {
    NumeratorNonzero(own, a, b, c);
    if x == own {
      TermAtOwnKnot(y, Numerator(own, a, b, c));
    } else {
      VanishesAt(x, a, b, c);
      TermAtOtherKnot(y, Numerator(x, a, b, c), Numerator(own, a, b, c));
    }
  }

  lemma KnotValue(x0: real, y0: real, x1: real, y1: real, x2: real, y2: real, x3: real, y3: real, x: real)
    requires x0 < x1 < x2 < x3
    requires x == x0 || x == x1 || x == x2 || x == x3
    ensures CubicInterpolate(x0, y0, x1, y1, x2, y2, x3, y3, x)
         == if x == x0 then y0 else if x == x1 then y1 else if x == x2 then y2 else y3
  {
    ShareAtKnot(y0, x0, x1, x2, x3, x);
    ShareAtKnot(y1, x1, x0, x2, x3, x);
    ShareAtKnot(y2, x2, x0, x1, x3, x);
    ShareAtKnot(y3, x3, x0, x1, x2, x);
  }

  /** Sampling any polynomial of degree at most three at four knots and interpolating gives
      that polynomial back, at every x. */
  lemma CubicReproduced(p: Cubic, x0: real, x1: real, x2: real, x3: real, x: real)
    requires x0 < x1 < x2 < x3
    ensures CubicInterpolate(x0, p.At(x0), x1, p.At(x1), x2, p.At(x2), x3, p.At(x3), x) == p.At(x)
  {
    var y0, y1, y2, y3 := p.At(x0), p.At(x1), p.At(x2), p.At(x3);
    var q := Interpolant(x0, y0, x1, y1, x2, y2, x3, y3);
    PassesThroughKnots(x0, y0, x1, y1, x2, y2, x3, y3);
    RootOfDifference(p, q, x0, y0, x1, y1, x2, y2, x3, y3, x0);
    RootOfDifference(p, q, x0, y0, x1, y1, x2, y2, x3, y3, x1);
    RootOfDifference(p, q, x0, y0, x1, y1, x2, y2, x3, y3, x2);
    RootOfDifference(p, q, x0, y0, x1, y1, x2, y2, x3, y3, x3);
    FourRoots(p.Minus(q), x0, x1, x2, x3);
    MinusAt(p, q, x);
    InterpolantAt(x0, y0, x1, y1, x2, y2, x3, y3, x);
  }

  lemma RootOfDifference(p: Cubic, q: Cubic,
                         x0: real, y0: real, x1: real, y1: real, x2: real, y2: real, x3: real, y3: real, x: real)
    requires x0 < x1 < x2 < x3
    requires q == Interpolant(x0, y0, x1, y1, x2, y2, x3, y3)
    requires p.At(x) == CubicInterpolate(x0, y0, x1, y1, x2, y2, x3, y3, x)
    ensures p.Minus(q).At(x) == 0.0
  {
    MinusAt(p, q, x);
    InterpolantAt(x0, y0, x1, y1, x2, y2, x3, y3, x);
  }

  // ----- the windowed evaluation -----

  function Window(xs: seq<real>, yStride: nat, base: nat, x: real): real
    requires Increasing(xs) && base + 3 < |xs|
  {
    CubicInterpolate(
      xs[base], (yStride * base) as real,
      xs[base + 1], (yStride * (base + 1)) as real,
      xs[base + 2], (yStride * (base + 2)) as real,
      xs[base + 3], (yStride * (base + 3)) as real, x)
  }

  lemma WindowAtKnot(xs: seq<real>, yStride: nat, base: nat, j: nat)
    requires Increasing(xs) && base + 3 < |xs| && base <= j <= base + 3
    ensures Window(xs, yStride, base, xs[j]) == (yStride * j) as real
  {
    PassesThroughKnots(
      xs[base], (yStride * base) as real,
      xs[base + 1], (yStride * (base + 1)) as real,
      xs[base + 2], (yStride * (base + 2)) as real,
      xs[base + 3], (yStride * (base + 3)) as real);
  }

  /** p passes through the four knots from `base` on. */
  ghost predicate Through(p: Cubic, xs: seq<real>, yStride: nat, base: nat)
    requires base + 3 < |xs|
  {
    forall j :: base <= j <= base + 3 ==> p.At(xs[j]) == (yStride * j) as real
  }

  /** The window evaluates the one cubic through its four knots. */
  lemma WindowIsCubic(xs: seq<real>, yStride: nat, base: nat, x: real)
    requires Increasing(xs) && base + 3 < |xs|
    ensures exists p :: Through(p, xs, yStride, base)
    ensures forall p :: Through(p, xs, yStride, base) ==> Window(xs, yStride, base, x) == p.At(x)
  {
    CubicThrough(xs, yStride, base);
    forall p | Through(p, xs, yStride, base) ensures Window(xs, yStride, base, x) == p.At(x) {
      CubicReproduced(p, xs[base], xs[base + 1], xs[base + 2], xs[base + 3], x);
    }
  }

  lemma CubicThrough(xs: seq<real>, yStride: nat, base: nat)
    requires Increasing(xs) && base + 3 < |xs|
    ensures exists p :: Through(p, xs, yStride, base)
  {
    var p := Interpolant(
      xs[base], (yStride * base) as real,
      xs[base + 1], (yStride * (base + 1)) as real,
      xs[base + 2], (yStride * (base + 2)) as real,
      xs[base + 3], (yStride * (base + 3)) as real);
    forall j | base <= j <= base + 3 ensures p.At(xs[j]) == (yStride * j) as real {
      InterpolantAt(
        xs[base], (yStride * base) as real,
        xs[base + 1], (yStride * (base + 1)) as real,
        xs[base + 2], (yStride * (base + 2)) as real,
        xs[base + 3], (yStride * (base + 3)) as real, xs[j]);
      WindowAtKnot(xs, yStride, base, j);
    }
    assert Through(p, xs, yStride, base);
  }

  /** The four-knot window starts at `base` and lies in the table, with the interval of x in
      its middle except at the ends of the table. The result is the value at x of the one
      cubic through its knots; at a knot that is the knot's value. */
  method InterpolateComposite(xs: seq<real>, yStride: nat, x: real) returns (y: real, ghost base: nat)
    requires |xs| == NUM_X_VALUES && Increasing(xs)
    requires xs[0] <= x <= xs[NUM_X_VALUES - 1]
    ensures base <= NUM_X_VALUES - 4 && xs[base] <= x <= xs[base + 3]
    ensures base == 0 || xs[base + 1] <= x
    ensures base == NUM_X_VALUES - 4 || x < xs[base + 2]
    ensures exists p :: Through(p, xs, yStride, base)
    ensures forall p :: Through(p, xs, yStride, base) ==> y == p.At(x)
    ensures forall j :: 0 <= j < NUM_X_VALUES && x == xs[j] ==> y == (yStride * j) as real
  {
    if x == xs[NUM_X_VALUES - 1] {
      base := NUM_X_VALUES - 4;
      WindowAtKnot(xs, yStride, base, NUM_X_VALUES - 1);
      WindowIsCubic(xs, yStride, base, x);
      y := (yStride * (NUM_X_VALUES - 1)) as real;
      return;
    }
    var offset := FindStraddle(xs, x);
    var first := if offset == 0 then 0 else if offset == NUM_X_VALUES - 2 then offset - 2 else offset - 1;
    base := first;
    y := Window(xs, yStride, first, x);
    WindowIsCubic(xs, yStride, first, x);
    if x == xs[offset] {
      WindowAtKnot(xs, yStride, first, offset);
    }
  }
}
