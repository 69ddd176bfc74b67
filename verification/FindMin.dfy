/** findmin of mapconvert.py: the nearest pair of points of two polygons, found
    without looking at points that cannot be near enough. */
module FindMin {
  import opened Arith
  import opened Options

  datatype Vec = Vec(x: int, y: int)

  // How an offset is measured, for instance on the wrapped map.
  type Measure = Vec -> Vec

  function Sq(v: Vec): int { v.x * v.x + v.y * v.y }

  datatype Found = Found(dist: int, k: int, l: int, dx: int, dy: int)

  // The least distance met, and the pair of points that has it, if any pair was
  // nearer than the distance given at first.
  datatype Best = Best(mindist: int, result: Option<Found>)

  function Pair(p: seq<Vec>, q: seq<Vec>, measure: Measure, k: nat, l: nat): Found
    requires k < |p| && l < |q|
  {
    var d := measure(Vec(q[l].x - p[k].x, q[l].y - p[k].y));
    Found(Sq(d), k, l, d.x, d.y)
  }

  function Better(b: Best, f: Found): Best {
    if f.dist < b.mindist then Best(f.dist, Some(f)) else b
  }

  // The full double loop over all pairs.
  function ScanRow(p: seq<Vec>, q: seq<Vec>, measure: Measure, k: nat, l: nat, b: Best): Best
    requires k < |p|
    decreases |q| - l
  {
    if l >= |q| then b else ScanRow(p, q, measure, k, l + 1, Better(b, Pair(p, q, measure, k, l)))
  }

  function ScanAll(p: seq<Vec>, q: seq<Vec>, measure: Measure, k: nat, b: Best): Best
    decreases |p| - k
  {
    if k >= |p| then b else ScanAll(p, q, measure, k + 1, ScanRow(p, q, measure, k, 0, b))
  }

  // The same pair seen from the other polygon.
  function Turned(r: Option<Found>): Option<Found> {
    match r
    case None => None
    case Some(f) => Some(Found(f.dist, f.l, f.k, -f.dx, -f.dy))
  }

  // The shorter polygon is the outer one; the result is given back in the order
  // of the arguments.
  function Nearest(p: seq<Vec>, q: seq<Vec>, measure: Measure, mindist: int): Option<Found> {
    if |p| > |q| then Turned(ScanAll(q, p, measure, 0, Best(mindist, None)).result)
    else ScanAll(p, q, measure, 0, Best(mindist, None)).result
  }

  // ---- The full loops find the least distance ----

  // b is no worse than a, and what it found is a pair of the polygons.
  ghost predicate Improves(p: seq<Vec>, q: seq<Vec>, measure: Measure, a: Best, b: Best) {
    && b.mindist <= a.mindist
    && (b == a || (b.mindist < a.mindist && b.result.Some? && IsPair(p, q, measure, b.result.value)
                   && b.result.value.dist == b.mindist))
  }

  ghost predicate IsPair(p: seq<Vec>, q: seq<Vec>, measure: Measure, f: Found) {
    0 <= f.k < |p| && 0 <= f.l < |q| && f == Pair(p, q, measure, f.k, f.l)
  }

  lemma {:induction false} RowImproves(p: seq<Vec>, q: seq<Vec>, measure: Measure, k: nat, l: nat, b: Best)
    requires k < |p|
    ensures Improves(p, q, measure, b, ScanRow(p, q, measure, k, l, b))
    ensures forall j :: l <= j < |q| ==> ScanRow(p, q, measure, k, l, b).mindist <= Pair(p, q, measure, k, j).dist
    decreases |q| - l
  {
    if l < |q| {
      RowImproves(p, q, measure, k, l + 1, Better(b, Pair(p, q, measure, k, l)));
    }
  }

  lemma {:induction false} ScanImproves(p: seq<Vec>, q: seq<Vec>, measure: Measure, k: nat, b: Best)
    ensures Improves(p, q, measure, b, ScanAll(p, q, measure, k, b))
    ensures forall i, j :: k <= i < |p| && 0 <= j < |q| ==>
      ScanAll(p, q, measure, k, b).mindist <= Pair(p, q, measure, i, j).dist
    decreases |p| - k
  {
    if k < |p| {
      RowImproves(p, q, measure, k, 0, b);
      ScanImproves(p, q, measure, k + 1, ScanRow(p, q, measure, k, 0, b));
    }
  }

  // ---- Square roots ----

  ghost predicate IsRoot(sqrt: real -> real) {
    forall d: real :: d >= 0.0 ==> sqrt(d) >= 0.0 && sqrt(d) * sqrt(d) == d
  }

  lemma PositiveProduct(a: real, b: real)
    requires 0.0 < a && 0.0 < b
    ensures 0.0 < a * b
  {
  }

  lemma SquareOrder(a: real, b: real)
    requires 0.0 <= a && 0.0 <= b
    ensures a <= b <==> a * a <= b * b
  {
    if a <= b {
      assert a * a <= a * b <= b * b;
    } else {
      assert (a - b) * (a + b) == a * a - b * b;
      PositiveProduct(a - b, a + b);
    }
  }

  // Roots are ordered like their squares.
  lemma RootOrder(sqrt: real -> real, a: real, b: real)
    requires IsRoot(sqrt) && 0.0 <= a && 0.0 <= b
    ensures sqrt(a) <= sqrt(b) <==> a <= b
  {
    SquareOrder(sqrt(a), sqrt(b));
  }

  const STEP := 1.4143

  lemma RootOfTwo(sqrt: real -> real)
    requires IsRoot(sqrt)
    ensures sqrt(2.0) <= STEP
  {
    SquareOrder(sqrt(2.0), STEP);
  }

  function Dist(q: seq<Vec>, p: Vec, measure: Measure, sqrt: real -> real, l: nat): real
    requires l < |q|
  {
    sqrt(Sq(measure(Vec(q[l].x - p.x, q[l].y - p.y))) as real)
  }

  // Along the polygon the distance to any point falls by at most sqrt(2) from one
  // point to the next.
  ghost predicate Slow(q: seq<Vec>, measure: Measure, sqrt: real -> real) {
    forall p: Vec, l: nat :: l + 1 < |q| ==>
      Dist(q, p, measure, sqrt, l + 1) >= Dist(q, p, measure, sqrt, l) - sqrt(2.0)
  }

  lemma {:induction false} SlowSteps(q: seq<Vec>, p: Vec, measure: Measure, sqrt: real -> real, l: nat, n: nat)
    requires IsRoot(sqrt) && Slow(q, measure, sqrt) && l + n < |q|
    ensures Dist(q, p, measure, sqrt, l + n) >= Dist(q, p, measure, sqrt, l) - n as real * STEP
  {
    if n > 0 {
      SlowSteps(q, p, measure, sqrt, l, n - 1);
      RootOfTwo(sqrt);
    }
  }

  // ---- Skipping ahead ----

  // How many points may be skipped when a point at distance r is met.
  function Skip(r: real, mind: real): int { ((r - mind) / STEP).Floor }

  lemma SkipIsPositive(r: real, mind: real)
    requires r >= mind + 4.0
    ensures Skip(r, mind) >= 2 && Skip(r, mind) as real * STEP <= r - mind
  {
    var s := (r - mind) / STEP;
    assert s * STEP == r - mind;
    assert s >= 2.0;
  }

  // None of the points skipped is nearer than the least distance met so far.
  lemma SkippedAreFar(p: seq<Vec>, q: seq<Vec>, measure: Measure, sqrt: real -> real,
                        k: nat, l: nat, mindist: int, j: nat)
    requires IsRoot(sqrt) && Slow(q, measure, sqrt) && k < |p| && l <= j < |q| && 0 <= mindist
    requires var r := Dist(q, p[k], measure, sqrt, l);
      r >= sqrt(mindist as real) + 4.0 && j < l + Skip(r, sqrt(mindist as real))
    ensures Pair(p, q, measure, k, j).dist >= mindist
  {
    var r, mind := Dist(q, p[k], measure, sqrt, l), sqrt(mindist as real);
    SkipIsPositive(r, mind);
    SlowSteps(q, p[k], measure, sqrt, l, j - l);
    assert (j - l) as real * STEP <= Skip(r, mind) as real * STEP;
    var d := Pair(p, q, measure, k, j).dist;
    assert Dist(q, p[k], measure, sqrt, j) == sqrt(d as real) >= mind;
    RootOrder(sqrt, mindist as real, d as real);
  }

  lemma {:induction false} RowSkips(p: seq<Vec>, q: seq<Vec>, measure: Measure, k: nat, l: nat, n: nat, b: Best)
    requires k < |p| && forall j :: l <= j < l + n && j < |q| ==> Pair(p, q, measure, k, j).dist >= b.mindist
    ensures ScanRow(p, q, measure, k, l, b) == ScanRow(p, q, measure, k, l + n, b)
    decreases n
  {
    if n > 0 && l < |q| {
      RowSkips(p, q, measure, k, l + 1, n - 1, b);
    }
  }

  lemma FarRowSkips(p: seq<Vec>, q: seq<Vec>, measure: Measure, sqrt: real -> real, k: nat, l: nat, b: Best)
    requires IsRoot(sqrt) && Slow(q, measure, sqrt) && k < |p| && l < |q| && 0 <= b.mindist
    requires var mind := sqrt(b.mindist as real);
      Pair(p, q, measure, k, l).dist as real >= (mind + 4.0) * (mind + 4.0)
    ensures var n := Skip(sqrt(Pair(p, q, measure, k, l).dist as real), sqrt(b.mindist as real));
      n > 0 && ScanRow(p, q, measure, k, l, b) == ScanRow(p, q, measure, k, l + n, b)
  {
    SquareIsNatural(measure(Vec(q[l].x - p[k].x, q[l].y - p[k].y)));
    var mind, r := sqrt(b.mindist as real), sqrt(Pair(p, q, measure, k, l).dist as real);
    assert 0.0 <= b.mindist as real;
    SquareOrder(mind + 4.0, r);
    var n := Skip(r, mind);
    SkipIsPositive(r, mind);
    forall j | l <= j < l + n && j < |q| ensures Pair(p, q, measure, k, j).dist >= b.mindist {
      SkippedAreFar(p, q, measure, sqrt, k, l, b.mindist, j);
    }
    RowSkips(p, q, measure, k, l, n, b);
  }

  // One row of findmin, with the skips.
  method FindRow(p: seq<Vec>, q: seq<Vec>, measure: Measure, sqrt: real -> real, k: nat, b0: Best) returns (b: Best)
    requires IsRoot(sqrt) && Slow(q, measure, sqrt) && k < |p| && 0 <= b0.mindist
    ensures b == ScanRow(p, q, measure, k, 0, b0) && 0 <= b.mindist
  {
    b := b0;
    var mind := sqrt(b.mindist as real);
    var far := (mind + 4.0) * (mind + 4.0);
    var l := 0;
    while l < |q|
      invariant 0 <= l && 0 <= b.mindist
      invariant mind == sqrt(b.mindist as real) && far == (mind + 4.0) * (mind + 4.0)
      invariant ScanRow(p, q, measure, k, l, b) == ScanRow(p, q, measure, k, 0, b0)
      decreases |q| - l
    {
      var f := Pair(p, q, measure, k, l);
      SquareIsNatural(measure(Vec(q[l].x - p[k].x, q[l].y - p[k].y)));
      if f.dist < b.mindist {
        b := Best(f.dist, Some(f));
        mind := sqrt(b.mindist as real);
        far := (mind + 4.0) * (mind + 4.0);
        l := l + 1;
      } else if f.dist as real < far {
        l := l + 1;
      } else {
        FarRowSkips(p, q, measure, sqrt, k, l, b);
        l := l + Skip(sqrt(f.dist as real), mind);
      }
    }
  }

  lemma SquareIsNatural(v: Vec)
    ensures Sq(v) >= 0
  {
    assert v.x * v.x >= 0 && v.y * v.y >= 0;
  }

  // The nearest pair of points of the two polygons that is nearer than mindist.
  method FindMin(part1: seq<Vec>, part2: seq<Vec>, measure: Measure, mindist: int, sqrt: real -> real)
    returns (found: Option<Found>)
    requires IsRoot(sqrt) && Slow(part1, measure, sqrt) && Slow(part2, measure, sqrt) && 0 <= mindist
    ensures found == Nearest(part1, part2, measure, mindist)
  {
    var p, q, swap := part1, part2, false;
    if |p| > |q| {
      p, q, swap := q, p, true;
    }
    var b := Best(mindist, None);
    var k := 0;
    while k < |p|
      invariant 0 <= k <= |p| && 0 <= b.mindist
      invariant ScanAll(p, q, measure, k, b) == ScanAll(p, q, measure, 0, Best(mindist, None))
    {
      b := FindRow(p, q, measure, sqrt, k, b);
      k := k + 1;
    }
    if !swap || b.result.None? {
      return b.result;
    }
    var f := b.result.value;
    return Some(Found(f.dist, f.l, f.k, -f.dx, -f.dy));
  }

  // ---- Measures that fit ----

  // A coordinate difference on a ring of n places, taken the short way round.
  function Short(d: int, n: int): int
    requires 0 < n
  {
    (d + n / 2) % n - n / 2
  }

  function Plain(v: Vec): Vec { v }

  function Wrapping(width: int, height: int): Measure
    requires 0 < width && 0 < height
  {
    (v: Vec) => Vec(Short(v.x, width), Short(v.y, height))
  }

  // The points of a traced polygon follow each other by one step in one of the
  // eight directions.
  ghost predicate Connected(q: seq<Vec>) {
    forall l :: 0 <= l < |q| - 1 ==> -1 <= q[l + 1].x - q[l].x <= 1 && -1 <= q[l + 1].y - q[l].y <= 1
  }

  function Abs(v: int): nat { if v < 0 then -v else v }

  // Moving by at most one in each coordinate changes a distance by at most sqrt(2).
  lemma NormStep(sqrt: real -> real, m: int, n: int, m': int, n': int)
    requires IsRoot(sqrt) && 0 <= m <= m' + 1 && 0 <= n <= n' + 1 && 0 <= m' && 0 <= n'
    ensures sqrt((m' * m' + n' * n') as real) >= sqrt((m * m + n * n) as real) - sqrt(2.0)
  {
    var a, b, c := m * m + n * n, m' * m' + n' * n', m' + n';
    StepSquare(m, m');
    StepSquare(n, n');
    SumOfCasts(m, n);
    SumOfCasts(m', n');
    RealNormStep(a as real, b as real, c as real, sqrt(a as real), sqrt(b as real), sqrt(2.0), m' as real, n' as real);
  }

  lemma StepSquare(m: int, m': int)
    requires 0 <= m <= m' + 1 && 0 <= m'
    ensures m * m <= m' * m' + 2 * m' + 1
  {
    var t := m' + 1 - m;
    assert (m + t) * (m + t) == m * m + 2 * (m * t) + t * t;
    assert m * t >= 0 && t * t >= 0;
  }

  lemma SumOfCasts(m: nat, n: nat)
    ensures (m * m + n * n) as real == (m as real) * (m as real) + (n as real) * (n as real)
    ensures 0.0 <= (m * m + n * n) as real
  {
  }

  lemma RealNormStep(a: real, b: real, c: real, t: real, s: real, r: real, m: real, n: real)
    requires 0.0 <= t && 0.0 <= s && 0.0 <= r && t * t == a && s * s == b && r * r == 2.0
    requires 0.0 <= m && 0.0 <= n && b == m * m + n * n && c == m + n
    requires a <= b + 2.0 * c + 2.0
    ensures t <= s + r
  {
    Spread(s, r, m, n);
    assert (s + r) * (s + r) == s * s + 2.0 * (s * r) + r * r;
    SquareOrder(t, s + r);
  }

  lemma Spread(s: real, r: real, m: real, n: real)
    requires 0.0 <= s && 0.0 <= r && 0.0 <= m && 0.0 <= n && r * r == 2.0 && s * s == m * m + n * n
    ensures s * r >= m + n
  {
    assert (s * r) * (s * r) == (s * s) * (r * r);
    assert (m - n) * (m - n) >= 0.0;
    assert (m + n) * (m + n) == m * m + n * n + 2.0 * (m * n);
    SquareOrder(m + n, s * r);
  }

  lemma ShortStep(d: int, e: int, n: int)
    requires 0 < n && -1 <= e - d <= 1
    ensures Abs(Short(e, n)) <= Abs(Short(d, n)) + 1
  {
    var h := n / 2;
    var q, r := (d + h) / n, (d + h) % n;
    var t := r + e - d;
    if t < 0 {
      ModUnique(e + h, q - 1, n - 1, n);
    } else if t == n {
      ModUnique(e + h, q + 1, 0, n);
    } else {
      ModUnique(e + h, q, t, n);
    }
  }

  lemma SquareOfAbs(v: int)
    ensures Abs(v) * Abs(v) == v * v
  {
  }

  // Along a connected polygon both measures are slow enough for the skips.
  lemma PlainIsSlow(q: seq<Vec>, sqrt: real -> real)
    requires IsRoot(sqrt) && Connected(q)
    ensures Slow(q, Plain, sqrt)
  {
    forall p: Vec, l: nat | l + 1 < |q|
      ensures Dist(q, p, Plain, sqrt, l + 1) >= Dist(q, p, Plain, sqrt, l) - sqrt(2.0)
    {
      var a, b := Vec(q[l].x - p.x, q[l].y - p.y), Vec(q[l + 1].x - p.x, q[l + 1].y - p.y);
      SameSquares(a);
      SameSquares(b);
      NormStep(sqrt, Abs(a.x), Abs(a.y), Abs(b.x), Abs(b.y));
    }
  }

  lemma SameSquares(v: Vec)
    ensures Sq(v) == Abs(v.x) * Abs(v.x) + Abs(v.y) * Abs(v.y)
  {
    SquareOfAbs(v.x);
    SquareOfAbs(v.y);
  }

  lemma WrappingIsSlow(q: seq<Vec>, width: int, height: int, sqrt: real -> real)
    requires IsRoot(sqrt) && Connected(q) && 0 < width && 0 < height
    ensures Slow(q, Wrapping(width, height), sqrt)
  {
    var measure := Wrapping(width, height);
    forall p: Vec, l: nat | l + 1 < |q|
      ensures Dist(q, p, measure, sqrt, l + 1) >= Dist(q, p, measure, sqrt, l) - sqrt(2.0)
    {
      var a, b := Vec(q[l].x - p.x, q[l].y - p.y), Vec(q[l + 1].x - p.x, q[l + 1].y - p.y);
      ShortStep(b.x, a.x, width);
      ShortStep(b.y, a.y, height);
      SameSquares(measure(a));
      SameSquares(measure(b));
      NormStep(sqrt, Abs(measure(a).x), Abs(measure(a).y), Abs(measure(b).x), Abs(measure(b).y));
    }
  }

  // All pairs are at least that far apart.
  ghost predicate NoneNearer(p: seq<Vec>, q: seq<Vec>, measure: Measure, dist: int) {
    forall i, j :: 0 <= i < |p| && 0 <= j < |q| ==> dist <= Pair(p, q, measure, i, j).dist
  }

  ghost predicate IsNearest(p: seq<Vec>, q: seq<Vec>, measure: Measure, mindist: int, r: Option<Found>) {
    match r
    case None => NoneNearer(p, q, measure, mindist)
    case Some(f) => f.dist < mindist && IsPair(p, q, measure, f) && NoneNearer(p, q, measure, f.dist)
  }

  // So the skips find what the full double loop finds: a pair of least distance
  // if any pair is nearer than mindist, and nothing otherwise.
  lemma NearestIsLeast(p: seq<Vec>, q: seq<Vec>, measure: Measure, mindist: int)
    ensures var r := Nearest(p, q, measure, mindist);
      if |p| > |q| then IsNearest(q, p, measure, mindist, Turned(r)) else IsNearest(p, q, measure, mindist, r)
  {
    if |p| > |q| {
      ScanImproves(q, p, measure, 0, Best(mindist, None));
    } else {
      ScanImproves(p, q, measure, 0, Best(mindist, None));
    }
  }
}
