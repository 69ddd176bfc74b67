/** What poly_link of mapconvert.py keeps while it links the polygons of a part one
    by one. */
module PrimTree {
  import opened Arith
  import opened BlockMap
  import opened EdgeTrace
  import opened FindMin
  import opened Options
  import opened PolyTree
  import opened PolyOnce

  // The distance that every polygon has before any other has been looked at, and
  // the one that the search for the nearest polygon starts with.
  const TEN_TO_33 := 1_000_000_000_000_000_000_000_000_000_000_000
  const FAR := TEN_TO_33 * TEN_TO_33 * TEN_TO_33
  const FARTHER := 10 * FAR

  // The polygons of a part, how offsets between points are taken, and the size of the map.
  datatype Part = Part(polys: seq<Poly>, measure: Measure, sqrt: real -> real, width: int, height: int)

  function Points(poly: Poly): seq<Vec> {
    seq(|poly|, i requires 0 <= i < |poly| => Vec(poly[i].x, poly[i].y))
  }

  function Opposite(v: Vec): Vec { Vec(-v.x, -v.y) }

  // The way there is as long as the way back, and wrapping an offset changes it by
  // whole map sizes.
  ghost predicate MeasureFits(measure: Measure, w: int, h: int)
    requires 0 < w && 0 < h
  {
    && (forall v {:trigger Opposite(v)} :: Sq(measure(Opposite(v))) == Sq(measure(v)))
    && (forall v {:trigger measure(v)} :: Same(measure(v).x, measure(v).y, v.x, v.y, w, h))
  }

  function Gap(c: Part, v: int, i: int, u: int, l: int): int
    requires 0 <= v < |c.polys| && 0 <= i < |c.polys[v]| && 0 <= u < |c.polys| && 0 <= l < |c.polys[u]|
  {
    Sq(c.measure(Vec(c.polys[u][l].x - c.polys[v][i].x, c.polys[u][l].y - c.polys[v][i].y)))
  }

  ghost predicate AtLeast(c: Part, v: int, u: int, dist: int)
    requires 0 <= v < |c.polys| && 0 <= u < |c.polys|
  {
    forall i, l :: 0 <= i < |c.polys[v]| && 0 <= l < |c.polys[u]| ==> dist <= Gap(c, v, i, u, l)
  }

  ghost predicate PartFits(c: Part) {
    && 0 < c.width && 0 < c.height && IsRoot(c.sqrt) && MeasureFits(c.measure, c.width, c.height)
    && (forall v :: 0 <= v < |c.polys| ==> PolyFits(c, v))
    && (forall v, u :: 0 <= v < |c.polys| && 0 <= u < |c.polys| ==> IsWithin(c, v, u))
  }

  ghost predicate PolyFits(c: Part, v: int)
    requires 0 < c.width && 0 < c.height && 0 <= v < |c.polys|
  {
    c.polys[v] != [] && ClosedOn(c.polys[v], c.width, c.height) && Slow(Points(c.polys[v]), c.measure, c.sqrt)
  }

  // All distances are below the one that stands for none.
  ghost predicate IsWithin(c: Part, v: int, u: int)
    requires 0 <= v < |c.polys| && 0 <= u < |c.polys|
  {
    forall i, l :: 0 <= i < |c.polys[v]| && 0 <= l < |c.polys[u]| ==> Gap(c, v, i, u, l) < FAR
  }

  // f is a way from polygon v to polygon u.
  ghost predicate IsWay(c: Part, v: int, u: int, f: Found)
    requires 0 < c.width && 0 < c.height && 0 <= v < |c.polys| && 0 <= u < |c.polys|
  {
    && 0 <= f.k < |c.polys[v]| && 0 <= f.l < |c.polys[u]|
    && f.dist == Sq(Vec(f.dx, f.dy)) == Gap(c, v, f.k, u, f.l)
    && var p, q := c.polys[v][f.k], c.polys[u][f.l];
       Same(p.x + f.dx, p.y + f.dy, q.x, q.y, c.width, c.height)
  }

  // What findmin finds between two polygons.
  lemma NearestGap(c: Part, v: int, u: int, mindist: int)
    requires PartFits(c) && 0 <= v < |c.polys| && 0 <= u < |c.polys|
    ensures match Nearest(Points(c.polys[v]), Points(c.polys[u]), c.measure, mindist)
            case None => AtLeast(c, v, u, mindist)
            case Some(f) => f.dist < mindist && IsWay(c, v, u, f) && AtLeast(c, v, u, f.dist)
  {
    var p, q := Points(c.polys[v]), Points(c.polys[u]);
    var r := Nearest(p, q, c.measure, mindist);
    var least := if r.Some? then r.value.dist else mindist;
    NearestIsLeast(p, q, c.measure, mindist);
    if |p| > |q| {
      AtLeastTurned(c, v, u, least);
    } else {
      AtLeastPlain(c, v, u, least);
    }
    if r.Some? {
      FoundIsWay(c, v, u, r.value, |p| > |q|);
    }
  }

  lemma AtLeastPlain(c: Part, v: int, u: int, dist: int)
    requires PartFits(c) && 0 <= v < |c.polys| && 0 <= u < |c.polys|
    requires NoneNearer(Points(c.polys[v]), Points(c.polys[u]), c.measure, dist)
    ensures AtLeast(c, v, u, dist)
  {
    forall i, l | 0 <= i < |c.polys[v]| && 0 <= l < |c.polys[u]|
      ensures dist <= Gap(c, v, i, u, l)
    {
      assert dist <= Pair(Points(c.polys[v]), Points(c.polys[u]), c.measure, i, l).dist;
    }
  }

  lemma AtLeastTurned(c: Part, v: int, u: int, dist: int)
    requires PartFits(c) && 0 <= v < |c.polys| && 0 <= u < |c.polys|
    requires NoneNearer(Points(c.polys[u]), Points(c.polys[v]), c.measure, dist)
    ensures AtLeast(c, v, u, dist)
  {
    forall i, l | 0 <= i < |c.polys[v]| && 0 <= l < |c.polys[u]|
      ensures dist <= Gap(c, v, i, u, l)
    {
      GapBothWays(c, v, i, u, l);
    }
  }

  lemma GapBothWays(c: Part, v: int, i: int, u: int, l: int)
    requires PartFits(c) && 0 <= v < |c.polys| && 0 <= i < |c.polys[v]| && 0 <= u < |c.polys| && 0 <= l < |c.polys[u]|
    ensures Pair(Points(c.polys[u]), Points(c.polys[v]), c.measure, l, i).dist == Gap(c, v, i, u, l)
  {
    var p, q := c.polys[v][i], c.polys[u][l];
    var d := Vec(q.x - p.x, q.y - p.y);
    assert Opposite(d) == Vec(p.x - q.x, p.y - q.y);
  }

  lemma FoundIsWay(c: Part, v: int, u: int, f: Found, swap: bool)
    requires PartFits(c) && 0 <= v < |c.polys| && 0 <= u < |c.polys|
    requires var p, q := Points(c.polys[v]), Points(c.polys[u]);
      if swap then IsPair(q, p, c.measure, Found(f.dist, f.l, f.k, -f.dx, -f.dy)) else IsPair(p, q, c.measure, f)
    ensures IsWay(c, v, u, f)
  {
    var p, q := c.polys[v][f.k], c.polys[u][f.l];
    var d := Vec(q.x - p.x, q.y - p.y);
    if swap {
      GapBothWays(c, v, f.k, u, f.l);
      assert Opposite(d) == Vec(p.x - q.x, p.y - q.y);
      var e := c.measure(Opposite(d));
      SignOfSquare(f.dx, f.dy);
      FlipSign(e.x, -d.x, c.width);
      FlipSign(e.y, -d.y, c.height);
    }
    AddTo(p.x, f.dx, d.x, c.width);
    AddTo(p.y, f.dy, d.y, c.height);
  }

  lemma SignOfSquare(x: int, y: int)
    ensures Sq(Vec(-x, -y)) == Sq(Vec(x, y))
  {
  }

  lemma FlipSign(a: int, b: int, n: int)
    requires 0 < n && Congruent(a, b, n)
    ensures Congruent(-a, -b, n)
  {
    var q :| a - b == Times(q, n);
    assert -a - -b == Times(-q, n);
  }

  lemma AddTo(p: int, a: int, b: int, n: int)
    requires 0 < n && Congruent(a, b, n)
    ensures Congruent(p + a, p + b, n)
  {
    CongruentSelf(p, n);
    CongruentSum(p, p, a, b, n);
  }

  // ---- The links made so far ----

  // The order in which the polygons have been linked, and where each of them hangs.
  ghost predicate IsPlaced(k: Shape, order: seq<int>, u: int) {
    0 <= u < |k.rank| && k.rank[u] < |order| && order[k.rank[u]] == u
  }

  ghost predicate Growing(c: Part, links: seq<seq<Link>>, k: Shape, order: seq<int>)
    requires 0 < c.width && 0 < c.height
  {
    && |links| == |k.rank| == |k.parent| == |k.slot| == |c.polys|
    && |order| > 0 && order[0] == k.root
    && (forall p :: 0 <= p < |order| ==> InOrder(k, order, p))
    && (forall v, a :: 0 <= v < |links| && 0 <= a < |links[v]| ==> LinkPlaced(c, links, k, order, v, a))
    && (forall u :: IsPlaced(k, order, u) && u != k.root ==> Hangs(links, k, u))
  }

  ghost predicate InOrder(k: Shape, order: seq<int>, p: int)
    requires 0 <= p < |order|
  {
    0 <= order[p] < |k.rank| && k.rank[order[p]] == p
  }

  ghost predicate LinkPlaced(c: Part, links: seq<seq<Link>>, k: Shape, order: seq<int>, v: int, a: int)
    requires 0 < c.width && 0 < c.height && |links| == |k.rank| == |k.parent| == |k.slot| == |c.polys|
    requires 0 <= v < |links| && 0 <= a < |links[v]|
  {
    var l := links[v][a];
    && IsPlaced(k, order, v) && IsPlaced(k, order, l.target) && k.rank[v] < k.rank[l.target] && l.target != k.root
    && k.parent[l.target] == v && k.slot[l.target] == a
    && IsWay(c, v, l.target, Found(Sq(Vec(l.dx, l.dy)), l.start, l.targetIndex, l.dx, l.dy))
  }

  ghost predicate Hangs(links: seq<seq<Link>>, k: Shape, u: int)
    requires |links| == |k.parent| == |k.slot| && 0 <= u < |links|
  {
    && 0 <= k.parent[u] < |links| && 0 <= k.slot[u] < |links[k.parent[u]]|
    && links[k.parent[u]][k.slot[u]].target == u
  }

  // The link to u is no longer than any way from a polygon linked before it to one
  // that was not.
  ghost predicate IsShortest(c: Part, links: seq<seq<Link>>, k: Shape, order: seq<int>, u: int)
    requires |links| == |k.rank| == |k.parent| == |k.slot| == |c.polys| && 0 <= u < |links| && Hangs(links, k, u)
  {
    var l := links[k.parent[u]][k.slot[u]];
    forall v, z {:trigger AtLeast(c, v, z, Sq(Vec(l.dx, l.dy)))} ::
      IsPlaced(k, order, v) && k.rank[v] < k.rank[u] && 0 <= z < |c.polys|
        && !(IsPlaced(k, order, z) && k.rank[z] < k.rank[u])
      ==> AtLeast(c, v, z, Sq(Vec(l.dx, l.dy)))
  }

  // Each step adds the polygon nearest to any already linked.
  ghost predicate AddsNearest(c: Part, links: seq<seq<Link>>, k: Shape, order: seq<int>)
    requires 0 < c.width && 0 < c.height && Growing(c, links, k, order)
  {
    forall u :: IsPlaced(k, order, u) && u != k.root ==> IsShortest(c, links, k, order, u)
  }

  function Grown(k: Shape, order: seq<int>, links: seq<seq<Link>>, v: int, u: int): Shape
    requires |links| == |k.rank| == |k.parent| == |k.slot| && 0 <= u < |links| && 0 <= v < |links|
  {
    Shape(k.root, k.rank[u := |order|], k.parent[u := v], k.slot[u := |links[v]|])
  }

  function Attached(links: seq<seq<Link>>, v: int, l: Link): seq<seq<Link>>
    requires 0 <= v < |links|
  {
    links[v := links[v] + [l]]
  }

  // Linking one more polygon keeps all this.
  lemma GrowsOn(c: Part, links: seq<seq<Link>>, k: Shape, order: seq<int>, v: int, l: Link)
    requires 0 < c.width && 0 < c.height && Growing(c, links, k, order) && IsPlaced(k, order, v)
    requires 0 <= l.target < |c.polys| && !IsPlaced(k, order, l.target)
    requires IsWay(c, v, l.target, Found(Sq(Vec(l.dx, l.dy)), l.start, l.targetIndex, l.dx, l.dy))
    ensures Growing(c, Attached(links, v, l), Grown(k, order, links, v, l.target), order + [l.target])
  {
    var u := l.target;
    var links', k', order' := Attached(links, v, l), Grown(k, order, links, v, u), order + [u];
    StaysPlaced(k, order, k', u);
    forall p | 0 <= p < |order'|
      ensures InOrder(k', order', p)
    {
      assert p < |order| ==> InOrder(k, order, p);
    }
    forall z, a | 0 <= z < |links'| && 0 <= a < |links'[z]|
      ensures LinkPlaced(c, links', k', order', z, a)
    {
      LinkStaysPlaced(c, links, k, order, v, l, z, a);
    }
    forall z | IsPlaced(k', order', z) && z != k'.root
      ensures Hangs(links', k', z)
    {
      if z != u {
        HangsOn(c, links, k, order, v, l, z);
      }
    }
  }

  lemma LinkStaysPlaced(c: Part, links: seq<seq<Link>>, k: Shape, order: seq<int>, v: int, l: Link, z: int, a: int)
    requires 0 < c.width && 0 < c.height && Growing(c, links, k, order) && IsPlaced(k, order, v)
    requires 0 <= l.target < |c.polys| && !IsPlaced(k, order, l.target)
    requires IsWay(c, v, l.target, Found(Sq(Vec(l.dx, l.dy)), l.start, l.targetIndex, l.dx, l.dy))
    requires 0 <= z < |links| && 0 <= a < |Attached(links, v, l)[z]|
    ensures LinkPlaced(c, Attached(links, v, l), Grown(k, order, links, v, l.target), order + [l.target], z, a)
  {
    var u := l.target;
    StaysPlaced(k, order, Grown(k, order, links, v, u), u);
    if z == v && a == |links[v]| {
      assert IsPlaced(k, order, k.root) by {
        assert InOrder(k, order, 0);
      }
    } else {
      assert LinkPlaced(c, links, k, order, z, a);
    }
  }

  lemma HangsOn(c: Part, links: seq<seq<Link>>, k: Shape, order: seq<int>, v: int, l: Link, z: int)
    requires 0 < c.width && 0 < c.height && Growing(c, links, k, order) && 0 <= v < |links|
    requires 0 <= l.target < |c.polys| && z != l.target && IsPlaced(k, order, z) && z != k.root
    ensures Hangs(links, k, z) && Hangs(Attached(links, v, l), Grown(k, order, links, v, l.target), z)
  {
    assert Hangs(links, k, z);
  }

  lemma StaysPlaced(k: Shape, order: seq<int>, k': Shape, u: int)
    requires 0 <= u < |k.rank| && !IsPlaced(k, order, u) && k'.rank == k.rank[u := |order|]
    ensures forall z :: IsPlaced(k', order + [u], z) <==> z == u || IsPlaced(k, order, z)
  {
    forall z
      ensures IsPlaced(k', order + [u], z) <==> z == u || IsPlaced(k, order, z)
    {
      if z != u && 0 <= z < |k.rank| && k.rank[z] < |order| {
        assert (order + [u])[k.rank[z]] == order[k.rank[z]];
      }
    }
  }

  lemma NearestOn(c: Part, links: seq<seq<Link>>, k: Shape, order: seq<int>, v: int, l: Link)
    requires 0 < c.width && 0 < c.height && Growing(c, links, k, order) && AddsNearest(c, links, k, order)
    requires IsPlaced(k, order, v) && 0 <= l.target < |c.polys| && !IsPlaced(k, order, l.target)
    requires IsWay(c, v, l.target, Found(Sq(Vec(l.dx, l.dy)), l.start, l.targetIndex, l.dx, l.dy))
    requires forall y, z {:trigger AtLeast(c, y, z, Sq(Vec(l.dx, l.dy)))} ::
      IsPlaced(k, order, y) && 0 <= z < |c.polys| && !IsPlaced(k, order, z) ==> AtLeast(c, y, z, Sq(Vec(l.dx, l.dy)))
    ensures Growing(c, Attached(links, v, l), Grown(k, order, links, v, l.target), order + [l.target])
    ensures AddsNearest(c, Attached(links, v, l), Grown(k, order, links, v, l.target), order + [l.target])
  {
    GrowsOn(c, links, k, order, v, l);
    var links', k', order' := Attached(links, v, l), Grown(k, order, links, v, l.target), order + [l.target];
    StaysPlaced(k, order, k', l.target);
    forall u | IsPlaced(k', order', u) && u != k.root
      ensures IsShortest(c, links', k', order', u)
    {
      assert Hangs(links', k', u);
      if u != l.target {
        assert IsPlaced(k, order, u) && Hangs(links, k, u) && IsShortest(c, links, k, order, u);
        assert links'[k'.parent[u]][k'.slot[u]] == links[k.parent[u]][k.slot[u]];
      }
    }
  }

  // When all polygons are linked, the links are a tree that fits the map.
  lemma GrownIsTree(c: Part, links: seq<seq<Link>>, k: Shape, order: seq<int>)
    requires PartFits(c) && Growing(c, links, k, order) && |order| == |c.polys|
    requires forall u :: 0 <= u < |c.polys| ==> IsPlaced(k, order, u)
    ensures IsRooted(Forest(c.polys, links), k) && FitsMap(Forest(c.polys, links), c.width, c.height)
  {
    var t := Forest(c.polys, links);
    forall v | 0 <= v < |c.polys|
      ensures c.polys[v] != [] && k.rank[v] < |k.rank| && ClosedOn(c.polys[v], c.width, c.height)
    {
      assert PolyFits(c, v) && IsPlaced(k, order, v);
    }
    forall v, a | 0 <= v < |links| && 0 <= a < |links[v]|
      ensures LinkFits(t, k.rank, v, links[v][a]) && IsParent(t, k, v, a) && Spans(t, v, links[v][a], c.width, c.height)
    {
      assert LinkPlaced(c, links, k, order, v, a);
    }
    forall u | 0 <= u < |c.polys| && u != k.root
      ensures HasParent(t, k, u)
    {
      assert IsPlaced(k, order, u) && Hangs(links, k, u);
    }
    assert InOrder(k, order, 0);
  }

  // A chain of polygons from the root to another one.
  ghost predicate IsChain(c: Part, k: Shape, chain: seq<int>, u: int) {
    && chain != [] && chain[0] == k.root && chain[|chain| - 1] == u
    && forall i :: 0 <= i < |chain| ==> 0 <= chain[i] < |c.polys|
  }

  function LinkLength(links: seq<seq<Link>>, k: Shape, u: int): int
    requires |links| == |k.parent| == |k.slot| && 0 <= u < |links| && Hangs(links, k, u)
  {
    var l := links[k.parent[u]][k.slot[u]];
    Sq(Vec(l.dx, l.dy))
  }

  lemma {:induction false} ChainCrosses(k: Shape, order: seq<int>, chain: seq<int>, r: int) returns (i: int)
    requires |chain| > 0 && IsPlaced(k, order, chain[0]) && k.rank[chain[0]] < r
    requires var u := chain[|chain| - 1]; !(IsPlaced(k, order, u) && k.rank[u] < r)
    ensures 0 <= i < |chain| - 1 && IsPlaced(k, order, chain[i]) && k.rank[chain[i]] < r
    ensures !(IsPlaced(k, order, chain[i + 1]) && k.rank[chain[i + 1]] < r)
  {
    i := 0;
    if IsPlaced(k, order, chain[1]) && k.rank[chain[1]] < r {
      i := ChainCrosses(k, order, chain[1..], r);
      i := i + 1;
    }
  }

  // The links on the way from the root to a polygon are the shortest possible in
  // this sense: any other chain of polygons from the root to it has a hop that is
  // at least as long as the longest of those links.
  lemma LinksAreBottlenecks(c: Part, links: seq<seq<Link>>, k: Shape, order: seq<int>, u: int, a: int, chain: seq<int>)
    requires PartFits(c) && Growing(c, links, k, order) && AddsNearest(c, links, k, order)
    requires IsRooted(Forest(c.polys, links), k) && 0 <= u < |c.polys| && IsChain(c, k, chain, u)
    requires 0 <= a < |c.polys| && a != k.root && IsPlaced(k, order, a) && Below(Forest(c.polys, links), k, a, u)
    ensures Hangs(links, k, a)
    ensures exists i :: 0 <= i < |chain| - 1 && AtLeast(c, chain[i], chain[i + 1], LinkLength(links, k, a))
  {
    var t := Forest(c.polys, links);
    BelowIsHigher(t, k, a, u);
    assert Hangs(links, k, a) && IsShortest(c, links, k, order, a);
    assert InOrder(k, order, 0) && IsPlaced(k, order, k.root);
    RootIsAbove(t, k, a);
    BelowIsHigher(t, k, k.root, a);
    var i := ChainCrosses(k, order, chain, k.rank[a]);
    assert AtLeast(c, chain[i], chain[i + 1], LinkLength(links, k, a));
  }

  // ---- The nearest polygon ----

  // The shortest known way to a polygon from one already linked.
  datatype Near = Near(dist: int, k: int, l: int, dx: int, dy: int, from: int)

  const NOT_SEEN := Near(FAR, 0, 0, 0, 0, -1)

  function Way(b: Near): Found { Found(b.dist, b.k, b.l, b.dx, b.dy) }

  // b is the shortest way to polygon j from those in the list.
  ghost predicate IsBest(c: Part, seen: seq<int>, b: Near, j: int)
    requires 0 < c.width && 0 < c.height && 0 <= j < |c.polys|
  {
    if seen == [] then b.dist == FAR
    else
      && b.from in seen && 0 <= b.from < |c.polys| && IsWay(c, b.from, j, Way(b))
      && forall v :: v in seen && 0 <= v < |c.polys| ==> AtLeast(c, v, j, b.dist)
  }

  function Updated(b: Near, r: Option<Found>, from: int): Near {
    match r
    case None => b
    case Some(f) => Near(f.dist, f.k, f.l, f.dx, f.dy, from)
  }

  lemma UpdatedIsBest(c: Part, seen: seq<int>, last: int, b: Near, j: int)
    requires PartFits(c) && 0 <= j < |c.polys| && 0 <= last < |c.polys| && IsBest(c, seen, b, j)
    ensures IsBest(c, seen + [last],
      Updated(b, Nearest(Points(c.polys[last]), Points(c.polys[j]), c.measure, b.dist), last), j)
  {
    NearestGap(c, last, j, b.dist);
    var r := Nearest(Points(c.polys[last]), Points(c.polys[j]), c.measure, b.dist);
    var b' := Updated(b, r, last);
    assert PolyFits(c, last) && PolyFits(c, j) && IsWithin(c, last, j);
    assert Gap(c, last, 0, j, 0) < FAR;
    forall v | v in seen && 0 <= v < |c.polys|
      ensures AtLeast(c, v, j, b'.dist)
    {
      assert AtLeast(c, v, j, b.dist);
    }
  }

  // ---- The state of the linking ----

  ghost predicate Progress(c: Part, links: seq<seq<Link>>, best: seq<Near>, left: seq<int>,
    k: Shape, order: seq<int>, seen: seq<int>)
  {
    Linking(c, links, left, k, order) && |best| == |c.polys| && AreBest(c, seen, best, left, 0, |left|)
  }

  ghost predicate Linking(c: Part, links: seq<seq<Link>>, left: seq<int>, k: Shape, order: seq<int>) {
    && PartFits(c) && Growing(c, links, k, order) && AddsNearest(c, links, k, order)
    && |c.polys| == |left| + |order|
    && (forall u :: 0 <= u < |c.polys| ==> (u in left <==> !IsPlaced(k, order, u)))
    && (forall p, q :: 0 <= p < q < |left| ==> left[p] != left[q])
    && (forall p :: 0 <= p < |left| ==> 0 <= left[p] < |c.polys|)
  }

  // The ways to the polygons left from the p-th to before the q-th are the shortest.
  ghost predicate AreBest(c: Part, seen: seq<int>, best: seq<Near>, left: seq<int>, p: int, q: int)
    requires 0 < c.width && 0 < c.height && |best| == |c.polys| && 0 <= p <= q <= |left|
    requires forall i :: 0 <= i < |left| ==> 0 <= left[i] < |c.polys|
  {
    forall i :: p <= i < q ==> IsBest(c, seen, best[left[i]], left[i])
  }

  lemma OneMoreBest(c: Part, links: seq<seq<Link>>, k: Shape, order: seq<int>, seen: seq<int>,
    best: seq<Near>, b: Near, left: seq<int>, p: int)
    requires Linking(c, links, left, k, order) && |best| == |c.polys| && 0 <= p < |left|
    requires AreBest(c, order, best, left, 0, p) && AreBest(c, seen, best, left, p, |left|)
    requires IsBest(c, order, b, left[p])
    ensures AreBest(c, order, best[left[p] := b], left, 0, p + 1)
    ensures AreBest(c, seen, best[left[p] := b], left, p + 1, |left|)
  {
  }

  function Dropped(left: seq<int>, p: nat): seq<int>
    requires p < |left|
  {
    left[..p] + left[p + 1..]
  }

  lemma DroppedLeavesOthers(left: seq<int>, p: nat)
    requires p < |left| && forall i, j :: 0 <= i < j < |left| ==> left[i] != left[j]
    ensures forall u :: u in Dropped(left, p) <==> u in left && u != left[p]
    ensures forall i, j :: 0 <= i < j < |left| - 1 ==> Dropped(left, p)[i] != Dropped(left, p)[j]
  {
    forall u
      ensures u in Dropped(left, p) <==> u in left && u != left[p]
    {
      if u in left && u != left[p] {
        var i :| 0 <= i < |left| && left[i] == u;
        assert Dropped(left, p)[if i < p then i else i - 1] == u;
      }
    }
  }

  function LinkTo(b: Near, u: int): Link { Link(b.k, u, b.l, b.dx, b.dy) }

  lemma NearestOfAll(c: Part, links: seq<seq<Link>>, best: seq<Near>, left: seq<int>, k: Shape, order: seq<int>, p: nat)
    requires Progress(c, links, best, left, k, order, order) && p < |left|
    requires forall q :: 0 <= q < |left| ==> best[left[p]].dist <= best[left[q]].dist
    ensures var d := best[left[p]].dist;
      forall y, z {:trigger AtLeast(c, y, z, d)} ::
        IsPlaced(k, order, y) && 0 <= z < |c.polys| && !IsPlaced(k, order, z) ==> AtLeast(c, y, z, d)
  {
    PlacedIsInOrder(c, links, k, order);
    var d := best[left[p]].dist;
    forall y, z | IsPlaced(k, order, y) && 0 <= z < |c.polys| && !IsPlaced(k, order, z)
      ensures AtLeast(c, y, z, d)
    {
      var q :| 0 <= q < |left| && left[q] == z;
      assert IsBest(c, order, best[z], z) && AtLeast(c, y, z, best[z].dist);
      LessIsAtLeast(c, y, z, best[z].dist, d);
    }
  }

  // The p-th polygon left is the nearest one: linking it keeps the state.
  lemma LinkNearest(c: Part, links: seq<seq<Link>>, best: seq<Near>, left: seq<int>, k: Shape, order: seq<int>, p: nat)
    requires Progress(c, links, best, left, k, order, order) && p < |left|
    requires forall q :: 0 <= q < |left| ==> best[left[p]].dist <= best[left[q]].dist
    ensures 0 <= best[left[p]].from < |links|
    ensures var u := left[p]; var v := best[u].from;
      Progress(c, Attached(links, v, LinkTo(best[u], u)), best, Dropped(left, p),
        Grown(k, order, links, v, u), order + [u], order)
  {
    var u := left[p];
    var b := best[u];
    var l := LinkTo(b, u);
    assert IsBest(c, order, b, u);
    PlacedIsInOrder(c, links, k, order);
    assert IsPlaced(k, order, b.from);
    NearestOfAll(c, links, best, left, k, order, p);
    NearestOn(c, links, k, order, b.from, l);
    DroppedLeavesOthers(left, p);
    StaysPlaced(k, order, Grown(k, order, links, b.from, u), u);
    DroppedAreBest(c, links, best, left, k, order, p);
  }

  lemma DroppedAreBest(c: Part, links: seq<seq<Link>>, best: seq<Near>, left: seq<int>, k: Shape,
                        order: seq<int>, p: nat)
    requires Progress(c, links, best, left, k, order, order) && p < |left|
    ensures forall q :: 0 <= q < |left| - 1 ==> 0 <= Dropped(left, p)[q] < |c.polys|
    ensures AreBest(c, order, best, Dropped(left, p), 0, |left| - 1)
  {
    forall q | 0 <= q < |left| - 1
      ensures 0 <= Dropped(left, p)[q] < |c.polys|
      ensures IsBest(c, order, best[Dropped(left, p)[q]], Dropped(left, p)[q])
    {
      assert Dropped(left, p)[q] == left[if q < p then q else q + 1];
    }
  }

  lemma LessIsAtLeast(c: Part, v: int, u: int, dist: int, d: int)
    requires 0 <= v < |c.polys| && 0 <= u < |c.polys| && AtLeast(c, v, u, dist) && d <= dist
    ensures AtLeast(c, v, u, d)
  {
  }

  lemma PlacedIsInOrder(c: Part, links: seq<seq<Link>>, k: Shape, order: seq<int>)
    requires 0 < c.width && 0 < c.height && Growing(c, links, k, order)
    ensures forall u :: IsPlaced(k, order, u) <==> u in order
  {
    forall u
      ensures IsPlaced(k, order, u) <==> u in order
    {
      if u in order {
        var p :| 0 <= p < |order| && order[p] == u;
        assert InOrder(k, order, p);
      }
    }
  }

  // Once some polygon has been seen, all the others have a way to it.
  lemma BestIsWithin(c: Part, seen: seq<int>, b: Near, j: int)
    requires PartFits(c) && 0 <= j < |c.polys| && seen != [] && IsBest(c, seen, b, j)
    ensures b.dist < FAR
  {
    assert IsWithin(c, b.from, j);
  }

  lemma BestIsNatural(c: Part, seen: seq<int>, b: Near, j: int)
    requires PartFits(c) && 0 <= j < |c.polys| && IsBest(c, seen, b, j)
    ensures 0 <= b.dist
  {
    SquareIsNatural(Vec(b.dx, b.dy));
  }

  // Only the root is linked at first.
  lemma StartFits(c: Part, links: seq<seq<Link>>, left: seq<int>, k: Shape)
    requires PartFits(c) && c.polys != []
    requires var n := |c.polys|;
      && links == seq(n, i => []) && left == seq(n - 1, i => i)
      && k == Shape(n - 1, seq(n, i => 0), seq(n, i => 0), seq(n, i => 0))
    ensures Progress(c, links, seq(|c.polys|, i => NOT_SEEN), left, k, [|c.polys| - 1], [])
  {
    var order := [|c.polys| - 1];
    forall u | 0 <= u < |c.polys|
      ensures u in left <==> !IsPlaced(k, order, u)
    {
      assert u < |c.polys| - 1 ==> left[u] == u;
    }
    assert forall p :: 0 <= p < |order| ==> InOrder(k, order, p);
  }

  // ---- The measures of the source fit ----

  lemma PlainFits(w: int, h: int)
    requires 0 < w && 0 < h
    ensures MeasureFits(Plain, w, h)
  {
    forall v
      ensures Same(Plain(v).x, Plain(v).y, v.x, v.y, w, h)
    {
      CongruentSelf(v.x, w);
      CongruentSelf(v.y, h);
    }
    forall v
      ensures Sq(Plain(Opposite(v))) == Sq(Plain(v))
    {
      SignOfSquare(v.x, v.y);
    }
  }

  lemma ShortIsCongruent(d: int, n: int)
    requires 0 < n
    ensures Congruent(Short(d, n), d, n)
  {
    assert Short(d, n) - d == Times(-((d + n / 2) / n), n);
  }

  lemma ShortRange(d: int, n: int)
    requires 0 < n
    ensures -n <= 2 * Short(d, n) < n
  {
    var r := (d + n / 2) % n;
    assert 0 <= r < n && Short(d, n) == r - n / 2;
  }

  // No other offset to the same place on the ring is shorter.
  lemma ShortIsLeast(d: int, u: int, n: int)
    requires 0 < n && Congruent(u, d, n)
    ensures Short(d, n) * Short(d, n) <= u * u
  {
    ShortRange(d, n);
    ShortIsCongruent(d, n);
    var p :| Short(d, n) - d == Times(p, n);
    var q :| u - d == Times(q, n);
    TimesMinus(q, p, n);
    LeastOfRing(Short(d, n), u, q - p, n);
  }

  lemma TimesMinus(q: int, p: int, n: int)
    ensures Times(q, n) - Times(p, n) == Times(q - p, n)
  {
  }

  lemma TimesAway(t: int, n: int)
    requires 0 < n
    ensures 0 < t ==> n <= Times(t, n)
    ensures t < 0 ==> Times(t, n) <= -n
    ensures t == 0 ==> Times(t, n) == 0
  {
  }

  lemma LeastOfRing(s: int, u: int, t: int, n: int)
    requires 0 < n && -n <= 2 * s < n && u == s + Times(t, n)
    ensures s * s <= u * u
  {
    TimesAway(t, n);
    assert 0 <= Abs(u) + s && s <= Abs(u);
    SquareWithin(s, Abs(u));
    SquareOfAbs(u);
  }

  // Wrapping gives the shortest of all offsets that lead to the same place on the map.
  lemma WrappingIsShortest(v: Vec, u: Vec, w: int, h: int)
    requires 0 < w && 0 < h && Same(u.x, u.y, v.x, v.y, w, h)
    ensures Sq(Wrapping(w, h)(v)) <= Sq(u)
  {
    ShortIsLeast(v.x, u.x, w);
    ShortIsLeast(v.y, u.y, h);
  }

  // No offset on the map from a point of polygon v to one of polygon u, however often it
  // goes round the map, is shorter.
  ghost predicate AtLeastAround(c: Part, v: int, u: int, dist: int)
    requires 0 < c.width && 0 < c.height && 0 <= v < |c.polys| && 0 <= u < |c.polys|
  {
    forall i, l, o: Vec :: 0 <= i < |c.polys[v]| && 0 <= l < |c.polys[u]| && LeadsTo(c, v, i, u, l, o) ==> dist <= Sq(o)
  }

  ghost predicate LeadsTo(c: Part, v: int, i: int, u: int, l: int, o: Vec)
    requires 0 < c.width && 0 < c.height
    requires 0 <= v < |c.polys| && 0 <= i < |c.polys[v]| && 0 <= u < |c.polys| && 0 <= l < |c.polys[u]|
  {
    Same(o.x, o.y, c.polys[u][l].x - c.polys[v][i].x, c.polys[u][l].y - c.polys[v][i].y, c.width, c.height)
  }

  // So what is nearest for the wrapping measure is nearest on the map.
  lemma NearestAround(c: Part, v: int, u: int, dist: int)
    requires 0 < c.width && 0 < c.height && 0 <= v < |c.polys| && 0 <= u < |c.polys|
    requires c.measure == Wrapping(c.width, c.height) && AtLeast(c, v, u, dist)
    ensures AtLeastAround(c, v, u, dist)
  {
    forall i, l, o: Vec | 0 <= i < |c.polys[v]| && 0 <= l < |c.polys[u]| && LeadsTo(c, v, i, u, l, o)
      ensures dist <= Sq(o)
    {
      var d := Vec(c.polys[u][l].x - c.polys[v][i].x, c.polys[u][l].y - c.polys[v][i].y);
      WrappingIsShortest(d, o, c.width, c.height);
      assert dist <= Gap(c, v, i, u, l);
    }
  }

  // Turning an offset round keeps how far it is, and half way round stays half way.
  lemma ShortTurned(d: int, n: int)
    requires 0 < n
    ensures Short(-d, n) == -Short(d, n) || Short(-d, n) == Short(d, n)
  {
    var h := n / 2;
    var q, r := (d + h) / n, (d + h) % n;
    assert d + h == q * n + r;
    var t := 2 * h - r;
    assert -d + h == -q * n + t;
    if t == n {
      assert -d + h == (-q + 1) * n;
      ModUnique(-d + h, -q + 1, 0, n);
    } else {
      ModUnique(-d + h, -q, t, n);
    }
  }

  lemma WrappingFits(w: int, h: int)
    requires 0 < w && 0 < h
    ensures MeasureFits(Wrapping(w, h), w, h)
  {
    var measure := Wrapping(w, h);
    forall v
      ensures Same(measure(v).x, measure(v).y, v.x, v.y, w, h)
    {
      ShortIsCongruent(v.x, w);
      ShortIsCongruent(v.y, h);
    }
    forall v
      ensures Sq(measure(Opposite(v))) == Sq(measure(v))
    {
      ShortTurned(v.x, w);
      ShortTurned(v.y, h);
      SquareOfAbs(Short(v.x, w));
    }
  }

  lemma ShortIsShort(d: int, n: int)
    requires 0 < n
    ensures Short(d, n) * Short(d, n) <= n * n
  {
    SquareWithin(Short(d, n), n);
  }

  lemma SquareWithin(s: int, n: int)
    requires -n <= s <= n
    ensures s * s <= n * n
  {
    var a, b := n - s, n + s;
    assert a * b >= 0;
    assert a * b == n * n - s * s;
  }

  // The polygons that the edge finder writes fit, when offsets are wrapped and the
  // map is not so large that a distance on it could stand for none.
  lemma FoundPolysFit(m: Map, polys: seq<Poly>, sqrt: real -> real)
    requires m.Valid() && IsRoot(sqrt) && m.width * m.width + m.height * m.height < FAR
    requires forall v :: 0 <= v < |polys| ==> polys[v] != [] && Chained(polys[v]) && Closes(m, polys[v])
    ensures PartFits(Part(polys, Wrapping(m.width, m.height), sqrt, m.width, m.height))
  {
    var c := Part(polys, Wrapping(m.width, m.height), sqrt, m.width, m.height);
    WrappingFits(m.width, m.height);
    forall v | 0 <= v < |polys|
      ensures PolyFits(c, v)
    {
      FoundIsClosed(m, polys[v]);
      FoundIsConnected(polys[v]);
      WrappingIsSlow(Points(polys[v]), m.width, m.height, sqrt);
    }
    forall v, u | 0 <= v < |polys| && 0 <= u < |polys|
      ensures IsWithin(c, v, u)
    {
      forall i, l | 0 <= i < |polys[v]| && 0 <= l < |polys[u]|
        ensures Gap(c, v, i, u, l) < FAR
      {
        ShortIsShort(polys[u][l].x - polys[v][i].x, m.width);
        ShortIsShort(polys[u][l].y - polys[v][i].y, m.height);
      }
    }
  }

  // They also fit with plain offsets, when no coordinate is so large that a distance
  // could stand for none.
  lemma FoundPolysFitPlain(m: Map, polys: seq<Poly>, sqrt: real -> real, r: int)
    requires m.Valid() && IsRoot(sqrt) && 8 * (r * r) < FAR
    requires forall v :: 0 <= v < |polys| ==> polys[v] != [] && Chained(polys[v]) && Closes(m, polys[v])
    requires forall v, i :: 0 <= v < |polys| && 0 <= i < |polys[v]| ==>
      -r <= polys[v][i].x <= r && -r <= polys[v][i].y <= r
    ensures PartFits(Part(polys, Plain, sqrt, m.width, m.height))
  {
    var c := Part(polys, Plain, sqrt, m.width, m.height);
    PlainFits(m.width, m.height);
    forall v | 0 <= v < |polys|
      ensures PolyFits(c, v)
    {
      FoundIsClosed(m, polys[v]);
      FoundIsConnected(polys[v]);
      PlainIsSlow(Points(polys[v]), sqrt);
    }
    forall v, u | 0 <= v < |polys| && 0 <= u < |polys|
      ensures IsWithin(c, v, u)
    {
      forall i, l | 0 <= i < |polys[v]| && 0 <= l < |polys[u]|
        ensures Gap(c, v, i, u, l) < FAR
      {
        SquareWithin(polys[u][l].x - polys[v][i].x, 2 * r);
        SquareWithin(polys[u][l].y - polys[v][i].y, 2 * r);
        assert 2 * r * (2 * r) == 4 * (r * r);
      }
    }
  }

  lemma FoundIsConnected(poly: Poly)
    requires Chained(poly)
    ensures Connected(Points(poly))
  {
    forall l | 0 <= l < |poly| - 1
      ensures -1 <= poly[l + 1].x - poly[l].x <= 1 && -1 <= poly[l + 1].y - poly[l].y <= 1
    {
      assert poly[l + 1] == After(poly[l], poly[l + 1].dir);
    }
  }
}
