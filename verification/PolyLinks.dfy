/** poly_link of mapconvert.py: the polygons of a part are linked into a tree, always
    the nearest next, and written down as one walk. */
module PolyLinks {
  import opened BlockMap
  import opened EdgeTrace
  import opened FindMin
  import opened Options
  import opened PolyTree
  import opened PolyOnce
  import opened PolyWalk
  import opened LinkLists
  import opened Traversals
  import opened PrimTree

  class PolyLinker {
    const part: Part
    var links: seq<seq<Link>>
    var best: seq<Near>
    var left: seq<int>
    ghost var shape: Shape
    ghost var order: seq<int>

    ghost predicate Valid(seen: seq<int>)
      reads this
    {
      Progress(part, links, best, left, shape, order, seen)
    }

    // The last polygon becomes the root.
    constructor (part: Part)
      requires PartFits(part) && part.polys != []
      ensures this.part == part && order == [|part.polys| - 1] && shape.root == |part.polys| - 1 && Valid([])
    {
      this.part := part;
      var n := |part.polys|;
      links := seq(n, i => []);
      best := seq(n, i => NOT_SEEN);
      left := seq(n - 1, i => i);
      shape := Shape(n - 1, seq(n, i => 0), seq(n, i => 0), seq(n, i => 0));
      order := [n - 1];
      new;
      StartFits(part, links, left, shape);
    }

    // The ways from the polygon linked last are compared with those known.
    method Update(last: int)
      requires order != [] && last == order[|order| - 1] && 0 <= last < |part.polys| && Valid(order[..|order| - 1])
      modifies `best
      ensures Valid(order)
    {
      ghost var seen := order[..|order| - 1];
      assert seen + [last] == order;
      assert Linking(part, links, left, shape, order);
      var p := 0;
      while p < |left|
        invariant 0 <= p <= |left| && |best| == |part.polys|
        invariant AreBest(part, order, best, left, 0, p) && AreBest(part, seen, best, left, p, |left|)
      {
        ghost var before := best;
        Compare(last, left[p], seen);
        OneMoreBest(part, links, shape, order, seen, before, best[left[p]], left, p);
        p := p + 1;
      }
    }

    method Compare(last: int, j: int, ghost seen: seq<int>)
      requires PartFits(part) && 0 <= last < |part.polys| == |best| && 0 <= j < |part.polys|
      requires IsBest(part, seen, best[j], j)
      modifies `best
      ensures |best| == |old(best)| && best == old(best)[j := best[j]]
      ensures IsBest(part, seen + [last], best[j], j)
    {
      BestIsNatural(part, seen, best[j], j);
      assert PolyFits(part, last) && PolyFits(part, j);
      var found := FindMin.FindMin(Points(part.polys[last]), Points(part.polys[j]),
              part.measure, best[j].dist, part.sqrt);
      UpdatedIsBest(part, seen, last, best[j], j);
      best := best[j := Updated(best[j], found, last)];
    }

    // The polygon with the shortest way.
    method Choose() returns (p: nat)
      requires Valid(order) && left != []
      ensures p < |left| && forall q :: 0 <= q < |left| ==> best[left[p]].dist <= best[left[q]].dist
    {
      var mindist := FARTHER;
      p := 0;
      var i := 0;
      while i < |left|
        invariant 0 <= i <= |left|
        invariant i == 0 ==> mindist == FARTHER
        invariant i > 0 ==> p < i && mindist == best[left[p]].dist
        invariant forall q :: 0 <= q < i ==> mindist <= best[left[q]].dist
      {
        assert IsBest(part, order, best[left[i]], left[i]);
        BestIsWithin(part, order, best[left[i]], left[i]);
        if best[left[i]].dist < mindist {
          p, mindist := i, best[left[i]].dist;
        }
        i := i + 1;
      }
    }

    // Links the nearest polygon.
    method Attach() returns (last: int)
      requires Valid(order) && left != []
      modifies this
      ensures order == old(order) + [last] && 0 <= last < |part.polys| && shape.root == old(shape.root)
      ensures |left| == |old(left)| - 1 && Valid(old(order))
    {
      var p := Choose();
      LinkNearest(part, links, best, left, shape, order, p);
      last := left[p];
      left := Dropped(left, p);
      var r := best[last].from;
      shape, order := Grown(shape, order, links, r, last), order + [last];
      links := Attached(links, r, LinkTo(best[last], last));
    }

    // All polygons of the part, one after the other.
    method LinkAll()
      requires order == [|part.polys| - 1] && 0 < |part.polys| && Valid([])
      modifies this
      ensures Growing(part, links, shape, order) && AddsNearest(part, links, shape, order)
      ensures shape.root == old(shape.root)
      ensures IsRooted(Forest(part.polys, links), shape) && FitsMap(Forest(part.polys, links), part.width, part.height)
    {
      var last := |part.polys| - 1;
      assert order[..|order| - 1] == [];
      while left != []
        invariant order != [] && last == order[|order| - 1] && 0 <= last < |part.polys|
        invariant Valid(order[..|order| - 1]) && shape.root == old(shape.root)
        decreases |left|
      {
        Update(last);
        ghost var seen := order;
        last := Attach();
        assert order[..|order| - 1] == seen;
      }
      GrownIsTree(part, links, shape, order);
    }
  }

  // The links are a tree over the polygons, made in this order by always adding the
  // nearest one.
  ghost predicate IsLinkTree(part: Part, links: seq<seq<Link>>, k: Shape, order: seq<int>)
    requires 0 < part.width && 0 < part.height
  {
    && Growing(part, links, k, order) && AddsNearest(part, links, k, order)
    && IsRooted(Forest(part.polys, links), k) && k.root == |part.polys| - 1
  }

  // Each link is no longer than any way on the map from the polygons linked before it to
  // any other.
  ghost predicate IsShortTree(part: Part, links: seq<seq<Link>>, k: Shape, order: seq<int>)
    requires 0 < part.width && 0 < part.height
  {
    && IsLinkTree(part, links, k, order)
    && forall u, v, z {:trigger IsCut(part, k, order, u, v, z)} :: IsCut(part, k, order, u, v, z) ==>
         IsLinkWithin(part, links, k, u, v, z)
  }

  // Polygon v was linked before u, and z was not.
  ghost predicate IsCut(part: Part, k: Shape, order: seq<int>, u: int, v: int, z: int)
    requires |k.rank| == |part.polys|
  {
    && IsPlaced(k, order, u) && u != k.root && IsPlaced(k, order, v) && k.rank[v] < k.rank[u]
    && 0 <= z < |part.polys| && !(IsPlaced(k, order, z) && k.rank[z] < k.rank[u])
  }

  // No way on the map from v to z is shorter than the link to u.
  ghost predicate IsLinkWithin(part: Part, links: seq<seq<Link>>, k: Shape,
                               u: int, v: int, z: int)
    requires 0 < part.width && 0 < part.height
  {
    && 0 <= v < |part.polys| && 0 <= z < |part.polys| && |links| == |k.parent| == |k.slot| && 0 <= u < |links|
    && Hangs(links, k, u) && AtLeastAround(part, v, z, LinkLength(links, k, u))
  }

  lemma LinkTreeIsShort(part: Part, links: seq<seq<Link>>, k: Shape, order: seq<int>)
    requires 0 < part.width && 0 < part.height && part.measure == Wrapping(part.width, part.height)
    requires IsLinkTree(part, links, k, order)
    ensures IsShortTree(part, links, k, order)
  {
    forall u, v, z | IsCut(part, k, order, u, v, z)
      ensures IsLinkWithin(part, links, k, u, v, z)
    {
      assert IsShortest(part, links, k, order, u);
      NearestAround(part, v, z, LinkLength(links, k, u));
    }
  }

  // The walk starts at the first point of the last polygon, chains, comes back, and
  // passes every edge once and every link once in each direction.
  ghost predicate IsFullWalk(part: Part, links: seq<seq<Link>>, result: seq<Step>)
    requires 0 < part.width && 0 < part.height && part.polys != [] && part.polys[|part.polys| - 1] != []
  {
    var t, root := Forest(part.polys, links), |part.polys| - 1;
    var start := part.polys[root][0];
    && Walks(t, result, start.x, start.y, start.x, start.y, part.width, part.height)
    && forall g :: IsTag(t, g) ==> Count(result, g) == if g.Edge? || g.node != root then 1 else 0
  }

  // One walk around all polygons of the part. Besides the walk, the links are given back.
  method PolyLink(part: Part) returns (result: seq<Step>, links: seq<seq<Link>>)
    requires PartFits(part) && part.polys != []
    ensures exists k, order :: IsLinkTree(part, links, k, order)
    ensures part.polys[|part.polys| - 1] != [] && IsFullWalk(part, links, result)
  {
    var linker := new PolyLinker(part);
    linker.LinkAll();
    links := linker.links;
    ghost var k := linker.shape;
    assert IsLinkTree(part, links, k, linker.order);
    ghost var t := Forest(part.polys, links);
    var root := |part.polys| - 1;
    assert PolyFits(part, root);
    var start := part.polys[root][0];
    var walk := new Traversal(part.polys, links);
    walk.Traverse(root, start.x, start.y, 0, t, k);
    result := walk.result;
    assert result == Around(t, k.rank, root, 0, 0, start.x, start.y);
    WalkIsComplete(t, k, start.x, start.y, part.width, part.height);
  }

  lemma WalkIsComplete(t: Forest, k: Shape, x: int, y: int, w: int, h: int)
    requires IsRooted(t, k) && FitsMap(t, w, h) && t.polys[k.root] != []
    requires x == t.polys[k.root][0].x && y == t.polys[k.root][0].y
    ensures Walks(t, Around(t, k.rank, k.root, 0, 0, x, y), x, y, x, y, w, h)
    ensures forall g :: IsTag(t, g) ==>
      Count(Around(t, k.rank, k.root, 0, 0, x, y), g) == if g.Edge? || g.node != k.root then 1 else 0
  {
    CongruentSelf(x, w);
    CongruentSelf(y, h);
    AroundLeads(t, k.rank, k.root, 0, 0, x, y, w, h);
    forall g | IsTag(t, g)
      ensures Count(Around(t, k.rank, k.root, 0, 0, x, y), g) == if g.Edge? || g.node != k.root then 1 else 0
    {
      WalkPassesAllOnce(t, k, 0, x, y, g);
    }
  }
}
