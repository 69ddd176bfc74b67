/** The walk around a tree of polygons goes along every edge once and over every
    link once in each direction. */
module PolyOnce {
  import opened BlockMap
  import opened EdgeTrace
  import opened PolyTree

  // Which link leads to each node but the root.
  datatype Shape = Shape(root: int, rank: seq<nat>, parent: seq<int>, slot: seq<int>)

  ghost predicate IsRooted(t: Forest, k: Shape) {
    && IsTree(t, k.rank) && |k.parent| == |k.slot| == |t.polys| && 0 <= k.root < |t.polys|
    && (forall u :: 0 <= u < |t.polys| && u != k.root ==> HasParent(t, k, u))
    && (forall v, a :: 0 <= v < |t.links| && 0 <= a < |t.links[v]| ==> IsParent(t, k, v, a))
  }

  ghost predicate HasParent(t: Forest, k: Shape, u: int)
    requires |k.parent| == |k.slot| == |t.polys| == |t.links| && 0 <= u < |t.polys|
  {
    && 0 <= k.parent[u] < |t.links| && 0 <= k.slot[u] < |t.links[k.parent[u]]|
    && t.links[k.parent[u]][k.slot[u]].target == u
  }

  ghost predicate IsParent(t: Forest, k: Shape, v: int, a: int)
    requires |k.parent| == |k.slot| == |t.polys| == |t.links| && 0 <= v < |t.links| && 0 <= a < |t.links[v]|
  {
    var u := t.links[v][a].target;
    0 <= u < |t.polys| && u != k.root && k.parent[u] == v && k.slot[u] == a
  }

  lemma ParentIsLower(t: Forest, k: Shape, u: int)
    requires IsRooted(t, k) && 0 <= u < |t.polys| && u != k.root
    ensures HasParent(t, k, u) && k.rank[k.parent[u]] < k.rank[u]
  {
    assert HasParent(t, k, u);
    assert LinkFits(t, k.rank, k.parent[u], t.links[k.parent[u]][k.slot[u]]);
  }

  // u is v, or hangs below it.
  ghost predicate Below(t: Forest, k: Shape, v: int, u: int)
    requires IsRooted(t, k) && 0 <= u < |t.polys|
    decreases k.rank[u]
  {
    u == v || (u != k.root && (ParentIsLower(t, k, u); Below(t, k, v, k.parent[u])))
  }

  // The link of v that leads towards u.
  ghost function Via(t: Forest, k: Shape, v: int, u: int): (a: int)
    requires IsRooted(t, k) && 0 <= v < |t.polys| && 0 <= u < |t.polys| && u != v && Below(t, k, v, u)
    ensures 0 <= a < |t.links[v]|
    decreases k.rank[u]
  {
    ParentIsLower(t, k, u);
    if k.parent[u] == v then k.slot[u] else Via(t, k, v, k.parent[u])
  }

  lemma {:induction false} RootIsAbove(t: Forest, k: Shape, u: int)
    requires IsRooted(t, k) && 0 <= u < |t.polys|
    ensures Below(t, k, k.root, u)
    decreases k.rank[u]
  {
    if u != k.root {
      ParentIsLower(t, k, u);
      RootIsAbove(t, k, k.parent[u]);
    }
  }

  lemma {:induction false} BelowIsHigher(t: Forest, k: Shape, v: int, u: int)
    requires IsRooted(t, k) && 0 <= v < |t.polys| && 0 <= u < |t.polys| && Below(t, k, v, u)
    ensures u == v || k.rank[v] < k.rank[u]
    decreases k.rank[u]
  {
    if u != v {
      ParentIsLower(t, k, u);
      BelowIsHigher(t, k, v, k.parent[u]);
    }
  }

  // A node below v is below the end of exactly one link of v.
  lemma {:induction false} BelowOneLink(t: Forest, k: Shape, v: int, a: int, u: int)
    requires IsRooted(t, k) && 0 <= v < |t.polys| && 0 <= a < |t.links[v]| && 0 <= u < |t.polys|
    ensures Below(t, k, t.links[v][a].target, u) <==> u != v && Below(t, k, v, u) && Via(t, k, v, u) == a
    decreases k.rank[u]
  {
    var w := t.links[v][a].target;
    assert IsParent(t, k, v, a) && LinkFits(t, k.rank, v, t.links[v][a]);
    if u == v {
      if Below(t, k, w, u) {
        BelowIsHigher(t, k, w, u);
        assert false;
      }
    } else if u != w && u != k.root {
      ParentIsLower(t, k, u);
      BelowOneLink(t, k, v, a, k.parent[u]);
      assert k.parent[u] == v ==> t.links[v][k.slot[u]].target == u;
    } else if u == w {
      assert k.parent[u] == v && k.slot[u] == a;
      assert Below(t, k, v, v);
    }
  }

  // ---- Counting ----

  function Count(s: seq<Step>, g: Tag): nat {
    if s == [] then 0 else (if s[0].tag == g then 1 else 0) + Count(s[1..], g)
  }

  lemma {:induction false} CountSum(s: seq<Step>, r: seq<Step>, g: Tag)
    ensures Count(s + r, g) == Count(s, g) + Count(r, g)
  {
    if s == [] {
      assert s + r == r;
    } else {
      assert (s + r)[1..] == s[1..] + r;
      CountSum(s[1..], r, g);
    }
  }

  lemma CountThree(s: seq<Step>, e: Step, r: seq<Step>, g: Tag)
    ensures Count(s + [e] + r, g) == Count(s, g) + (if e.tag == g then 1 else 0) + Count(r, g)
  {
    CountSum(s + [e], r, g);
    CountSum(s, [e], g);
  }

  lemma CountBetween(e: Step, s: seq<Step>, f: Step, g: Tag)
    ensures Count([e] + s + [f], g) == (if e.tag == g then 1 else 0) + Count(s, g) + (if f.tag == g then 1 else 0)
  {
    CountSum([e] + s, [f], g);
    CountSum([e], s, g);
  }

  ghost predicate IsTag(t: Forest, g: Tag) {
    0 <= g.node < |t.polys| && (g.Edge? ==> 0 <= g.index < |t.polys[g.node]|)
  }

  // The walk around v passes g: an edge of a node below it, or a link that leads
  // to a node further below.
  ghost predicate Passes(t: Forest, k: Shape, v: int, g: Tag)
    requires IsRooted(t, k) && IsTag(t, g)
  {
    Below(t, k, v, g.node) && (g.Edge? || g.node != v)
  }

  // The point of v where the walk around v passes g.
  ghost function Where(t: Forest, k: Shape, v: int, g: Tag): (i: int)
    requires IsRooted(t, k) && IsTag(t, g) && 0 <= v < |t.polys| && Passes(t, k, v, g)
    ensures 0 <= i < |t.polys[v]|
  {
    if g.node == v then g.index
    else
      var l := t.links[v][Via(t, k, v, g.node)];
      assert LinkFits(t, k.rank, v, l);
      l.start
  }

  // How many points after start the point i comes.
  function Turn(start: int, i: int, n: int): (c: int)
    requires 0 <= start < n && 0 <= i < n
    ensures 0 <= c < n && At(start, c, n) == i && forall d :: 0 <= d < n && At(start, d, n) == i ==> d == c
  {
    if i >= start then i - start else i - start + n
  }

  lemma {:induction false} CountAround(t: Forest, k: Shape, v: int, start: int, c: int, x: int, y: int, g: Tag)
    requires IsRooted(t, k) && IsTag(t, g) && 0 <= v < |t.polys| && 0 <= start < |t.polys[v]| && 0 <= c <= |t.polys[v]|
    ensures Count(Around(t, k.rank, v, start, c, x, y), g)
      == if Passes(t, k, v, g) && c <= Turn(start, Where(t, k, v, g), |t.polys[v]|) then 1 else 0
    decreases |k.rank| - k.rank[v], |t.polys[v]| - c, 0
  {
    var n := |t.polys[v]|;
    if c < n {
      var i := At(start, c, n);
      var dir := t.polys[v][i].dir;
      var e := Step(x, y, Dx(dir), Dy(dir), Edge(v, i));
      CountAtPoint(t, k, v, i, 0, x, y, g);
      CountAround(t, k, v, start, c + 1, x + Dx(dir), y + Dy(dir), g);
      CountThree(AtPoint(t, k.rank, v, i, 0, x, y), e, Around(t, k.rank, v, start, c + 1, x + Dx(dir), y + Dy(dir)), g);
    }
  }

  lemma {:induction false} CountAtPoint(t: Forest, k: Shape, v: int, i: int, a: int, x: int, y: int, g: Tag)
    requires IsRooted(t, k) && IsTag(t, g) && 0 <= v < |t.polys| && 0 <= i < |t.polys[v]| && 0 <= a <= |t.links[v]|
    ensures Count(AtPoint(t, k.rank, v, i, a, x, y), g)
      == if Below(t, k, v, g.node) && g.node != v && a <= Via(t, k, v, g.node) && Where(t, k, v, g) == i then 1 else 0
    decreases |k.rank| - k.rank[v], 0, |t.links[v]| - a
  {
    if a < |t.links[v]| {
      CountAtPoint(t, k, v, i, a + 1, x, y, g);
      BelowOneLink(t, k, v, a, g.node);
      if t.links[v][a].start == i {
        CountOver(t, k, v, a, x, y, g);
        CountSum(Over(t, k.rank, v, a, x, y), AtPoint(t, k.rank, v, i, a + 1, x, y), g);
      }
    }
  }

  lemma {:induction false} CountOver(t: Forest, k: Shape, v: int, a: int, x: int, y: int, g: Tag)
    requires IsRooted(t, k) && IsTag(t, g) && 0 <= v < |t.polys| && 0 <= a < |t.links[v]|
    ensures Count(Over(t, k.rank, v, a, x, y), g) == if Below(t, k, t.links[v][a].target, g.node) then 1 else 0
    decreases |k.rank| - k.rank[v], 0, |t.links[v]| - a, 0
  {
    var l := t.links[v][a];
    assert LinkFits(t, k.rank, v, l);
    CountAround(t, k, l.target, l.targetIndex, 0, x + l.dx, y + l.dy, g);
    CountBetween(Step(x, y, l.dx, l.dy, Out(l.target)),
      Around(t, k.rank, l.target, l.targetIndex, 0, x + l.dx, y + l.dy),
      Step(x + l.dx, y + l.dy, -l.dx, -l.dy, Back(l.target)), g);
  }

  // From the root the walk passes every edge of every polygon exactly once, and
  // the link to every other node exactly once there and once back.
  lemma WalkPassesAllOnce(t: Forest, k: Shape, start: int, x: int, y: int, g: Tag)
    requires IsRooted(t, k) && IsTag(t, g) && 0 <= start < |t.polys[k.root]|
    ensures Count(Around(t, k.rank, k.root, start, 0, x, y), g) == if g.Edge? || g.node != k.root then 1 else 0
  {
    RootIsAbove(t, k, g.node);
    CountAround(t, k, k.root, start, 0, x, y, g);
  }
}
