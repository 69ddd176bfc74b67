/** Polygons joined by links into a tree, and the one closed walk around all of
    them: Polynode.traverse of mapconvert.py. */
module PolyTree {
  import opened BlockMap
  import opened EdgeTrace
  import opened FindMin

  // A link leads from a point of one polygon to a point of another.
  datatype Link = Link(start: int, target: int, targetIndex: int, dx: int, dy: int)

  datatype Forest = Forest(polys: seq<Poly>, links: seq<seq<Link>>)

  // Every link goes from a node to one of higher rank.
  ghost predicate IsTree(t: Forest, rank: seq<nat>) {
    && |t.links| == |t.polys| == |rank|
    && (forall v :: 0 <= v < |t.polys| ==> t.polys[v] != [] && rank[v] < |rank|)
    && (forall v, a :: 0 <= v < |t.links| && 0 <= a < |t.links[v]| ==> LinkFits(t, rank, v, t.links[v][a]))
  }

  ghost predicate LinkFits(t: Forest, rank: seq<nat>, v: int, l: Link)
    requires |t.links| == |t.polys| == |rank| && 0 <= v < |t.polys|
  {
    && 0 <= l.target < |t.polys| && rank[v] < rank[l.target]
    && 0 <= l.targetIndex < |t.polys[l.target]| && 0 <= l.start < |t.polys[v]|
  }

  // What a step of the walk goes along: an edge of a polygon, or the link to a
  // polygon there or back.
  datatype Tag = Edge(node: int, index: int) | Out(node: int) | Back(node: int)

  // A step of the walk: the place where it starts and the offset it makes.
  datatype Step = Step(x: int, y: int, dx: int, dy: int, tag: Tag)

  // The walk around a node from its start-th point, when c of its edges have been
  // walked and the place is (x, y).
  function Around(t: Forest, rank: seq<nat>, v: int, start: int, c: int, x: int, y: int): seq<Step>
    requires IsTree(t, rank) && 0 <= v < |t.polys| && 0 <= start < |t.polys[v]| && 0 <= c <= |t.polys[v]|
    decreases |rank| - rank[v], |t.polys[v]| - c, 0
  {
    if c == |t.polys[v]| then []
    else
      var i := At(start, c, |t.polys[v]|);
      var dir := t.polys[v][i].dir;
      AtPoint(t, rank, v, i, 0, x, y)
        + [Step(x, y, Dx(dir), Dy(dir), Edge(v, i))]
        + Around(t, rank, v, start, c + 1, x + Dx(dir), y + Dy(dir))
  }

  // The point c places after start on a polygon of n points.
  function At(start: int, c: int, n: int): (i: int)
    requires 0 <= start < n && 0 <= c <= n
    ensures 0 <= i < n
  {
    if start + c < n then start + c else start + c - n
  }

  // The walks over the links of v from the a-th on that start at point i.
  function AtPoint(t: Forest, rank: seq<nat>, v: int, i: int, a: int, x: int, y: int): seq<Step>
    requires IsTree(t, rank) && 0 <= v < |t.polys| && 0 <= a <= |t.links[v]|
    decreases |rank| - rank[v], 0, |t.links[v]| - a
  {
    if a == |t.links[v]| then []
    else if t.links[v][a].start == i then Over(t, rank, v, a, x, y) + AtPoint(t, rank, v, i, a + 1, x, y)
    else AtPoint(t, rank, v, i, a + 1, x, y)
  }

  // There over one link, around the polygon at its end, and back.
  function Over(t: Forest, rank: seq<nat>, v: int, a: int, x: int, y: int): seq<Step>
    requires IsTree(t, rank) && 0 <= v < |t.polys| && 0 <= a < |t.links[v]|
    decreases |rank| - rank[v], 0, |t.links[v]| - a, 0
  {
    var l := t.links[v][a];
    assert LinkFits(t, rank, v, l);
    [Step(x, y, l.dx, l.dy, Out(l.target))]
      + Around(t, rank, l.target, l.targetIndex, 0, x + l.dx, y + l.dy)
      + [Step(x + l.dx, y + l.dy, -l.dx, -l.dy, Back(l.target))]
  }

  // ---- The places chain ----

  ghost predicate Congruent(a: int, b: int, n: int)
    requires 0 < n
  {
    exists q :: a - b == Times(q, n)
  }

  function Times(q: int, n: int): int { q * n }

  lemma CongruentSum(a: int, b: int, c: int, d: int, n: int)
    requires 0 < n && Congruent(a, b, n) && Congruent(c, d, n)
    ensures Congruent(a + c, b + d, n)
  {
    var p :| a - b == Times(p, n);
    var q :| c - d == Times(q, n);
    assert a + c - (b + d) == Times(p + q, n);
  }

  lemma CongruentChain(a: int, b: int, c: int, n: int)
    requires 0 < n && Congruent(a, b, n) && Congruent(b, c, n)
    ensures Congruent(a, c, n)
  {
    CongruentSum(a, b, b, c, n);
  }

  lemma CongruentSelf(a: int, n: int)
    requires 0 < n
    ensures Congruent(a, a, n)
  {
    assert a - a == Times(0, n);
  }

  // The same place on the wrapped map.
  ghost predicate Same(x: int, y: int, x': int, y': int, w: int, h: int)
    requires 0 < w && 0 < h
  {
    Congruent(x, x', w) && Congruent(y, y', h)
  }

  // A walk from one place to another, each step starting where the last one ended.
  ghost predicate Leads(s: seq<Step>, x: int, y: int, x': int, y': int, w: int, h: int)
    requires 0 < w && 0 < h
  {
    if s == [] then Same(x, y, x', y', w, h)
    else
      Same(s[0].x, s[0].y, x, y, w, h)
      && Leads(s[1..], s[0].x + s[0].dx, s[0].y + s[0].dy, x', y', w, h)
  }

  lemma {:induction false} LeadsFromSame(s: seq<Step>, x: int, y: int, u: int, v: int, x': int, y': int, w: int, h: int)
    requires 0 < w && 0 < h && Same(x, y, u, v, w, h) && Leads(s, x, y, x', y', w, h)
    ensures Leads(s, u, v, x', y', w, h)
  {
    if s == [] {
      Flip(x, u, w);
      Flip(y, v, h);
      CongruentChain(u, x, x', w);
      CongruentChain(v, y, y', h);
    } else {
      CongruentChain(s[0].x, x, u, w);
      CongruentChain(s[0].y, y, v, h);
    }
  }

  lemma Flip(a: int, b: int, n: int)
    requires 0 < n && Congruent(a, b, n)
    ensures Congruent(b, a, n)
  {
    var q :| a - b == Times(q, n);
    assert b - a == Times(-q, n);
  }

  lemma {:induction false} LeadsOn(s: seq<Step>, r: seq<Step>, x: int, y: int, u: int, v: int,
                                    x': int, y': int, w: int, h: int)
    requires 0 < w && 0 < h && Leads(s, x, y, u, v, w, h) && Leads(r, u, v, x', y', w, h)
    ensures Leads(s + r, x, y, x', y', w, h)
    decreases |s|
  {
    if s == [] {
      assert s + r == r;
      Flip(x, u, w);
      Flip(y, v, h);
      LeadsFromSame(r, u, v, x, y, x', y', w, h);
    } else {
      assert (s + r)[1..] == s[1..] + r;
      LeadsOn(s[1..], r, s[0].x + s[0].dx, s[0].y + s[0].dy, u, v, x', y', w, h);
    }
  }

  lemma LeadsOneStep(e: Step, w: int, h: int)
    requires 0 < w && 0 < h
    ensures Leads([e], e.x, e.y, e.x + e.dx, e.y + e.dy, w, h)
  {
    CongruentSelf(e.x, w);
    CongruentSelf(e.y, h);
    CongruentSelf(e.x + e.dx, w);
    CongruentSelf(e.y + e.dy, h);
  }

  // ---- The walk stays on the polygons ----

  // The polygons are closed on the wrapped map, and links join their points.
  ghost predicate FitsMap(t: Forest, w: int, h: int) {
    && 0 < w && 0 < h && |t.links| == |t.polys|
    && (forall v :: 0 <= v < |t.polys| ==> t.polys[v] != [] && ClosedOn(t.polys[v], w, h))
    && (forall v, a :: 0 <= v < |t.links| && 0 <= a < |t.links[v]| ==> Spans(t, v, t.links[v][a], w, h))
  }

  // The offset of each point leads to the next point, and that of the last one to
  // the first.
  ghost predicate ClosedOn(poly: Poly, w: int, h: int)
    requires 0 < w && 0 < h
  {
    forall i :: 0 <= i < |poly| ==> LeadsToNext(poly, i, w, h)
  }

  ghost predicate LeadsToNext(poly: Poly, i: int, w: int, h: int)
    requires 0 < w && 0 < h && 0 <= i < |poly|
  {
    var p, q := poly[i], poly[if i + 1 < |poly| then i + 1 else 0];
    Same(p.x + Dx(p.dir), p.y + Dy(p.dir), q.x, q.y, w, h)
  }

  // The polygons that the edge finder writes are closed in this sense.
  lemma FoundIsClosed(m: Map, poly: Poly)
    requires m.Valid() && poly != [] && Chained(poly) && Closes(m, poly)
    ensures ClosedOn(poly, m.width, m.height)
  {
    var n := |poly|;
    SumIsOffset(poly, poly[0].dir);
    forall i | 0 <= i < n
      ensures LeadsToNext(poly, i, m.width, m.height)
    {
      var p := poly[i];
      if i + 1 < n {
        assert poly[i + 1] == After(p, poly[i + 1].dir);
        CongruentSelf(poly[i + 1].x, m.width);
        CongruentSelf(poly[i + 1].y, m.height);
      } else {
        assert SumX(poly) - 0 == Times(SumX(poly) / m.width, m.width);
        assert SumY(poly) - 0 == Times(SumY(poly) / m.height, m.height);
        assert poly[0].x + SumX(poly) - poly[0].x == Times(SumX(poly) / m.width, m.width);
        assert poly[0].y + SumY(poly) - poly[0].y == Times(SumY(poly) / m.height, m.height);
      }
    }
  }

  ghost predicate Spans(t: Forest, v: int, l: Link, w: int, h: int)
    requires 0 < w && 0 < h && 0 <= v < |t.polys|
  {
    && 0 <= l.start < |t.polys[v]| && 0 <= l.target < |t.polys| && 0 <= l.targetIndex < |t.polys[l.target]|
    && var p, q := t.polys[v][l.start], t.polys[l.target][l.targetIndex];
       Same(p.x + l.dx, p.y + l.dy, q.x, q.y, w, h)
  }

  // The walk is at the i-th point of polygon v.
  ghost predicate AtVertex(t: Forest, v: int, i: int, x: int, y: int, w: int, h: int)
    requires 0 < w && 0 < h && 0 <= v < |t.polys| && 0 <= i < |t.polys[v]|
  {
    Same(x, y, t.polys[v][i].x, t.polys[v][i].y, w, h)
  }

  lemma NextVertex(t: Forest, v: int, i: int, x: int, y: int, w: int, h: int)
    requires FitsMap(t, w, h) && 0 <= v < |t.polys| && 0 <= i < |t.polys[v]| && AtVertex(t, v, i, x, y, w, h)
    ensures var dir := t.polys[v][i].dir;
      AtVertex(t, v, if i + 1 < |t.polys[v]| then i + 1 else 0, x + Dx(dir), y + Dy(dir), w, h)
  {
    var p := t.polys[v][i];
    CongruentSelf(Dx(p.dir), w);
    CongruentSelf(Dy(p.dir), h);
    CongruentSum(x, p.x, Dx(p.dir), Dx(p.dir), w);
    CongruentSum(y, p.y, Dy(p.dir), Dy(p.dir), h);
    assert ClosedOn(t.polys[v], w, h);
    assert LeadsToNext(t.polys[v], i, w, h);
    var q := t.polys[v][if i + 1 < |t.polys[v]| then i + 1 else 0];
    CongruentChain(x + Dx(p.dir), p.x + Dx(p.dir), q.x, w);
    CongruentChain(y + Dy(p.dir), p.y + Dy(p.dir), q.y, h);
  }

  lemma LinkArrives(t: Forest, v: int, a: int, x: int, y: int, w: int, h: int)
    requires FitsMap(t, w, h) && 0 <= v < |t.links| && 0 <= a < |t.links[v]|
    requires Spans(t, v, t.links[v][a], w, h) && AtVertex(t, v, t.links[v][a].start, x, y, w, h)
    ensures var l := t.links[v][a]; AtVertex(t, l.target, l.targetIndex, x + l.dx, y + l.dy, w, h)
  {
    var l := t.links[v][a];
    var p, q := t.polys[v][l.start], t.polys[l.target][l.targetIndex];
    CongruentSelf(l.dx, w);
    CongruentSelf(l.dy, h);
    CongruentSum(x, p.x, l.dx, l.dx, w);
    CongruentSum(y, p.y, l.dy, l.dy, h);
    CongruentChain(x + l.dx, p.x + l.dx, q.x, w);
    CongruentChain(y + l.dy, p.y + l.dy, q.y, h);
  }

  ghost predicate IsLinkTo(t: Forest, u: int, dx: int, dy: int) {
    exists v, a :: 0 <= v < |t.links| && 0 <= a < |t.links[v]| && t.links[v][a].target == u
      && t.links[v][a].dx == dx && t.links[v][a].dy == dy
  }

  // A step along an edge starts at the place of that edge and makes its offset; a
  // step over a link makes its offset, and on the way back the opposite one.
  ghost predicate StepFits(t: Forest, s: Step, w: int, h: int)
    requires 0 < w && 0 < h
  {
    match s.tag
    case Edge(v, i) =>
      && 0 <= v < |t.polys| && 0 <= i < |t.polys[v]| && AtVertex(t, v, i, s.x, s.y, w, h)
      && s.dx == Dx(t.polys[v][i].dir) && s.dy == Dy(t.polys[v][i].dir)
    case Out(u) => IsLinkTo(t, u, s.dx, s.dy)
    case Back(u) => IsLinkTo(t, u, -s.dx, -s.dy)
  }

  ghost predicate AllFit(t: Forest, s: seq<Step>, w: int, h: int)
    requires 0 < w && 0 < h
  {
    forall k :: 0 <= k < |s| ==> StepFits(t, s[k], w, h)
  }

  // A walk from one place to another that chains and keeps to the edges and links.
  ghost predicate Walks(t: Forest, s: seq<Step>, x: int, y: int, x': int, y': int, w: int, h: int)
    requires 0 < w && 0 < h
  {
    AllFit(t, s, w, h) && Leads(s, x, y, x', y', w, h)
  }

  // One edge of a polygon between two walks that fit it.
  lemma EdgeStep(t: Forest, v: int, i: int, s: seq<Step>, r: seq<Step>, x: int, y: int, end: Point, w: int, h: int)
    requires 0 < w && 0 < h && 0 <= v < |t.polys| && 0 <= i < |t.polys[v]| && AtVertex(t, v, i, x, y, w, h)
    requires Walks(t, s, x, y, x, y, w, h)
    requires Walks(t, r, x + Dx(t.polys[v][i].dir), y + Dy(t.polys[v][i].dir), end.x, end.y, w, h)
    ensures var e := Step(x, y, Dx(t.polys[v][i].dir), Dy(t.polys[v][i].dir), Edge(v, i));
      Walks(t, s + [e] + r, x, y, end.x, end.y, w, h)
  {
    var e := Step(x, y, Dx(t.polys[v][i].dir), Dy(t.polys[v][i].dir), Edge(v, i));
    LeadsOneStep(e, w, h);
    LeadsOn(s, [e], x, y, x, y, x + e.dx, y + e.dy, w, h);
    LeadsOn(s + [e], r, x, y, x + e.dx, y + e.dy, end.x, end.y, w, h);
  }

  // The walk around v from its start-th point has come to its c-th point from there.
  ghost predicate Reached(t: Forest, v: int, start: int, c: int, x: int, y: int, w: int, h: int) {
    && FitsMap(t, w, h) && 0 <= v < |t.polys| && 0 <= start < |t.polys[v]| && 0 <= c <= |t.polys[v]|
    && AtVertex(t, v, At(start, c, |t.polys[v]|), x, y, w, h)
  }

  lemma ReachNext(t: Forest, v: int, start: int, c: int, x: int, y: int, w: int, h: int)
    requires Reached(t, v, start, c, x, y, w, h) && c < |t.polys[v]|
    ensures var dir := t.polys[v][At(start, c, |t.polys[v]|)].dir;
      Reached(t, v, start, c + 1, x + Dx(dir), y + Dy(dir), w, h)
  {
    NextVertex(t, v, At(start, c, |t.polys[v]|), x, y, w, h);
  }

  // The two steps over a link around a walk that starts and ends at its far end.
  lemma ThereAndBack(t: Forest, v: int, a: int, s: seq<Step>, x: int, y: int, w: int, h: int)
    requires 0 < w && 0 < h && |t.links| == |t.polys| && 0 <= v < |t.links| && 0 <= a < |t.links[v]|
    requires Spans(t, v, t.links[v][a], w, h)
    requires var l := t.links[v][a]; var q := t.polys[l.target][l.targetIndex];
      AtVertex(t, l.target, l.targetIndex, x + l.dx, y + l.dy, w, h) && Walks(t, s, x + l.dx, y + l.dy, q.x, q.y, w, h)
    ensures var l := t.links[v][a];
      var walk := [Step(x, y, l.dx, l.dy, Out(l.target))] + s
          + [Step(x + l.dx, y + l.dy, -l.dx, -l.dy, Back(l.target))];
      Walks(t, walk, x, y, x, y, w, h)
  {
    var l := t.links[v][a];
    var u, z, q := x + l.dx, y + l.dy, t.polys[l.target][l.targetIndex];
    var out, back := Step(x, y, l.dx, l.dy, Out(l.target)), Step(u, z, -l.dx, -l.dy, Back(l.target));
    assert IsLinkTo(t, l.target, l.dx, l.dy);
    LeadsOneStep(out, w, h);
    LeadsOn([out], s, x, y, u, z, q.x, q.y, w, h);
    LeadsOneStep(back, w, h);
    LeadsFromSame([back], u, z, q.x, q.y, x, y, w, h);
    LeadsOn([out] + s, [back], x, y, q.x, q.y, x, y, w, h);
  }
}
