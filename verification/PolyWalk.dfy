/** The walk that Polynode.traverse of mapconvert.py writes: it stays on the polygons
    and links, and passes each of them the right number of times. */
module PolyWalk {
  import opened BlockMap
  import opened EdgeTrace
  import opened PolyTree

  // The walk around a polygon chains, keeps to the places of the edges and links,
  // and comes back to the point where it started.
  lemma {:induction false} AroundLeads(t: Forest, rank: seq<nat>, v: int, start: int, c: int,
                                        x: int, y: int, w: int, h: int)
    requires IsTree(t, rank) && Reached(t, v, start, c, x, y, w, h)
    ensures Walks(t, Around(t, rank, v, start, c, x, y), x, y, t.polys[v][start].x, t.polys[v][start].y, w, h)
    decreases |rank| - rank[v], |t.polys[v]| - c, 0
  {
    var n := |t.polys[v]|;
    if c < n {
      var i := At(start, c, n);
      var dir := t.polys[v][i].dir;
      AtPointLeads(t, rank, v, i, 0, x, y, w, h);
      ReachNext(t, v, start, c, x, y, w, h);
      AroundLeads(t, rank, v, start, c + 1, x + Dx(dir), y + Dy(dir), w, h);
      AroundJoins(t, rank, v, start, c, x, y, w, h);
    }
  }

  lemma AroundJoins(t: Forest, rank: seq<nat>, v: int, start: int, c: int, x: int, y: int, w: int, h: int)
    requires IsTree(t, rank) && Reached(t, v, start, c, x, y, w, h) && c < |t.polys[v]|
    requires var i := At(start, c, |t.polys[v]|); Walks(t, AtPoint(t, rank, v, i, 0, x, y), x, y, x, y, w, h)
    requires var dir := t.polys[v][At(start, c, |t.polys[v]|)].dir;
      Walks(t, Around(t, rank, v, start, c + 1, x + Dx(dir), y + Dy(dir)),
        x + Dx(dir), y + Dy(dir), t.polys[v][start].x, t.polys[v][start].y, w, h)
    ensures Walks(t, Around(t, rank, v, start, c, x, y), x, y, t.polys[v][start].x, t.polys[v][start].y, w, h)
  {
    var i := At(start, c, |t.polys[v]|);
    var dir := t.polys[v][i].dir;
    EdgeStep(t, v, i, AtPoint(t, rank, v, i, 0, x, y), Around(t, rank, v, start, c + 1, x + Dx(dir), y + Dy(dir)),
      x, y, t.polys[v][start], w, h);
  }

  lemma {:induction false} AtPointLeads(t: Forest, rank: seq<nat>, v: int, i: int, a: int,
                                         x: int, y: int, w: int, h: int)
    requires IsTree(t, rank) && FitsMap(t, w, h) && 0 <= v < |t.polys| && 0 <= i < |t.polys[v]|
    requires 0 <= a <= |t.links[v]| && AtVertex(t, v, i, x, y, w, h)
    ensures var s := AtPoint(t, rank, v, i, a, x, y); Walks(t, s, x, y, x, y, w, h)
    decreases |rank| - rank[v], 0, |t.links[v]| - a
  {
    if a == |t.links[v]| {
      CongruentSelf(x, w);
      CongruentSelf(y, h);
    } else {
      AtPointLeads(t, rank, v, i, a + 1, x, y, w, h);
      if t.links[v][a].start == i {
        OverLeads(t, rank, v, a, x, y, w, h);
        LeadsOn(Over(t, rank, v, a, x, y), AtPoint(t, rank, v, i, a + 1, x, y), x, y, x, y, x, y, w, h);
      }
    }
  }

  lemma {:induction false} OverLeads(t: Forest, rank: seq<nat>, v: int, a: int, x: int, y: int, w: int, h: int)
    requires IsTree(t, rank) && FitsMap(t, w, h) && 0 <= v < |t.polys| && 0 <= a < |t.links[v]|
    requires 0 <= t.links[v][a].start < |t.polys[v]| && AtVertex(t, v, t.links[v][a].start, x, y, w, h)
    ensures var s := Over(t, rank, v, a, x, y); Walks(t, s, x, y, x, y, w, h)
    decreases |rank| - rank[v], 0, |t.links[v]| - a, 0
  {
    var l := t.links[v][a];
    assert LinkFits(t, rank, v, l) && Spans(t, v, l, w, h);
    LinkArrives(t, v, a, x, y, w, h);
    AroundLeads(t, rank, l.target, l.targetIndex, 0, x + l.dx, y + l.dy, w, h);
    ThereAndBack(t, v, a, Around(t, rank, l.target, l.targetIndex, 0, x + l.dx, y + l.dy), x, y, w, h);
  }
}
