/** Polynode.traverse of mapconvert.py: the walk around all linked polygons, which
    deletes each link once it has come back over it. */
module Traversals {
  import opened BlockMap
  import opened EdgeTrace
  import opened PolyTree
  import opened PolyOnce
  import opened LinkLists

  class Traversal {
    const polys: seq<Poly>
    var links: seq<seq<Link>>
    var result: seq<Step>

    constructor (polys: seq<Poly>, links: seq<seq<Link>>)
      ensures this.polys == polys && this.links == links && result == []
    {
      this.polys := polys;
      this.links := links;
      result := [];
    }

    // Walks around node v from its start-th point and over all links below it.
    method Traverse(v: int, x: int, y: int, start: int, ghost t: Forest, ghost k: Shape)
      requires IsRooted(t, k) && polys == t.polys && 0 <= v < |polys| && 0 <= start < |polys[v]|
      requires Whole(t, k, v, links)
      modifies this
      ensures result == old(result) + Around(t, k.rank, v, start, 0, x, y)
      ensures UsedUp(t, k, v, links, old(links))
      decreases |k.rank| - k.rank[v], 1
    {
      var i, px, py := start, x, y;
      ghost var c, n := 0, |polys[v]|;
      PendingFirst(t, k, v, start, links);
      while true
        invariant 0 <= c < n && i == At(start, c, n)
        invariant Pending(t, k, v, start, c, 0, links, old(links))
        invariant result + Around(t, k.rank, v, start, c, px, py) == old(result) + Around(t, k.rank, v, start, 0, x, y)
        decreases n - c
      {
        ghost var soFar := result;
        FollowLinks(v, i, px, py, start, c, old(links), t, k);
        var dx, dy := Dx(polys[v][i].dir), Dy(polys[v][i].dir);
        result := result + [Step(px, py, dx, dy, Edge(v, i))];
        EdgeAdded(t, k, v, start, c, px, py, soFar, result);
        px, py := px + dx, py + dy;
        NextPoint(start, c, n);
        i := (i + 1) % |polys[v]|;
        c := c + 1;
        if i == start {
          break;
        }
      }
      PendingLast(t, k, v, start, links, old(links));
    }

    // The links that start at point i of node v, in the order of its list.
    method FollowLinks(v: int, i: int, x: int, y: int, ghost start: int, ghost c: int, ghost was: seq<seq<Link>>,
      ghost t: Forest, ghost k: Shape)
      requires IsRooted(t, k) && polys == t.polys && 0 <= v < |polys| && 0 <= start < |polys[v]| && 0 <= c < |polys[v]|
      requires i == At(start, c, |polys[v]|) && Pending(t, k, v, start, c, 0, links, was)
      modifies this
      ensures result == old(result) + AtPoint(t, k.rank, v, i, 0, x, y)
      ensures Pending(t, k, v, start, c + 1, 0, links, was)
      decreases |k.rank| - k.rank[v], 0
    {
      ghost var a := 0;
      while IndexOf(links[v], i) < |links[v]|
        invariant 0 <= a <= |t.links[v]| && Pending(t, k, v, start, c, a, links, was)
        invariant result + AtPoint(t, k.rank, v, i, a, x, y) == old(result) + AtPoint(t, k.rank, v, i, 0, x, y)
        decreases |t.links[v]| - a
      {
        a := FollowOne(v, i, x, y, start, c, a, was, t, k);
      }
      PendingNext(t, k, v, start, c, a, links, was);
      NoStepsLeft(t, k.rank, v, i, a, x, y);
    }

    method FollowOne(v: int, i: int, x: int, y: int, ghost start: int,
                         ghost c: int, ghost a: nat, ghost was: seq<seq<Link>>,
      ghost t: Forest, ghost k: Shape) returns (ghost next: nat)
      requires IsRooted(t, k) && polys == t.polys && 0 <= v < |polys| && 0 <= start < |polys[v]| && 0 <= c < |polys[v]|
      requires i == At(start, c, |polys[v]|) && a <= |t.links[v]| && Pending(t, k, v, start, c, a, links, was)
      requires IndexOf(links[v], i) < |links[v]|
      modifies this
      ensures a < next <= |t.links[v]| && Pending(t, k, v, start, c, next, links, was)
      ensures result + AtPoint(t, k.rank, v, i, next, x, y) == old(result) + AtPoint(t, k.rank, v, i, a, x, y)
      decreases |k.rank| - k.rank[v], 0, 0
    {
      var j := IndexOf(links[v], i);
      var l := links[v][j];
      ghost var soFar := result;
      ghost var b := NextToFollow(t, k, v, start, c, a, links, was);
      GoOver(l, x, y, t, k, v, b);
      PendingAfterLink(t, k, v, start, c, a, b, old(links), links, was);
      links := links[v := Without(links[v], j)];
      LinkAdded(t, k, v, i, a, b, x, y, soFar);
      next := b + 1;
    }

    // Over one link, around the polygon at its end, and back.
    method GoOver(l: Link, x: int, y: int, ghost t: Forest, ghost k: Shape, ghost v: int, ghost b: int)
      requires IsRooted(t, k) && polys == t.polys && 0 <= v < |polys| && 0 <= b < |t.links[v]| && l == t.links[v][b]
      requires LinkFits(t, k.rank, v, l) && Whole(t, k, l.target, links)
      modifies this
      ensures result == old(result) + Over(t, k.rank, v, b, x, y) && UsedUp(t, k, l.target, links, old(links))
      decreases |k.rank| - k.rank[v], 0, 0, 0
    {
      result := result + [Step(x, y, l.dx, l.dy, Out(l.target))];
      Traverse(l.target, x + l.dx, y + l.dy, l.targetIndex, t, k);
      result := result + [Step(x + l.dx, y + l.dy, -l.dx, -l.dy, Back(l.target))];
      OverAppended(old(result), t, k.rank, v, b, x, y);
    }
  }

  lemma OverAppended(before: seq<Step>, t: Forest, rank: seq<nat>, v: int, b: int, x: int, y: int)
    requires IsTree(t, rank) && 0 <= v < |t.polys| && 0 <= b < |t.links[v]| && LinkFits(t, rank, v, t.links[v][b])
    ensures var l := t.links[v][b];
      before + [Step(x, y, l.dx, l.dy, Out(l.target))]
        + Around(t, rank, l.target, l.targetIndex, 0, x + l.dx, y + l.dy)
        + [Step(x + l.dx, y + l.dy, -l.dx, -l.dy, Back(l.target))]
      == before + Over(t, rank, v, b, x, y)
  {
  }
}
