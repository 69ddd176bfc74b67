/** poly_findedges: the loop that traces the polygon edges of a block map. */
module EdgeFinding {
  import opened Options
  import opened BlockMap
  import opened EdgeTrace

  class EdgeFinder {
    const m: Map
    // The cells whose own diagonal or left side has been followed.
    var done: set<Loc>
    var partPolys: seq<seq<Poly>>
    // Every polygon with its part in the order of discovery, and their darts.
    ghost var found: seq<(int, Poly)>
    ghost var traced: set<Dart>

    ghost predicate Valid()
      reads this
    {
      && m.Valid()
      && Closed(m, traced)
      && DoneFits(m, done, traced)
      && Covers(m, found, traced)
      && Sorted(partPolys, found)
    }

    constructor (theMap: Map, partCount: nat)
      requires theMap.Valid()
      ensures Valid() && m == theMap && found == [] && |partPolys| == partCount
    {
      m := theMap;
      done := {};
      partPolys := seq(partCount, _ => []);
      found := [];
      traced := {};
    }

    // Turn right from dir until there is no wall to the right.
    method TurnRight(l: Loc, dir: Dir) returns (d: Dir)
      requires m.Valid() && m.Has(l)
      requires !m.NoEdge(l, Right(dir, Turns(m, l, dir, 0)))
      ensures d == Right(dir, Turns(m, l, dir, 0))
    {
      d := dir;
      ghost var k := 0;
      while m.NoEdge(l, d)
        invariant 0 <= k <= Turns(m, l, dir, 0) && d == Right(dir, k)
        decreases 6 - k
      {
        d := Right(d, 1);
        k := k + 1;
      }
    }

    // Mark the cell that this edge belongs to and go on to the next edge.
    method Advance(l0: Loc, dir0: Dir) returns (l: Loc, dir: Dir)
      requires m.Valid() && Boundary(m, Dart(l0, dir0))
      modifies this`done
      ensures Dart(l, dir) == Next(m, Dart(l0, dir0))
      ensures done == old(done) + Owners(m, {Dart(l0, dir0)})
    {
      NextIsBoundary(m, Dart(l0, dir0));
      if dir0 == 6 || dir0 == 7 {
        done := done + {l0};
      } else if dir0 == 5 {
        done := done + {m.Go(l0, 4)};
      } else if dir0 == 3 {
        done := done + {m.Go(l0, 3)};
      } else if dir0 == 1 {
        done := done + {m.Go(l0, 2)};
      }
      l := m.Go(l0, dir0);
      dir := TurnRight(l, Left(dir0, 3));
    }

    // Traces one whole cycle of boundary edges, from the edge given.
    method TracePoly(x0: int, y0: int, startDir: Dir) returns (poly: Poly)
      requires m.Valid() && Boundary(m, Wrapped(m, Point(x0, y0, startDir)))
      modifies this`done
      ensures IsCycle(m, Darts(m, poly)) && Chained(poly) && Closes(m, poly)
      ensures poly[0] == Point(x0, y0, startDir)
      ensures done == old(done) + Owners(m, DartSet(m, poly))
    {
      var x, y, dir := x0, y0, startDir;
      var l := Wrapped(m, Point(x, y, dir)).at;
      var startLoc := l;
      ghost var cycle := Returns(m, Dart(l, dir));
      poly := [];
      while true
        invariant |poly| < |cycle| && Dart(l, dir) == cycle[|poly|] == Wrapped(m, Point(x, y, dir))
        invariant Darts(m, poly) == cycle[..|poly|]
        invariant Chained(poly + [Point(x, y, dir)]) && (poly + [Point(x, y, dir)])[0] == Point(x0, y0, startDir)
        invariant done == old(done) + Owners(m, DartSet(m, poly))
        decreases |cycle| - |poly|
      {
        ghost var before, here := poly, Point(x, y, dir);
        poly := poly + [Point(x, y, dir)];
        x, y := x + Dx(dir), y + Dy(dir);
        l, dir := Advance(l, dir);
        TraceExtends(m, before, here, cycle, dir);
        assert Point(x, y, dir) == After(here, dir);
        assert Dart(l, dir) == Wrapped(m, Point(x, y, dir));
        if l == startLoc && dir == startDir {
          break;
        }
      }
      assert cycle[..|cycle|] == cycle;
      CycleCloses(m, poly);
    }

    // Trace a new edge and add it to its part.
    method Follow(part: nat, x: int, y: int, dir: Dir) returns (poly: Poly)
      requires Valid() && part < |partPolys|
      requires FreshStart(m, traced, Wrapped(m, Point(x, y, dir)))
      modifies this
      ensures Valid() && |partPolys| == |old(partPolys)|
      ensures old(traced) <= traced && Wrapped(m, Point(x, y, dir)) in traced
      ensures poly != [] && Darts(m, poly)[0] == Wrapped(m, Point(x, y, dir)) && found == old(found) + [(part, poly)]
    {
      poly := TracePoly(x, y, dir);
      assert Darts(m, poly)[0] == Wrapped(m, Point(x, y, dir));
      KeepsAll(m, old(done), traced, found, poly, part);
      SortedMore(partPolys, found, part, poly);
      partPolys := partPolys[part := partPolys[part] + [poly]];
      found := found + [(part, poly)];
      traced := traced + DartSet(m, poly);
    }

    // One turn of the main loop: follow the edge that starts at this cell,
    // unless the cell is done or has no edge of its own.
    method Visit(parts: map<Loc, Place>, c: Loc)
      requires Valid() && PartsFit(m, parts, |partPolys|) && InParts(m, parts, found) && m.Has(c)
      modifies this
      ensures Valid() && |partPolys| == |old(partPolys)| && InParts(m, parts, found)
      ensures old(traced) <= traced
      ensures Start(m, c).Some? ==> Start(m, c).value in traced
    {
      if c in done {
        return;
      }
      var offset := StartOffset(m, c);
      if offset.None? {
        return;
      }
      var p := offset.value;
      var sl := parts[c];
      StartIsFresh(m, done, traced, c, sl.x, sl.y);
      var poly := Follow(sl.part, sl.x + p.x, sl.y + p.y, p.dir);
      InPartsMore(m, parts, old(found), sl.part, poly, c);
    }

    method VisitRow(parts: map<Loc, Place>, y: int)
      requires Valid() && PartsFit(m, parts, |partPolys|) && InParts(m, parts, found) && 0 <= y < m.height
      modifies this
      ensures Valid() && |partPolys| == |old(partPolys)| && InParts(m, parts, found)
      ensures old(traced) <= traced
      ensures forall x :: 0 <= x < m.width && Start(m, Loc(x, y)).Some? ==> Start(m, Loc(x, y)).value in traced
    {
      var x := 0;
      while x < m.width
        invariant 0 <= x <= m.width
        invariant Valid() && |partPolys| == |old(partPolys)| && InParts(m, parts, found)
        invariant old(traced) <= traced
        invariant forall k :: 0 <= k < x && Start(m, Loc(k, y)).Some? ==> Start(m, Loc(k, y)).value in traced
      {
        Visit(parts, Loc(x, y));
        x := x + 1;
      }
    }

    // Every cycle with a downward or diagonal edge is found exactly once, and no
    // other cycle is.
    method FindEdges(parts: map<Loc, Place>)
      requires Valid() && PartsFit(m, parts, |partPolys|) && found == []
      modifies this
      ensures Valid() && |partPolys| == |old(partPolys)| && InParts(m, parts, found)
      ensures forall cycle :: IsMarked(m, cycle) ==> FoundOnce(m, found, cycle)
    {
      var y := 0;
      while y < m.height
        invariant 0 <= y <= m.height
        invariant Valid() && |partPolys| == |old(partPolys)| && InParts(m, parts, found)
        invariant forall c :: m.Has(c) && c.y < y && Start(m, c).Some? ==> Start(m, c).value in traced
      {
        VisitRow(parts, y);
        assert forall c: Loc :: c.y == y ==> c == Loc(c.x, y);
        y := y + 1;
      }
      AllMarksTraced(m, traced);
      forall cycle | IsMarked(m, cycle)
        ensures FoundOnce(m, found, cycle)
      {
        FoundExactlyOnce(m, found, traced, cycle);
      }
    }
  }
}
