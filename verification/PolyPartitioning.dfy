/** poly_partition of mapconvert.py: the search that places the blocks. */
module PolyPartitioning {
  import opened BlockMap
  import opened EdgeTrace
  import opened PolyPartition

  class Partitioner {
    const m: Map
    var parts: map<Loc, Place>
    // Places without wrapping whose neighbours are still to be looked at.
    var left: seq<(int, int)>
    var partNum: nat
    ghost var starts: seq<Loc>

    constructor (m: Map)
      requires m.Valid()
      ensures this.m == m && parts == map[] && left == [] && partNum == 0 && starts == []
    {
      this.m := m;
      parts, left, partNum, starts := map[], [], 0, [];
    }

    // The blocks of the list wait, and possibly one more that is being looked at.
    ghost predicate Valid(here: set<Loc>)
      reads this
    {
      m.Valid() && |starts| == partNum + 1 && ListWaits(m, parts, starts, left, here)
    }

    // Looks from a block in one of its directions.
    method Look(x: int, y: int, d: Dir)
      requires m.Valid() && Valid({BlockAt(m, (x, y))}) && HasWay(m.At(BlockAt(m, (x, y))), d)
      requires IsAt(m, parts, (x, y))
      modifies this`parts, this`left
      ensures Valid({BlockAt(m, (x, y))}) && GoesOn(m, old(parts), old(left), parts, left) && IsAt(m, parts, (x, y))
      ensures JoinedWay(m, BlockAt(m, (x, y)), d) ==> IsIn(parts, m.Go(BlockAt(m, (x, y)), d), partNum)
    {
      ghost var here := BlockAt(m, (x, y));
      var x3, y3 := x + Dx(d), y + Dy(d);
      var near := BlockAt(m, (x3, y3));
      BlockNear(m, x, y, d);
      WaysAreSides(m.At(here), d);
      WaysAreSides(m.At(near), Left(d, 4));
      if !IsWall(m.At(near)) || !HasWay(m.At(near), Left(d, 4)) {
        return;
      }
      if near in parts {
        MeetsPart(m, parts, starts, left, (x, y), d);
      } else {
        JoinsList(m, parts, starts, left, (x, y), d);
        left := left + [(x3, y3)];
        parts := parts[near := Place(partNum, x3, y3)];
      }
    }

    // Looks from a block taken off the list in all its directions.
    method Expand(x: int, y: int)
      requires m.Valid() && Valid({BlockAt(m, (x, y))}) && IsAt(m, parts, (x, y))
      modifies this`parts, this`left
      ensures Valid({}) && GoesOn(m, old(parts), old(left), parts, left)
    {
      var here := BlockAt(m, (x, y));
      var ways := Ways(m.At(here));
      var k := 0;
      while k < |ways|
        invariant 0 <= k <= |ways| && Valid({here}) && IsAt(m, parts, (x, y))
        invariant GoesOn(m, old(parts), old(left), parts, left)
        invariant forall j :: 0 <= j < k && JoinedWay(m, here, ways[j]) ==> IsIn(parts, m.Go(here, ways[j]), partNum)
      {
        ghost var before, list := parts, left;
        Look(x, y, ways[k]);
        GoesFurther(m, old(parts), old(left), before, list, parts, left);
        k := k + 1;
      }
      forall d: Dir | JoinedWay(m, here, d) ensures IsIn(parts, m.Go(here, d), partNum) {
        WaysAreSides(m.At(here), d);
        assert d in ways;
      }
      Expanded(m, parts, starts, Pending(m, left), here);
    }

    // Places everything that hangs together with a block not placed yet.
    method FillPart(x: int, y: int)
      requires m.Valid() && |starts| == partNum && Searching(m, parts, starts, {}) && left == []
      requires m.Has(Loc(x, y)) && IsWall(m.At(Loc(x, y))) && Loc(x, y) !in parts
      modifies this
      ensures |starts| == partNum && Searching(m, parts, starts, {}) && left == []
      ensures Grew(old(parts), parts) && Loc(x, y) in parts
    {
      StartPart(x, y);
      while left != []
        invariant m.Valid() && Valid({}) && Grew(old(parts), parts) && Loc(x, y) in parts
        decreases Unplaced(m, parts), |left|
      {
        var (x2, y2) := left[|left| - 1];
        PendingMore(m, left[..|left| - 1], (x2, y2));
        assert left == left[..|left| - 1] + [left[|left| - 1]];
        assert Pending(m, left) + {} == Pending(m, left);
        left := left[..|left| - 1];
        Expand(x2, y2);
      }
      assert Pending(m, left) + {} == {};
      partNum := partNum + 1;
    }

    method StartPart(x: int, y: int)
      requires m.Valid() && |starts| == partNum && Searching(m, parts, starts, {})
      requires m.Has(Loc(x, y)) && IsWall(m.At(Loc(x, y))) && Loc(x, y) !in parts
      modifies this`parts, this`left, this`starts
      ensures Valid({}) && Grew(old(parts), parts) && Loc(x, y) in parts
    {
      NewPart(m, parts, starts, Loc(x, y));
      BlockHere(m, Loc(x, y));
      parts := parts[Loc(x, y) := Place(partNum, x, y)];
      left := [(x, y)];
      starts := starts + [Loc(x, y)];
      assert left[0] == (x, y);
      assert Pending(m, left) + {} == {Loc(x, y)};
    }

    // Finds the parts of the map: two wall blocks are in the same part exactly when
    // they hang together, and each part is laid out as one piece.
    method FindParts() returns (mapParts: map<Loc, Place>, count: nat)
      requires m.Valid() && parts == map[] && left == [] && partNum == 0 && starts == []
      modifies this
      ensures PartsFit(m, mapParts, count) && IsPartition(m, mapParts) && IsLaidOut(m, mapParts, count)
    {
      var y := 0;
      while y < m.height
        invariant 0 <= y <= m.height && |starts| == partNum && left == []
        invariant Searching(m, parts, starts, {})
        invariant forall a: Loc :: m.Has(a) && a.y < y && IsWall(m.At(a)) ==> a in parts
      {
        FindRow(y);
        y := y + 1;
      }
      SearchedAll(m, parts, starts);
      return parts, partNum;
    }

    method FindRow(y: int)
      requires m.Valid() && 0 <= y < m.height && |starts| == partNum && left == [] && Searching(m, parts, starts, {})
      modifies this
      ensures |starts| == partNum && left == [] && Searching(m, parts, starts, {}) && Grew(old(parts), parts)
      ensures forall a: Loc :: m.Has(a) && a.y == y && IsWall(m.At(a)) ==> a in parts
    {
      var x := 0;
      while x < m.width
        invariant 0 <= x <= m.width && |starts| == partNum && left == []
        invariant Searching(m, parts, starts, {}) && Grew(old(parts), parts)
        invariant forall a: Loc :: m.Has(a) && a.y == y && a.x < x && IsWall(m.At(a)) ==> a in parts
      {
        if IsWall(m.At(Loc(x, y))) && Loc(x, y) !in parts {
          FillPart(x, y);
        }
        assert forall a: Loc :: a.x == x && a.y == y ==> a == Loc(x, y);
        x := x + 1;
      }
    }
  }
}
