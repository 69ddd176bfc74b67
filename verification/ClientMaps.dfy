/** The map of the client, changed in place by Map_dots, Map_blue and Map_restore
    of client.c. */
module ClientMaps {
  import opened MapCodes
  import opened MapGrid
  import opened MapOptimizer

  class ClientMap {
    const m: Shape
    const data: array<bv8>

    ghost predicate Valid() { m.Valid() && data.Length == m.x * m.y }

    method ChangeBlock(x: int, y: int, c: Change, ghost d: seq<bv8>, ghost done: set<(int, int)>)
      requires Valid() && m.Has(x, y) && ChangedIn(m, d, data[..], c, done)
      modifies data
      ensures ChangedIn(m, d, data[..], c, done + {(x, y)})
    {
      ChangedOne(m, d, data[..], c, done, x, y);
      data[m.Index(x, y)] := Target(m, data[..], c, x, y);
    }

    // Columns before w and the first j blocks of this one are done, and y is next.
    ghost predicate ColumnDone(d: seq<bv8>, c: Change, startx: int, starty: int, w: nat, height: nat, j: nat, y: int)
      requires Valid()
      reads data
    {
      && Counting(starty, j, y, m.y)
      && ChangedIn(m, d, data[..], c, Visited(m, startx, starty, w, height, j))
    }

    // Change the next block of a column.
    method ChangeNext(x: int, y0: int, c: Change, ghost d: seq<bv8>,
                      ghost startx: int, ghost starty: int, ghost w: nat, ghost height: nat, ghost j: nat)
      returns (y: int)
      requires Valid() && -m.y <= starty < 2 * m.y && m.Has(x, 0) && x == Onward(startx, w, m.x)
      requires ColumnDone(d, c, startx, starty, w, height, j, y0)
      modifies data
      ensures ColumnDone(d, c, startx, starty, w, height, j + 1, y)
    {
      WrapFollows(starty, j, y0, m.y);
      y := Wrap(y0, m.y);
      VisitedOne(m, startx, starty, w, height, j);
      ChangeBlock(x, y, c, d, Visited(m, startx, starty, w, height, j));
      y := y + 1;
    }

    method ChangeColumn(x: int, starty: int, height: nat, c: Change, ghost d: seq<bv8>, ghost startx: int, ghost w: nat)
      requires Valid() && -m.y <= starty < 2 * m.y && m.Has(x, 0) && x == Onward(startx, w, m.x)
      requires ColumnDone(d, c, startx, starty, w, height, 0, starty)
      modifies data
      ensures ChangedIn(m, d, data[..], c, Visited(m, startx, starty, w, height, height))
    {
      var j, y := 0, starty;
      while j < height
        invariant 0 <= j <= height && ColumnDone(d, c, startx, starty, w, height, j, y)
      {
        y := ChangeNext(x, y, c, d, startx, starty, w, height, j);
        j := j + 1;
      }
    }

    // Change all blocks of a rectangle, which may run over the edges of the map.
    method ChangeRectangle(startx: int, starty: int, width: nat, height: nat, c: Change)
      requires Valid() && -m.x <= startx < 2 * m.x && -m.y <= starty < 2 * m.y
      modifies data
      ensures ChangedIn(m, old(data[..]), data[..], c, Rectangle(m, startx, starty, width, height))
    {
      ghost var d := data[..];
      var i, x := 0, startx;
      VisitedColumn(m, startx, starty, 0, height);
      while i < width
        invariant 0 <= i <= width && Counting(startx, i, x, m.x)
        invariant ChangedIn(m, d, data[..], c, Rectangle(m, startx, starty, i, height))
      {
        WrapFollows(startx, i, x, m.x);
        x := Wrap(x, m.x);
        VisitedColumn(m, startx, starty, i, height);
        ChangeColumn(x, starty, height, c, d, startx, i);
        i, x := i + 1, x + 1;
      }
    }

    // Optimize the drawing of the walls of a rectangle.
    method MapBlue(startx: int, starty: int, width: nat, height: nat, outline: bool)
      requires Valid() && -m.x <= startx < 2 * m.x && -m.y <= starty < 2 * m.y
      modifies data
      ensures Does(m, old(data[..]), Optimize(startx, starty, width, height, outline), data[..])
    {
      ChangeRectangle(startx, starty, width, height, ToBlue(outline));
    }

    // Restore a rectangle to its unoptimized state.
    method MapRestore(startx: int, starty: int, width: nat, height: nat)
      requires Valid() && -m.x <= startx < 2 * m.x && -m.y <= starty < 2 * m.y
      modifies data
      ensures Does(m, old(data[..]), Undo(startx, starty, width, height), data[..])
    {
      ChangeRectangle(startx, starty, width, height, ToPlain);
    }

    // Turn a block into a dot if its type allows it.
    method DotBlock(x: int, y: int, showDecor: bool, ghost d: seq<bv8>, ghost done: set<(int, int)>)
      requires Valid() && m.Has(x, y) && DottedIn(m, d, data[..], showDecor, done)
      modifies data
      ensures DottedIn(m, d, data[..], showDecor, done + {(x, y)})
    {
      DottedOne(m, d, data[..], showDecor, done, x, y);
      var k := m.Index(x, y);
      if CanBeDot(data[k], showDecor) {
        data[k] := MakeDot(data[k]);
      }
      assert data[..] == old(data[..])[k :=
              if CanBeDot(old(data[k]), showDecor) then MakeDot(old(data[k])) else old(data[k])];
    }

    // Restore all dots to what they were.
    method RemoveDots(showDecor: bool)
      requires Valid()
      modifies data
      ensures DottedIn(m, old(data[..]), data[..], showDecor, {})
    {
      var i := data.Length;
      while i > 0
        invariant 0 <= i <= data.Length
        invariant forall k :: 0 <= k < i ==> data[k] == old(data[k])
        invariant forall k :: i <= k < data.Length ==> data[k] == RemoveDot(old(data[k]))
      {
        i := i - 1;
        data[i] := RemoveDot(data[i]);
      }
      forall i, j | m.Has(i, j) ensures At(m, data[..], i, j) == RemoveDot(At(m, old(data[..]), i, j)) {
        IndexFits(m, i, j);
      }
    }

    // Dots along the left and lower edges.
    method DotEdges(showDecor: bool, ghost d: seq<bv8>) returns (ghost done: set<(int, int)>)
      requires Valid() && DottedIn(m, d, data[..], showDecor, {})
      modifies data
      ensures DottedIn(m, d, data[..], showDecor, done)
      ensures forall i, j :: m.Has(i, j) ==> ((i, j) in done <==> i == 0 || j == 0)
    {
      done := {};
      for x := 0 to m.x
        invariant DottedIn(m, d, data[..], showDecor, done)
        invariant forall i, j :: m.Has(i, j) ==> ((i, j) in done <==> j == 0 && i < x)
      {
        DotBlock(x, 0, showDecor, d, done);
        done := done + {(x, 0)};
      }
      for y := 0 to m.y
        invariant DottedIn(m, d, data[..], showDecor, done)
        invariant forall i, j :: m.Has(i, j) ==> ((i, j) in done <==> j == 0 || (i == 0 && j < y))
      {
        DotBlock(0, y, showDecor, d, done);
        done := done + {(0, y)};
      }
    }

    // Dots in one column of the grid.
    method DotColumn(x: int, start: int, dist: int, showDecor: bool, ghost d: seq<bv8>, ghost done0: set<(int, int)>)
      returns (ghost done: set<(int, int)>)
      requires Valid() && 0 <= x < m.x && 0 < dist && (start == 0 || start == dist)
      requires DottedIn(m, d, data[..], showDecor, done0)
      modifies data
      ensures DottedIn(m, d, data[..], showDecor, done)
      ensures forall i, j :: m.Has(i, j) ==>
        ((i, j) in done <==> (i, j) in done0 || (i == x && start <= j && IsMultiple(j, dist)))
    {
      done := done0;
      var y := start;
      MultiplesFollow(0, dist);
      while y < m.y
        invariant 0 <= y && start <= y && IsMultiple(y, dist)
        invariant DottedIn(m, d, data[..], showDecor, done)
        invariant forall i, j :: m.Has(i, j) ==>
          ((i, j) in done <==> (i, j) in done0 || (i == x && start <= j < y && IsMultiple(j, dist)))
      {
        DotBlock(x, y, showDecor, d, done);
        done := done + {(x, y)};
        MultiplesFollow(y, dist);
        y := y + dist;
      }
    }

    // Optimize the drawing of space dots.
    method MapDots(showDecor: bool, pointSize: int, pointDist: int)
      requires Valid()
      modifies data
      ensures Does(m, old(data[..]), Dots(showDecor, pointSize, pointDist), data[..])
    {
      ghost var d := data[..];
      RemoveDots(showDecor);
      ghost var done: set<(int, int)> := {};
      var start := 0;
      if pointSize > 0 {
        if m.wrap {
          done := DotEdges(showDecor, d);
          start := pointDist;
        }
        if pointDist > 0 {
          var x := start;
          ghost var edges := done;
          MultiplesFollow(0, pointDist);
          while x < m.x
            invariant 0 <= x && start <= x && IsMultiple(x, pointDist)
            invariant DottedIn(m, d, data[..], showDecor, done)
            invariant forall i, j :: m.Has(i, j) ==>
              ((i, j) in done <==> (i, j) in edges || (i < x && OnGrid(start, pointDist, i, j)))
          {
            done := DotColumn(x, start, pointDist, showDecor, d, done);
            MultiplesFollow(x, pointDist);
            x := x + pointDist;
          }
          AllMultiples(pointDist);
        }
      }
      assert pointSize > 0 ==> forall i, j :: m.Has(i, j) ==> ((i, j) in done <==> (i, j) in DotPlaces(m, pointDist));
    }
  }
}
