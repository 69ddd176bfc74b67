/** The map optimiser of client.c: recoding walls and space in place, and undoing
    it. */
module MapOptimizer {
  import opened Arith
  import opened MapCodes
  import opened MapGrid

  // What is done to the blocks of a rectangle: walls are recoded for drawing, or
  // given back their plain types.
  datatype Change = ToBlue(outline: bool) | ToPlain

  function Target(m: Shape, d: seq<bv8>, c: Change, i: int, j: int): bv8
    requires Fits(m, d) && m.Has(i, j)
  {
    if c.ToBlue? then Recoded(m, d, c.outline, i, j) else Restore(At(m, d, i, j))
  }

  // The blocks done are changed as if all at the same time, the others are not.
  ghost predicate ChangedIn(m: Shape, d: seq<bv8>, e: seq<bv8>, c: Change, done: set<(int, int)>) {
    && Fits(m, d) && Fits(m, e)
    && forall i, j :: m.Has(i, j) ==>
      At(m, e, i, j) == if (i, j) in done then Target(m, d, c, i, j) else At(m, d, i, j)
  }

  lemma ChangeAgain(m: Shape, d: seq<bv8>, e: seq<bv8>, c: Change, done: set<(int, int)>, i: int, j: int)
    requires ChangedIn(m, d, e, c, done) && m.Has(i, j)
    ensures Target(m, e, c, i, j) == Target(m, d, c, i, j)
  {
    if c.ToBlue? {
      OrderDoesNotMatter(m, d, e, c.outline, i, j);
    } else {
      RestoringTwice(At(m, d, i, j));
    }
  }

  lemma ChangedOne(m: Shape, d: seq<bv8>, e: seq<bv8>, c: Change, done: set<(int, int)>, i: int, j: int)
    requires ChangedIn(m, d, e, c, done) && m.Has(i, j)
    ensures 0 <= m.Index(i, j) < |e|
    ensures ChangedIn(m, d, e[m.Index(i, j) := Target(m, e, c, i, j)], c, done + {(i, j)})
  {
    IndexFits(m, i, j);
    ChangeAgain(m, d, e, c, done, i, j);
    var f := e[m.Index(i, j) := Target(m, e, c, i, j)];
    forall k, n | m.Has(k, n)
      ensures At(m, f, k, n) == if (k, n) in done + {(i, j)} then Target(m, d, c, k, n) else At(m, d, k, n)
    {
      if m.Index(k, n) == m.Index(i, j) {
        IndexIsInjective(m, i, j, k, n);
      } else {
        IndexFits(m, k, n);
        assert At(m, f, k, n) == At(m, e, k, n);
      }
    }
  }

  // ---- Rectangles ----

  // The places of a rectangle given by its start and its size, which may run over
  // the edges of the map.
  ghost function Rectangle(m: Shape, startx: int, starty: int, width: int, height: int): set<(int, int)>
    requires m.Valid()
  {
    set i, j | 0 <= i < m.x && 0 <= j < m.y && InSpan(i, startx, width, m.x) && InSpan(j, starty, height, m.y) :: (i, j)
  }

  // The places of its first w columns, and of the first h rows of the next one.
  ghost function Visited(m: Shape, startx: int, starty: int, w: nat, height: int, h: nat): set<(int, int)>
    requires m.Valid()
  {
    Rectangle(m, startx, starty, w, height)
      + set j | 0 <= j < m.y && InSpan(j, starty, h, m.y) :: (Onward(startx, w, m.x), j)
  }

  lemma VisitedOne(m: Shape, startx: int, starty: int, w: nat, height: int, h: nat)
    requires m.Valid()
    ensures Visited(m, startx, starty, w, height, h + 1) ==
            Visited(m, startx, starty, w, height, h) + {(Onward(startx, w, m.x), Onward(starty, h, m.y))}
  {
    forall j ensures InSpan(j, starty, h + 1, m.y) <==> InSpan(j, starty, h, m.y) || j == Onward(starty, h, m.y) {
      SpanGrows(j, starty, h, m.y);
    }
  }

  lemma VisitedColumn(m: Shape, startx: int, starty: int, w: nat, height: nat)
    requires m.Valid()
    ensures Visited(m, startx, starty, w, height, height) == Rectangle(m, startx, starty, w + 1, height)
    ensures Visited(m, startx, starty, w, height, 0) == Rectangle(m, startx, starty, w, height)
    ensures Rectangle(m, startx, starty, 0, height) == {}
  {
    forall i ensures InSpan(i, startx, w + 1, m.x) <==> InSpan(i, startx, w, m.x) || i == Onward(startx, w, m.x) {
      SpanGrows(i, startx, w, m.x);
    }
  }

  lemma WholeMap(m: Shape, startx: int, starty: int)
    requires m.Valid()
    ensures forall i, j :: m.Has(i, j) ==> (i, j) in Rectangle(m, startx, starty, m.x, m.y)
  {
    forall i, j | m.Has(i, j) ensures (i, j) in Rectangle(m, startx, starty, m.x, m.y) {
      WholeSpan(i, startx, m.x);
      WholeSpan(j, starty, m.y);
    }
  }

  // ---- What the blocks were received as ----

  // Blocks keep the types they were received as.
  ghost predicate SameBlocks(d: seq<bv8>, e: seq<bv8>) {
    |d| == |e| && forall k :: 0 <= k < |d| ==> Normal(e[k]) == Normal(d[k])
  }

  lemma ChangeKeepsBlocks(m: Shape, d: seq<bv8>, e: seq<bv8>, c: Change, done: set<(int, int)>)
    requires ChangedIn(m, d, e, c, done)
    ensures SameBlocks(d, e)
  {
    forall k | 0 <= k < |d| ensures Normal(e[k]) == Normal(d[k]) {
      var i, j := PlaceOf(m, k);
      assert At(m, e, i, j) == e[k] && At(m, d, i, j) == d[k];
      NormalIsKept(d[k], SidesOf(m, d, c.ToBlue? && c.outline, i, j));
    }
  }

  // ---- Dots ----

  // The places that become dots when they can: along the left and lower edges of
  // a map that wraps, and at every crossing of a grid.
  predicate DotPlace(wrap: bool, dist: int, i: int, j: int) {
    (wrap && (i == 0 || j == 0)) || (dist > 0 && IsMultiple(i, dist) && IsMultiple(j, dist))
  }

  ghost function DotPlaces(m: Shape, dist: int): set<(int, int)> {
    set i, j | 0 <= i < m.x && 0 <= j < m.y && DotPlace(m.wrap, dist, i, j) :: (i, j)
  }

  predicate IsMultiple(v: int, dist: int)
    requires 0 < dist
  {
    v % dist == 0
  }

  predicate OnGrid(start: int, dist: int, i: int, j: int)
    requires 0 < dist
  {
    start <= i && start <= j && IsMultiple(i, dist) && IsMultiple(j, dist)
  }

  // After a multiple of dist the next one is dist further on.
  lemma MultiplesFollow(v: int, dist: int)
    requires 0 < dist && IsMultiple(v, dist)
    ensures IsMultiple(v + dist, dist)
    ensures forall i :: v < i < v + dist ==> !IsMultiple(i, dist)
  {
    var q := v / dist;
    ModUnique(v + dist, q + 1, 0, dist);
    forall i | v < i < v + dist ensures !IsMultiple(i, dist) {
      ModUnique(i, q, i - v, dist);
    }
  }

  lemma AllMultiples(dist: int)
    requires 0 < dist
    ensures forall i :: 0 < i < dist ==> !IsMultiple(i, dist)
    ensures IsMultiple(0, dist)
  {
    MultiplesFollow(0, dist);
  }

  function Dotted(t: bv8, showDecor: bool, dot: bool): bv8 {
    var u := RemoveDot(t);
    if dot && CanBeDot(u, showDecor) then MakeDot(u) else u
  }

  // The blocks at the places done have become dots, if they can be dots.
  ghost predicate DottedIn(m: Shape, d: seq<bv8>, e: seq<bv8>, showDecor: bool, done: set<(int, int)>) {
    && Fits(m, d) && Fits(m, e)
    && forall i, j :: m.Has(i, j) ==> At(m, e, i, j) == Dotted(At(m, d, i, j), showDecor, (i, j) in done)
  }

  lemma DottedOne(m: Shape, d: seq<bv8>, e: seq<bv8>, showDecor: bool, done: set<(int, int)>, i: int, j: int)
    requires DottedIn(m, d, e, showDecor, done) && m.Has(i, j)
    ensures 0 <= m.Index(i, j) < |e|
    ensures var t := e[m.Index(i, j)];
      DottedIn(m, d, e[m.Index(i, j) := if CanBeDot(t, showDecor) then MakeDot(t) else t], showDecor, done + {(i, j)})
  {
    IndexFits(m, i, j);
    var t := e[m.Index(i, j)];
    assert At(m, e, i, j) == t;
    DotAgain(At(m, d, i, j), showDecor, (i, j) in done);
    var f := e[m.Index(i, j) := if CanBeDot(t, showDecor) then MakeDot(t) else t];
    forall k, n | m.Has(k, n)
      ensures At(m, f, k, n) == Dotted(At(m, d, k, n), showDecor, (k, n) in done + {(i, j)})
    {
      if m.Index(k, n) == m.Index(i, j) {
        IndexIsInjective(m, i, j, k, n);
      } else {
        IndexFits(m, k, n);
        assert At(m, f, k, n) == At(m, e, k, n);
      }
    }
  }

  lemma DotAgain(t: bv8, showDecor: bool, dot: bool)
    ensures var u := Dotted(t, showDecor, dot);
      (if CanBeDot(u, showDecor) then MakeDot(u) else u) == Dotted(t, showDecor, true)
  {
  }

  lemma DotsKeepBlocks(m: Shape, d: seq<bv8>, e: seq<bv8>, showDecor: bool, done: set<(int, int)>)
    requires DottedIn(m, d, e, showDecor, done)
    ensures SameBlocks(d, e)
  {
    forall k | 0 <= k < |d| ensures Normal(e[k]) == Normal(d[k]) {
      var i, j := PlaceOf(m, k);
      assert At(m, e, i, j) == e[k] && At(m, d, i, j) == d[k];
      DottedIsNormal(d[k], showDecor, (i, j) in done);
    }
  }

  lemma DottedIsNormal(t: bv8, showDecor: bool, dot: bool)
    ensures Normal(Dotted(t, showDecor, dot)) == Normal(t)
  {
  }

  // ---- Calls ----

  // After a call for dots, the dots are exactly at the places for them, where the block was
  // received as space, or as a decoration while decorations are not shown.
  lemma DotsAreExact(m: Shape, d: seq<bv8>, e: seq<bv8>, showDecor: bool, size: int, dist: int)
    requires Does(m, d, Dots(showDecor, size, dist), e)
    ensures forall i, j {:trigger At(m, e, i, j)} :: m.Has(i, j) ==>
      (IsDot(At(m, e, i, j)) <==>
         0 < size && DotPlace(m.wrap, dist, i, j)
         && (Normal(At(m, d, i, j)) == SETUP_SPACE || (!showDecor && IsDecor(Normal(At(m, d, i, j))))))
  {
    forall i, j | m.Has(i, j)
      ensures IsDot(At(m, e, i, j)) <==>
        0 < size && DotPlace(m.wrap, dist, i, j)
        && (Normal(At(m, d, i, j)) == SETUP_SPACE || (!showDecor && IsDecor(Normal(At(m, d, i, j)))))
    {
      DotIsExact(At(m, d, i, j), showDecor, 0 < size && DotPlace(m.wrap, dist, i, j));
    }
  }

  lemma DotIsExact(t: bv8, showDecor: bool, dot: bool)
    ensures IsDot(Dotted(t, showDecor, dot)) <==>
      dot && (Normal(t) == SETUP_SPACE || (!showDecor && IsDecor(Normal(t))))
  {
  }

  // What the client does to its map: Map_blue, Map_restore and Map_dots.
  datatype Call =
    | Optimize(startx: int, starty: int, width: int, height: int, outline: bool)
    | Undo(startx: int, starty: int, width: int, height: int)
    | Dots(showDecor: bool, pointSize: int, pointDist: int)

  ghost predicate Does(m: Shape, d: seq<bv8>, call: Call, e: seq<bv8>) {
    && m.Valid()
    && match call
       case Optimize(sx, sy, w, h, outline) => ChangedIn(m, d, e, ToBlue(outline), Rectangle(m, sx, sy, w, h))
       case Undo(sx, sy, w, h) => ChangedIn(m, d, e, ToPlain, Rectangle(m, sx, sy, w, h))
       case Dots(showDecor, size, dist) => DottedIn(m, d, e, showDecor, if size > 0 then DotPlaces(m, dist) else {})
  }

  // The map before, between and after these calls.
  ghost predicate Runs(m: Shape, calls: seq<Call>, maps: seq<seq<bv8>>) {
    |maps| == |calls| + 1 && forall k :: 0 <= k < |calls| ==> Does(m, maps[k], calls[k], maps[k + 1])
  }

  lemma CallKeepsBlocks(m: Shape, d: seq<bv8>, call: Call, e: seq<bv8>)
    requires Does(m, d, call, e)
    ensures SameBlocks(d, e)
  {
    match call
    case Optimize(sx, sy, w, h, outline) => ChangeKeepsBlocks(m, d, e, ToBlue(outline), Rectangle(m, sx, sy, w, h));
    case Undo(sx, sy, w, h) => ChangeKeepsBlocks(m, d, e, ToPlain, Rectangle(m, sx, sy, w, h));
    case Dots(showDecor, size, dist) => DotsKeepBlocks(m, d, e, showDecor, if size > 0 then DotPlaces(m, dist) else {});
  }

  // No sequence of calls loses what the blocks were received as.
  lemma {:induction false} CallsKeepBlocks(m: Shape, calls: seq<Call>, maps: seq<seq<bv8>>, k: nat)
    requires Runs(m, calls, maps) && k <= |calls|
    ensures SameBlocks(maps[0], maps[k])
  {
    if k > 0 {
      CallsKeepBlocks(m, calls, maps, k - 1);
      CallKeepsBlocks(m, maps[k - 1], calls[k - 1], maps[k]);
    }
  }

  // A map as it can be received: no recoded walls, and no dots of the client.
  ghost predicate Plain(d: seq<bv8>) {
    forall k :: 0 <= k < |d| ==> Normal(d[k]) == d[k]
  }

  // After any sequence of calls, restoring the whole map and removing all dots gives
  // back the map received.
  lemma RestoringGivesBack(m: Shape, calls: seq<Call>, maps: seq<seq<bv8>>,
                           startx: int, starty: int, showDecor: bool, dist: int)
    requires m.Valid() && |maps| == |calls| + 3 && Plain(maps[0])
    requires Runs(m, calls + [Undo(startx, starty, m.x, m.y), Dots(showDecor, 0, dist)], maps)
    ensures maps[|calls| + 2] == maps[0]
  {
    var all := calls + [Undo(startx, starty, m.x, m.y), Dots(showDecor, 0, dist)];
    CallsKeepBlocks(m, all, maps, |calls|);
    var d, e, f := maps[|calls|], maps[|calls| + 1], maps[|calls| + 2];
    assert all[|calls|] == Undo(startx, starty, m.x, m.y) && Does(m, d, all[|calls|], e);
    assert all[|calls| + 1] == Dots(showDecor, 0, dist) && Does(m, e, all[|calls| + 1], f);
    WholeMap(m, startx, starty);
    forall k | 0 <= k < |d| ensures f[k] == maps[0][k] {
      var i, j := PlaceOf(m, k);
      assert At(m, f, i, j) == f[k] && At(m, e, i, j) == e[k] && At(m, d, i, j) == d[k];
      assert Normal(d[k]) == Normal(maps[0][k]) == maps[0][k];
    }
  }

  // ---- The whole map ----

  lemma WholeMapIsRecoded(m: Shape, d: seq<bv8>, e: seq<bv8>, startx: int, starty: int, outline: bool)
    requires Does(m, d, Optimize(startx, starty, m.x, m.y, outline), e)
    ensures AllRecoded(m, d, e, outline)
  {
    WholeMap(m, startx, starty);
  }

  // After Map_blue for the whole map the side between two blocks is drawn once when one
  // of them is solid there; with outlines, when exactly one of them is.
  lemma SidesAreDrawnOnce(m: Shape, d: seq<bv8>, e: seq<bv8>, startx: int, starty: int, outline: bool,
                          i: int, j: int, side: bv8)
    requires Does(m, d, Optimize(startx, starty, m.x, m.y, outline), e)
    requires Received(d) && m.Has(i, j) && (side == BLUE_RIGHT || side == BLUE_UP)
    requires m.AtEdge(i, j, side) ==> m.wrap
    ensures AllRecoded(m, d, e, outline)
    ensures var n := m.Near(i, j, side);
      var mine, theirs := Blue(At(m, d, i, j)) & side != 0, Blue(At(m, d, n.0, n.1)) & Opposite(side) != 0;
      TimesDrawn(m, e, i, j, side) == if (if outline then mine != theirs else mine || theirs) then 1 else 0
  {
    WholeMapIsRecoded(m, d, e, startx, starty, outline);
    RecodedIsDrawnOnce(m, d, e, outline, i, j, side);
  }

  // At the edge of a map that does not wrap it draws every solid side.
  lemma EdgesAreDrawn(m: Shape, d: seq<bv8>, e: seq<bv8>, startx: int, starty: int, outline: bool,
                      i: int, j: int, side: bv8)
    requires Does(m, d, Optimize(startx, starty, m.x, m.y, outline), e)
    requires Received(d) && m.Has(i, j) && m.AtEdge(i, j, side) && !m.wrap
    requires side == BLUE_RIGHT || side == BLUE_UP || side == BLUE_LEFT || side == BLUE_DOWN
    ensures Draws(At(m, e, i, j), side) <==> Blue(At(m, d, i, j)) & side != 0
  {
    WholeMapIsRecoded(m, d, e, startx, starty, outline);
    RecodedEdgeIsDrawn(m, d, e, outline, i, j, side);
  }
}
