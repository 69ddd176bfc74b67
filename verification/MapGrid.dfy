/** The block map as the client lays it out, column after column, and what
    recoding all its walls at once would give. */
module MapGrid {
  import opened Arith
  import opened MapCodes

  datatype Shape = Shape(x: int, y: int, wrap: bool) {

    predicate Valid() { 0 < x && 0 < y }

    predicate Has(i: int, j: int) { 0 <= i < x && 0 <= j < y }

    function Index(i: int, j: int): int { i * y + j }

    // One step in a direction, over the edge if the map wraps; the map edge
    // otherwise has no neighbour.
    function Near(i: int, j: int, side: bv8): (int, int) {
      if side == BLUE_LEFT then (if i == 0 then x - 1 else i - 1, j)
      else if side == BLUE_RIGHT then (if i == x - 1 then 0 else i + 1, j)
      else if side == BLUE_DOWN then (i, if j == 0 then y - 1 else j - 1)
      else (i, if j == y - 1 then 0 else j + 1)
    }

    predicate AtEdge(i: int, j: int, side: bv8) {
      if side == BLUE_LEFT then i == 0
      else if side == BLUE_RIGHT then i == x - 1
      else if side == BLUE_DOWN then j == 0
      else j == y - 1
    }
  }

  function Opposite(side: bv8): bv8 {
    if side == BLUE_LEFT then BLUE_RIGHT
    else if side == BLUE_RIGHT then BLUE_LEFT
    else if side == BLUE_DOWN then BLUE_UP
    else BLUE_DOWN
  }

  lemma IndexFits(m: Shape, i: int, j: int)
    requires m.Valid() && m.Has(i, j)
    ensures 0 <= m.Index(i, j) < m.x * m.y
  {
    assert i * m.y <= (m.x - 1) * m.y;
  }

  lemma IndexIsInjective(m: Shape, i: int, j: int, k: int, n: int)
    requires m.Valid() && m.Has(i, j) && m.Has(k, n) && m.Index(i, j) == m.Index(k, n)
    ensures i == k && j == n
  {
    ModUnique(m.Index(i, j), i, j, m.y);
    ModUnique(m.Index(k, n), k, n, m.y);
  }

  // The place of an index.
  lemma PlaceOf(m: Shape, k: int) returns (i: int, j: int)
    requires m.Valid() && 0 <= k < m.x * m.y
    ensures m.Has(i, j) && m.Index(i, j) == k
  {
    i, j := k / m.y, k % m.y;
    assert i >= m.x ==> i * m.y >= m.x * m.y;
  }

  ghost predicate Fits(m: Shape, d: seq<bv8>) { m.Valid() && |d| == m.x * m.y }

  function At(m: Shape, d: seq<bv8>, i: int, j: int): bv8
    requires Fits(m, d) && m.Has(i, j)
  {
    IndexFits(m, i, j);
    d[m.Index(i, j)]
  }

  // Does the neighbour on this side have a solid wall along the common side?
  function Joined(m: Shape, d: seq<bv8>, i: int, j: int, side: bv8): bool
    requires Fits(m, d) && m.Has(i, j)
  {
    if m.AtEdge(i, j, side) && !m.wrap then false
    else
      var n := m.Near(i, j, side);
      Blue(At(m, d, n.0, n.1)) & Opposite(side) != 0
  }

  // The sides that the block is to draw: left and down where the neighbour has no
  // wall; right and up likewise if only outlines are drawn, and always otherwise.
  function SidesOf(m: Shape, d: seq<bv8>, outline: bool, i: int, j: int): Sides
    requires Fits(m, d) && m.Has(i, j)
  {
    Sides(!Joined(m, d, i, j, BLUE_LEFT), !outline || !Joined(m, d, i, j, BLUE_UP),
          !outline || !Joined(m, d, i, j, BLUE_RIGHT), !Joined(m, d, i, j, BLUE_DOWN))
  }

  function Recoded(m: Shape, d: seq<bv8>, outline: bool, i: int, j: int): bv8
    requires Fits(m, d) && m.Has(i, j)
  {
    Recode(At(m, d, i, j), SidesOf(m, d, outline, i, j))
  }

  // ---- Recoding in place ----

  // Every block is as it was, or recoded as it would have been at the start.
  ghost predicate PartlyRecoded(m: Shape, d: seq<bv8>, e: seq<bv8>, outline: bool) {
    && Fits(m, d) && Fits(m, e)
    && forall i, j :: m.Has(i, j) ==> At(m, e, i, j) == At(m, d, i, j) || At(m, e, i, j) == Recoded(m, d, outline, i, j)
  }

  // Then recoding a block now gives the same as recoding it at the start.
  lemma OrderDoesNotMatter(m: Shape, d: seq<bv8>, e: seq<bv8>, outline: bool, i: int, j: int)
    requires PartlyRecoded(m, d, e, outline) && m.Has(i, j)
    ensures Recoded(m, e, outline, i, j) == Recoded(m, d, outline, i, j)
  {
    forall k, n | m.Has(k, n) ensures Blue(At(m, e, k, n)) == Blue(At(m, d, k, n)) {
      RecodingKeepsBlue(At(m, d, k, n), SidesOf(m, d, outline, k, n));
    }
    assert SidesOf(m, e, outline, i, j) == SidesOf(m, d, outline, i, j);
    RecodingTwice(At(m, d, i, j), SidesOf(m, d, outline, i, j));
  }

  // ---- Which sides are drawn ----

  ghost predicate AllRecoded(m: Shape, d: seq<bv8>, e: seq<bv8>, outline: bool) {
    && Fits(m, d) && Fits(m, e)
    && forall i, j :: m.Has(i, j) ==> At(m, e, i, j) == Recoded(m, d, outline, i, j)
  }

  // A map as received: no wall has been recoded yet.
  ghost predicate Received(d: seq<bv8>) {
    forall k :: 0 <= k < |d| ==> d[k] & BLUE_BIT == 0
  }

  // The side between a block and its right or upper neighbour is drawn by the
  // block, by the neighbour, by both or by none.
  function TimesDrawn(m: Shape, e: seq<bv8>, i: int, j: int, side: bv8): int
    requires Fits(m, e) && m.Has(i, j)
  {
    var n := m.Near(i, j, side);
    (if Draws(At(m, e, i, j), side) then 1 else 0)
    + (if Draws(At(m, e, n.0, n.1), Opposite(side)) then 1 else 0)
  }

  lemma RecodedIsDrawnOnce(m: Shape, d: seq<bv8>, e: seq<bv8>, outline: bool, i: int, j: int, side: bv8)
    requires AllRecoded(m, d, e, outline) && Received(d) && m.Has(i, j)
    requires side == BLUE_RIGHT || side == BLUE_UP
    requires m.AtEdge(i, j, side) ==> m.wrap
    ensures var n := m.Near(i, j, side);
      var mine, theirs := Blue(At(m, d, i, j)) & side != 0, Blue(At(m, d, n.0, n.1)) & Opposite(side) != 0;
      TimesDrawn(m, e, i, j, side) == if (if outline then mine != theirs else mine || theirs) then 1 else 0
  {
    var n := m.Near(i, j, side);
    IndexFits(m, i, j);
    IndexFits(m, n.0, n.1);
    assert m.Near(n.0, n.1, Opposite(side)) == (i, j);
    assert At(m, e, i, j) == Recoded(m, d, outline, i, j);
    assert At(m, e, n.0, n.1) == Recoded(m, d, outline, n.0, n.1);
    RecodedDraws(At(m, d, i, j), SidesOf(m, d, outline, i, j));
    RecodedDraws(At(m, d, n.0, n.1), SidesOf(m, d, outline, n.0, n.1));
  }

  // At the edge of a map that does not wrap every solid side is drawn.
  lemma RecodedEdgeIsDrawn(m: Shape, d: seq<bv8>, e: seq<bv8>, outline: bool, i: int, j: int, side: bv8)
    requires AllRecoded(m, d, e, outline) && Received(d) && m.Has(i, j)
    requires side == BLUE_RIGHT || side == BLUE_UP || side == BLUE_LEFT || side == BLUE_DOWN
    requires m.AtEdge(i, j, side) && !m.wrap
    ensures Draws(At(m, e, i, j), side) <==> Blue(At(m, d, i, j)) & side != 0
  {
    IndexFits(m, i, j);
    assert At(m, e, i, j) == Recoded(m, d, outline, i, j);
    RecodedDraws(At(m, d, i, j), SidesOf(m, d, outline, i, j));
  }

  // ---- Rectangles of the map ----

  // The place v places on from start, on a ring of n places.
  function Onward(start: int, v: int, n: int): int
    requires 0 < n
  {
    (start + v) % n
  }

  // Among `count` places from start on, on a ring of n places.
  ghost predicate InSpan(k: int, start: int, count: int, n: int)
    requires 0 < n
  {
    exists v :: 0 <= v < count && Onward(start, v, n) == k
  }

  lemma NextOnward(start: int, v: int, n: int)
    requires 0 < n
    ensures var k := Onward(start, v, n); Onward(start, v + 1, n) == if k == n - 1 then 0 else k + 1
  {
    var q, k := (start + v) / n, Onward(start, v, n);
    if k == n - 1 {
      assert start + v + 1 == (q + 1) * n;
      ModUnique(start + v + 1, q + 1, 0, n);
    } else {
      ModUnique(start + v + 1, q, k + 1, n);
    }
  }

  lemma NearlyOnward(start: int, n: int)
    requires 0 < n && -n <= start < 2 * n
    ensures Onward(start, 0, n) == if start < 0 then start + n else if start >= n then start - n else start
  {
    if start < 0 {
      ModUnique(start, -1, start + n, n);
    } else if start >= n {
      ModUnique(start, 1, start - n, n);
    }
  }

  lemma SpanGrows(k: int, start: int, count: nat, n: int)
    requires 0 < n
    ensures InSpan(k, start, count + 1, n) <==> InSpan(k, start, count, n) || k == Onward(start, count, n)
  {
    if InSpan(k, start, count + 1, n) {
      var v :| 0 <= v < count + 1 && Onward(start, v, n) == k;
      assert v == count || InSpan(k, start, count, n);
    }
    if InSpan(k, start, count, n) {
      var v :| 0 <= v < count && Onward(start, v, n) == k;
      assert 0 <= v < count + 1;
    }
    assert k == Onward(start, count, n) ==> InSpan(k, start, count + 1, n);
  }

  // A full turn reaches every place.
  lemma WholeSpan(k: int, start: int, n: int)
    requires 0 <= k < n
    ensures InSpan(k, start, n, n)
  {
    var v := (k - start) % n;
    var q := (k - start) / n;
    assert start + v == (-q) * n + k;
    ModUnique(start + v, -q, k, n);
    assert Onward(start, v, n) == k;
  }

  // A coordinate that has run over an edge of the map, brought back.
  function Wrap(v: int, n: int): int { if v < 0 then v + n else if v >= n then v - n else v }

  // A coordinate counted v places on from the start, not yet brought back.
  ghost predicate Counting(start: int, v: nat, k: int, n: int)
    requires 0 < n
  {
    if v == 0 then k == start else k == Onward(start, v - 1, n) + 1
  }

  // Counting on from the start and bringing the coordinate back whenever it has
  // run over the edge follows the ring.
  lemma WrapFollows(start: int, v: nat, k: int, n: int)
    requires 0 < n && -n <= start < 2 * n
    requires Counting(start, v, k, n)
    ensures Wrap(k, n) == Onward(start, v, n) && 0 <= Wrap(k, n) < n
    ensures Counting(start, v + 1, Wrap(k, n) + 1, n)
  {
    if v == 0 {
      NearlyOnward(start, n);
    } else {
      NextOnward(start, v - 1, n);
    }
  }
}
