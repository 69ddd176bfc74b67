/** The wall along an edge cycle belongs to one part, so a part has polygons exactly when
    one of its blocks starts an edge. */
module EdgeParts {
  import opened BlockMap
  import opened EdgeTrace
  import opened Options
  import opened PolyPartition

  // The eight sectors around a vertex, each to the right of the direction of its number,
  // and the block that each lies in.
  function Sector(m: Map, l: Loc, d: Dir): (a: Loc)
    requires m.Has(l)
    ensures m.Has(a)
  {
    if d == 0 || d == 7 then l else if d <= 2 then m.Go(l, 2) else if d <= 4 then m.Go(l, 3) else m.Go(l, 4)
  }

  // The wall on the left of a boundary dart.
  function Wall(m: Map, e: Dart): (a: Loc)
    requires m.Has(e.at)
    ensures m.Has(a)
  {
    Sector(m, e.at, Left(e.dir, 1))
  }

  lemma SectorIsWall(m: Map, l: Loc, d: Dir)
    requires m.Valid() && m.Has(l) && m.NoEdge(l, d)
    ensures IsWall(m.At(Sector(m, l, d)))
  {
  }

  lemma HangsSelf(m: Map, a: Loc)
    requires m.Valid()
    ensures HangTogether(m, a, a)
  {
  }

  // Neighbouring solid sectors are in one block or in joined blocks.
  lemma SectorsHang(m: Map, l: Loc, d: Dir)
    requires m.Valid() && m.Has(l) && m.NoEdge(l, d) && m.NoEdge(l, Left(d, 1))
    ensures HangTogether(m, Sector(m, l, Left(d, 1)), Sector(m, l, d))
  {
    var a, b := Sector(m, l, d), Sector(m, l, Left(d, 1));
    HangsSelf(m, b);
    if a != b {
      SectorsAreJoined(m, l, d);
      HangsOneStep(m, b, b, a);
    }
  }

  lemma SectorsAreJoined(m: Map, l: Loc, d: Dir)
    requires m.Valid() && m.Has(l) && m.NoEdge(l, d) && m.NoEdge(l, Left(d, 1))
    requires Sector(m, l, d) != Sector(m, l, Left(d, 1))
    ensures Step(m, Sector(m, l, Left(d, 1)), Sector(m, l, d))
  {
    if d == 0 || d == 4 {
      JoinedAcross(m, l, d);
    } else {
      JoinedBeside(m, l, d);
    }
  }

  lemma JoinedAcross(m: Map, l: Loc, d: Dir)
    requires m.Valid() && m.Has(l) && (d == 0 || d == 4) && m.NoEdge(l, d) && m.NoEdge(l, Left(d, 1))
    ensures Step(m, Sector(m, l, Left(d, 1)), Sector(m, l, d))
  {
    var a, b := Sector(m, l, d), Sector(m, l, Left(d, 1));
    if d == 0 {
      assert JoinedWay(m, b, 6) && m.Go(b, 6) == a;
    } else {
      assert JoinedWay(m, b, 2) && m.Go(b, 2) == a;
    }
  }

  lemma JoinedBeside(m: Map, l: Loc, d: Dir)
    requires m.Valid() && m.Has(l) && m.NoEdge(l, d) && m.NoEdge(l, Left(d, 1))
    requires d != 0 && d != 4 && Sector(m, l, d) != Sector(m, l, Left(d, 1))
    ensures Step(m, Sector(m, l, Left(d, 1)), Sector(m, l, d))
  {
    var a, b := Sector(m, l, d), Sector(m, l, Left(d, 1));
    if d == 2 {
      assert JoinedWay(m, b, 0) && m.Go(b, 0) == a;
    } else {
      assert JoinedWay(m, b, 4) && m.Go(b, 4) == a;
    }
  }

  // Turning right over solid sectors keeps to blocks that hang together.
  lemma {:induction false} TurnsHang(m: Map, l: Loc, d: Dir, n: nat)
    requires m.Valid() && m.Has(l) && n < 8 && forall j: nat :: j <= n ==> m.NoEdge(l, Right(d, j))
    ensures HangTogether(m, Sector(m, l, d), Sector(m, l, Right(d, n)))
  {
    HangsSelf(m, Sector(m, l, d));
    if n > 0 {
      TurnsHang(m, l, d, n - 1);
      assert Left(Right(d, n), 1) == Right(d, n - 1);
      SectorsHang(m, l, Right(d, n));
      HangsOn(m, Sector(m, l, d), Sector(m, l, Right(d, n - 1)), Sector(m, l, Right(d, n)));
    }
  }

  // From the far end of a boundary dart its wall is the same block.
  lemma SameWall(m: Map, e: Dart)
    requires m.Valid() && Boundary(m, e)
    ensures Sector(m, m.Go(e.at, e.dir), Left(e.dir, 4)) == Wall(m, e)
  {
    var l := m.Go(e.at, e.dir);
    match e.dir
    case 0 => assert m.Go(l, 3) == m.Go(e.at, 2);
    case 1 => assert m.Go(l, 4) == m.Go(e.at, 2);
    case 2 => assert m.Go(l, 4) == m.Go(e.at, 3);
    case 3 => assert l == m.Go(e.at, 3);
    case 4 => assert l == m.Go(e.at, 4);
    case 5 => assert m.Go(l, 2) == m.Go(e.at, 4);
    case 6 => assert m.Go(l, 2) == e.at;
    case 7 => assert m.Go(l, 3) == e.at;
  }

  lemma NextWall(m: Map, e: Dart)
    requires m.Valid() && Boundary(m, e)
    ensures HangTogether(m, Wall(m, e), Wall(m, Next(m, e)))
  {
    var l, d := m.Go(e.at, e.dir), Left(e.dir, 3);
    var n := Turns(m, l, d, 0);
    FarEnd(m, e);
    NextIsBoundary(m, e);
    SameWall(m, e);
    forall j: nat | j <= n ensures m.NoEdge(l, Right(Left(e.dir, 4), j)) {
      if j > 0 {
        OneMoreTurn(e.dir, j - 1);
      }
    }
    TurnsHang(m, l, Left(e.dir, 4), n);
    LeftOfTurn(e.dir, n);
  }

  lemma OneMoreTurn(d: Dir, j: nat)
    requires j < 7
    ensures Right(Left(d, 4), j + 1) == Right(Left(d, 3), j)
  {
  }

  lemma LeftOfTurn(d: Dir, n: nat)
    requires n < 8
    ensures Left(Right(Left(d, 3), n), 1) == Right(Left(d, 4), n)
  {
  }

  lemma {:induction false} CycleWall(m: Map, cycle: seq<Dart>, i: nat)
    requires m.Valid() && IsCycle(m, cycle) && i < |cycle|
    ensures HangTogether(m, Wall(m, cycle[0]), Wall(m, cycle[i]))
  {
    HangsSelf(m, Wall(m, cycle[0]));
    if i > 0 {
      CycleWall(m, cycle, i - 1);
      NextWall(m, cycle[i - 1]);
      assert Next(m, cycle[i - 1]) == cycle[i];
      HangsOn(m, Wall(m, cycle[0]), Wall(m, cycle[i - 1]), Wall(m, cycle[i]));
    }
  }

  // A dart that marks a cell has that cell as its wall.
  lemma OwnerIsWall(m: Map, e: Dart)
    requires m.Valid() && m.Has(e.at) && Marks(e)
    ensures Owner(m, e) == Wall(m, e)
  {
  }

  // All cells marked by a traced polygon are blocks of one part.
  lemma OwnersInPart(m: Map, parts: map<Loc, Place>, cycle: seq<Dart>, e: Dart)
    requires m.Valid() && IsPartition(m, parts) && IsCycle(m, cycle) && Marks(cycle[0])
    requires e in Members(cycle) && Marks(e)
    ensures m.Has(e.at) && Owner(m, cycle[0]) in parts && Owner(m, e) in parts
    ensures parts[Owner(m, cycle[0])].part == parts[Owner(m, e)].part
  {
    var i :| 0 <= i < |cycle| && cycle[i] == e;
    CycleWall(m, cycle, i);
    OwnerIsWall(m, cycle[0]);
    OwnerIsWall(m, e);
    SectorIsWall(m, cycle[0].at, Left(cycle[0].dir, 1));
    SectorIsWall(m, e.at, Left(e.dir, 1));
  }

  // ---- Which parts have polygons ----

  // Every block of the part is filled, with a wall solid on its right side to its left.
  ghost predicate IsBand(m: Map, parts: map<Loc, Place>, p: int)
    requires m.Valid()
  {
    forall c :: m.Has(c) && c in parts && parts[c].part == p ==>
      IsFilled(m.At(c)) && SolidRight(m.At(m.Go(c, 4)))
  }

  lemma StartOfBlock(m: Map, c: Loc)
    requires m.Valid() && m.Has(c) && IsWall(m.At(c))
    ensures Start(m, c).None? <==> IsFilled(m.At(c)) && SolidRight(m.At(m.Go(c, 4)))
  {
  }

  lemma {:induction false} OfPartHas(found: seq<(int, Poly)>, p: int, i: nat)
    requires i < |found| && found[i].0 == p
    ensures found[i].1 in OfPart(found, p)
  {
    if i < |found| - 1 {
      OfPartHas(found[..|found| - 1], p, i);
    }
  }

  lemma {:induction false} OfPartIsFound(found: seq<(int, Poly)>, p: int, v: nat) returns (i: nat)
    requires v < |OfPart(found, p)|
    ensures i < |found| && found[i] == (p, OfPart(found, p)[v])
  {
    var front := OfPart(found[..|found| - 1], p);
    if v < |front| {
      i := OfPartIsFound(found[..|found| - 1], p, v);
    } else {
      i := |found| - 1;
    }
  }

  // A part has no polygon exactly when it consists of rows of filled blocks that go all
  // the way round.
  lemma WithoutPolys(m: Map, parts: map<Loc, Place>, found: seq<(int, Poly)>, p: int)
    requires m.Valid() && IsPartition(m, parts) && InParts(m, parts, found)
    requires forall i :: 0 <= i < |found| ==> WellTraced(m, found[i].1)
    requires forall cycle :: IsMarked(m, cycle) ==> FoundOnce(m, found, cycle)
    ensures OfPart(found, p) == [] <==> IsBand(m, parts, p)
  {
    if OfPart(found, p) != [] {
      var i := OfPartIsFound(found, p, 0);
      assert InPart(m, parts, found[i].1, p);
      var e := Darts(m, found[i].1)[0];
      MarkedStarts(m, e);
      StartOfBlock(m, Owner(m, e));
    }
    if !IsBand(m, parts, p) {
      var c :| m.Has(c) && c in parts && parts[c].part == p
        && !(IsFilled(m.At(c)) && SolidRight(m.At(m.Go(c, 4))));
      StartOfBlock(m, c);
      var i := PolyOfBlock(m, parts, found, c);
      OfPartHas(found, p, i);
    }
  }

  lemma MarkedStarts(m: Map, e: Dart)
    requires m.Valid() && Boundary(m, e) && Marks(e)
    ensures m.Has(Owner(m, e)) && Start(m, Owner(m, e)).Some? && IsWall(m.At(Owner(m, e)))
  {
    MarksOnStartCycle(m, e);
  }

  // The edge that starts at a block is on a polygon of its part.
  lemma PolyOfBlock(m: Map, parts: map<Loc, Place>, found: seq<(int, Poly)>, c: Loc) returns (i: nat)
    requires m.Valid() && IsPartition(m, parts) && InParts(m, parts, found)
    requires forall k :: 0 <= k < |found| ==> WellTraced(m, found[k].1)
    requires forall cycle :: IsMarked(m, cycle) ==> FoundOnce(m, found, cycle)
    requires m.Has(c) && c in parts && Start(m, c).Some?
    ensures i < |found| && found[i].0 == parts[c].part
  {
    StartMarksItsCell(m, c);
    var s := Start(m, c).value;
    var cycle := Returns(m, s);
    assert s in cycle && IsMarked(m, cycle);
    var k :| 0 <= k < |found| && DartSet(m, found[k].1) == Members(cycle);
    i := k;
    assert s in Members(cycle);
    OwnersInPart(m, parts, Darts(m, found[i].1), s);
    assert InPart(m, parts, found[i].1, found[i].0);
  }
}
