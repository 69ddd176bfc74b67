/** Following one polygon edge of a block map, and the loop that starts a trace
    at every wall that has not been followed yet. */
module EdgeTrace {
  import opened BlockMap
  import opened Options
  import opened Arith

  // An edge segment leaving vertex `at` in direction `dir`.
  datatype Dart = Dart(at: Loc, dir: Dir)

  // A boundary dart has solid wall on its left and none on its right.
  predicate Boundary(m: Map, e: Dart)
    requires m.Valid()
  {
    m.Has(e.at) && !m.NoEdge(e.at, e.dir) && m.NoEdge(e.at, Left(e.dir, 1))
  }

  // How many turns to the right, counted from k, until there is no wall to the
  // right of the direction; after six turns no further wall is looked at.
  function Turns(m: Map, l: Loc, d: Dir, k: nat): (n: nat)
    requires m.Valid() && m.Has(l) && k <= 6
    ensures k <= n <= 6
    ensures forall j :: k <= j < n ==> m.NoEdge(l, Right(d, j))
    ensures n < 6 ==> !m.NoEdge(l, Right(d, n))
    decreases 6 - k
  {
    if k == 6 || !m.NoEdge(l, Right(d, k)) then k else Turns(m, l, d, k + 1)
  }

  // The dart that follows e: turn as far left as possible, then right while
  // there is wall to the right.
  function Next(m: Map, e: Dart): Dart
    requires m.Valid() && m.Has(e.at)
  {
    var l := m.Go(e.at, e.dir);
    var d := Left(e.dir, 3);
    Dart(l, Right(d, Turns(m, l, d, 0)))
  }

  // The wall seen along a boundary dart is the same wall seen from its far end.
  lemma FarEnd(m: Map, e: Dart)
    requires m.Valid() && Boundary(m, e)
    ensures var l := m.Go(e.at, e.dir);
      m.NoEdge(l, Left(e.dir, 4)) && !m.NoEdge(l, Left(e.dir, 5))
  {
    var l := m.Go(e.at, e.dir);
    match e.dir
    case 0 => assert m.Go(l, 3) == m.Go(e.at, 2); assert m.Go(l, 4) == e.at;
    case 1 => assert m.Go(l, 4) == m.Go(e.at, 2);
    case 2 => assert m.Go(l, 4) == m.Go(e.at, 3);
    case 3 => assert m.Go(e.at, 3) == l;
    case 4 => assert m.Go(e.at, 4) == l;
    case 5 => assert m.Go(l, 2) == m.Go(e.at, 4);
    case 6 => assert m.Go(l, 2) == e.at; assert m.Go(l, 3) == m.Go(e.at, 4);
    case 7 => assert m.Go(l, 3) == e.at;
  }

  // The inner loop needs no bound of its own: it stops within six turns, and it
  // stops on a boundary dart.
  lemma NextIsBoundary(m: Map, e: Dart)
    requires m.Valid() && Boundary(m, e)
    ensures var l := m.Go(e.at, e.dir);
      !m.NoEdge(l, Right(Left(e.dir, 3), Turns(m, l, Left(e.dir, 3), 0)))
    ensures Boundary(m, Next(m, e))
  {
    FarEnd(m, e);
    var l, d := m.Go(e.at, e.dir), Left(e.dir, 3);
    var n := Turns(m, l, d, 0);
    assert Right(d, 6) == Left(e.dir, 5);
    if n == 0 {
      assert Left(Right(d, 0), 1) == Left(e.dir, 4);
    } else {
      assert Left(Right(d, n), 1) == Right(d, n - 1);
    }
  }

  // Of two darts that leave l in the same direction, one that turned further
  // right turned across the side that is open at the end of the other.
  lemma TurnedPast(m: Map, l: Loc, d: Dir, n: nat, f: Dir, k: nat)
    requires m.Valid() && m.Has(l) && n < k <= 6
    requires Right(Left(d, 3), n) == Right(Left(f, 3), k)
    requires forall j :: 0 <= j < k ==> m.NoEdge(l, Right(Left(f, 3), j))
    requires m.NoEdge(l, Left(f, 4))
    ensures m.NoEdge(l, Left(d, 5))
  {
    if k == n + 1 {
      assert Left(d, 5) == Left(f, 4);
    } else {
      assert Left(d, 5) == Right(Left(f, 3), k - n - 2);
    }
  }

  lemma SameDirection(m: Map, l: Loc, d: Dir, f: Dir)
    requires m.Valid() && m.Has(l)
    requires m.NoEdge(l, Left(d, 4)) && !m.NoEdge(l, Left(d, 5))
    requires m.NoEdge(l, Left(f, 4)) && !m.NoEdge(l, Left(f, 5))
    requires Right(Left(d, 3), Turns(m, l, Left(d, 3), 0)) == Right(Left(f, 3), Turns(m, l, Left(f, 3), 0))
    ensures d == f
  {
    var n, k := Turns(m, l, Left(d, 3), 0), Turns(m, l, Left(f, 3), 0);
    if n < k {
      TurnedPast(m, l, d, n, f, k);
    } else if k < n {
      TurnedPast(m, l, f, k, d, n);
    }
  }

  // No two boundary darts are followed by the same one.
  lemma NextIsInjective(m: Map, e: Dart, f: Dart)
    requires m.Valid() && Boundary(m, e) && Boundary(m, f)
    requires Next(m, e) == Next(m, f)
    ensures e == f
  {
    FarEnd(m, e);
    FarEnd(m, f);
    SameDirection(m, Next(m, e).at, e.dir, f.dir);
    GoIsInjective(m, e.at, f.at, e.dir);
  }

  lemma GoIsInjective(m: Map, l: Loc, k: Loc, d: Dir)
    requires m.Has(l) && m.Has(k) && m.Go(l, d) == m.Go(k, d)
    ensures l == k
  {
  }

  // ---- Boundary cycles ----

  // Each dart is followed by the next one and none repeats.
  ghost predicate Walk(m: Map, walk: seq<Dart>)
    requires m.Valid()
  {
    && 0 < |walk|
    && (forall i :: 0 <= i < |walk| ==> Boundary(m, walk[i]))
    && (forall i {:trigger Next(m, walk[i])} :: 0 <= i < |walk| - 1 ==> Next(m, walk[i]) == walk[i + 1])
    && AllDifferent(walk)
  }

  // A walk whose last dart is followed by its first.
  ghost predicate IsCycle(m: Map, cycle: seq<Dart>)
    requires m.Valid()
  {
    Walk(m, cycle) && Next(m, cycle[|cycle| - 1]) == cycle[0]
  }

  ghost predicate AllDifferent(s: seq<Dart>) {
    forall i, j :: 0 <= i < j < |s| ==> s[i] != s[j]
  }

  ghost function AllDarts(m: Map): set<Dart> {
    set x, y, d: Dir | 0 <= x < m.width && 0 <= y < m.height && 0 <= d < 8 :: Dart(Loc(x, y), d)
  }

  ghost function Members(s: seq<Dart>): set<Dart> {
    set i | 0 <= i < |s| :: s[i]
  }

  // The dart after a walk that has not returned is new.
  lemma NewDart(m: Map, walk: seq<Dart>)
    requires m.Valid() && Walk(m, walk) && Next(m, walk[|walk| - 1]) != walk[0]
    ensures Next(m, walk[|walk| - 1]) !in walk
  {
    var last := walk[|walk| - 1];
    if Next(m, last) in walk {
      var i :| 0 <= i < |walk| && walk[i] == Next(m, last);
      NextIsInjective(m, walk[i - 1], last);
      assert false;
    }
  }

  lemma LongerWalk(m: Map, walk: seq<Dart>)
    requires m.Valid() && Walk(m, walk) && Next(m, walk[|walk| - 1]) != walk[0]
    ensures var next := Next(m, walk[|walk| - 1]);
      && Walk(m, walk + [next]) && next in AllDarts(m) && next !in Members(walk)
      && Members(walk + [next]) == Members(walk) + {next}
  {
    var next := Next(m, walk[|walk| - 1]);
    NewDart(m, walk);
    NextIsBoundary(m, walk[|walk| - 1]);
    MembersExtend(walk, next);
    assert forall i :: 0 <= i < |walk| ==> (walk + [next])[i] == walk[i];
  }

  lemma MembersExtend(s: seq<Dart>, e: Dart)
    ensures Members(s + [e]) == Members(s) + {e}
  {
    assert forall i :: 0 <= i < |s| ==> (s + [e])[i] == s[i];
    assert (s + [e])[|s|] == e;
  }

  // Every boundary dart comes back to itself, and before that no dart repeats.
  lemma Returns(m: Map, e: Dart) returns (cycle: seq<Dart>)
    requires m.Valid() && Boundary(m, e)
    ensures IsCycle(m, cycle) && cycle[0] == e
  {
    cycle := [e];
    while Next(m, cycle[|cycle| - 1]) != e
      invariant Walk(m, cycle) && cycle[0] == e
      decreases AllDarts(m) - Members(cycle)
    {
      LongerWalk(m, cycle);
      cycle := cycle + [Next(m, cycle[|cycle| - 1])];
    }
  }

  // A set of boundary darts that holds the whole cycle of each of its members.
  ghost predicate Closed(m: Map, s: set<Dart>)
    requires m.Valid()
  {
    && (forall e :: e in s ==> Boundary(m, e))
    && (forall e {:trigger Next(m, e)} :: Boundary(m, e) ==> (e in s <==> Next(m, e) in s))
  }

  // A cycle is closed, and a closed set holds all of it or nothing of it.
  lemma CycleIsClosed(m: Map, cycle: seq<Dart>)
    requires m.Valid() && IsCycle(m, cycle)
    ensures Closed(m, Members(cycle))
  {
    var s := Members(cycle);
    forall e | Boundary(m, e) ensures e in s <==> Next(m, e) in s {
      if e in s {
        NextIsIn(m, cycle, e);
      } else if Next(m, e) in s {
        var i :| 0 <= i < |cycle| && cycle[i] == Next(m, e);
        var f := Before(m, cycle, i);
        NextIsInjective(m, e, f);
      }
    }
  }

  lemma NextIsIn(m: Map, cycle: seq<Dart>, e: Dart)
    requires m.Valid() && IsCycle(m, cycle) && e in Members(cycle)
    ensures Next(m, e) in Members(cycle)
  {
    var i :| 0 <= i < |cycle| && cycle[i] == e;
    assert Next(m, e) == cycle[if i + 1 == |cycle| then 0 else i + 1];
  }

  lemma Before(m: Map, cycle: seq<Dart>, i: nat) returns (e: Dart)
    requires m.Valid() && IsCycle(m, cycle) && i < |cycle|
    ensures e in Members(cycle) && Boundary(m, e) && Next(m, e) == cycle[i]
  {
    e := cycle[if i == 0 then |cycle| - 1 else i - 1];
  }

  lemma {:induction false} InOrOut(m: Map, cycle: seq<Dart>, s: set<Dart>, i: nat)
    requires m.Valid() && IsCycle(m, cycle) && Closed(m, s) && i < |cycle|
    ensures cycle[i] in s <==> cycle[0] in s
  {
    if i > 0 {
      InOrOut(m, cycle, s, i - 1);
      assert Next(m, cycle[i - 1]) == cycle[i];
    }
  }

  lemma CycleInOrOut(m: Map, cycle: seq<Dart>, s: set<Dart>)
    requires m.Valid() && IsCycle(m, cycle) && Closed(m, s)
    ensures cycle[0] in s ==> Members(cycle) <= s
    ensures cycle[0] !in s ==> Members(cycle) !! s
  {
    forall i | 0 <= i < |cycle| ensures cycle[i] in s <==> cycle[0] in s {
      InOrOut(m, cycle, s, i);
    }
  }

  lemma ClosedUnion(m: Map, s: set<Dart>, t: set<Dart>)
    requires m.Valid() && Closed(m, s) && Closed(m, t)
    ensures Closed(m, s + t)
  {
  }

  // ---- The polygon written by a trace ----

  datatype Point = Point(x: int, y: int, dir: Dir)

  type Poly = seq<Point>

  // Adding one offset outside the map moves the wrapped coordinate one place.
  lemma WrapMove(v: int, delta: int, n: int)
    requires 0 < n && -1 <= delta <= 1
    ensures (v + delta) % n == Move(v % n, delta, n)
  {
    var q, r := v / n, v % n;
    assert v == q * n + r;
    if r + delta < 0 {
      assert v + delta == (q - 1) * n + (n - 1);
      ModUnique(v + delta, q - 1, n - 1, n);
    } else if r + delta == n {
      assert v + delta == (q + 1) * n;
      ModUnique(v + delta, q + 1, 0, n);
    } else {
      ModUnique(v + delta, q, r + delta, n);
    }
  }

  function Wrapped(m: Map, p: Point): Dart
    requires 0 < m.width && 0 < m.height
  {
    Dart(Loc(p.x % m.width, p.y % m.height), p.dir)
  }

  function Darts(m: Map, poly: Poly): (s: seq<Dart>)
    requires 0 < m.width && 0 < m.height
  {
    seq(|poly|, i requires 0 <= i < |poly| => Wrapped(m, poly[i]))
  }

  ghost function DartSet(m: Map, poly: Poly): set<Dart>
    requires m.Valid()
  {
    Members(Darts(m, poly))
  }

  function After(p: Point, dir: Dir): Point {
    Point(p.x + Dx(p.dir), p.y + Dy(p.dir), dir)
  }

  lemma WrappedAfter(m: Map, p: Point, dir: Dir)
    requires m.Valid()
    ensures Wrapped(m, After(p, dir)) == Dart(m.Go(Wrapped(m, p).at, p.dir), dir)
  {
    WrapMove(p.x, Dx(p.dir), m.width);
    WrapMove(p.y, Dy(p.dir), m.height);
  }

  // Each point is the one before it plus that point's offset.
  ghost predicate Chained(poly: Poly) {
    forall i :: 0 < i < |poly| ==> poly[i] == After(poly[i - 1], poly[i].dir)
  }

  function SumX(poly: Poly): int {
    if poly == [] then 0 else SumX(poly[..|poly| - 1]) + Dx(poly[|poly| - 1].dir)
  }

  function SumY(poly: Poly): int {
    if poly == [] then 0 else SumY(poly[..|poly| - 1]) + Dy(poly[|poly| - 1].dir)
  }

  // The offsets of the polygon lead back to its start on the wrapped map.
  ghost predicate Closes(m: Map, poly: Poly)
    requires m.Valid()
  {
    SumX(poly) % m.width == 0 && SumY(poly) % m.height == 0
  }

  lemma {:induction false} SumIsOffset(poly: Poly, dir: Dir)
    requires 0 < |poly| && Chained(poly)
    ensures After(poly[|poly| - 1], dir) == Point(poly[0].x + SumX(poly), poly[0].y + SumY(poly), dir)
  {
    var front, last := poly[..|poly| - 1], poly[|poly| - 1];
    if front != [] {
      SumIsOffset(front, last.dir);
    }
  }

  // A whole cycle, written down with chained positions, closes.
  lemma CycleCloses(m: Map, poly: Poly)
    requires m.Valid() && IsCycle(m, Darts(m, poly)) && Chained(poly)
    ensures Closes(m, poly)
  {
    var first, last := poly[0], poly[|poly| - 1];
    var end := After(last, first.dir);
    WrappedAfter(m, last, first.dir);
    SumIsOffset(poly, first.dir);
    assert Darts(m, poly)[0] == Wrapped(m, first);
    SameResidue(end.x, first.x, m.width);
    SameResidue(end.y, first.y, m.height);
  }

  // One more point keeps the trace in step with the cycle it follows.
  lemma TraceExtends(m: Map, poly: Poly, here: Point, cycle: seq<Dart>, dir: Dir)
    requires m.Valid() && IsCycle(m, cycle) && |poly| < |cycle|
    requires Darts(m, poly) == cycle[..|poly|] && cycle[|poly|] == Wrapped(m, here)
    requires Chained(poly + [here])
    requires Dart(m.Go(Wrapped(m, here).at, here.dir), dir) == Next(m, Wrapped(m, here))
    ensures Darts(m, poly + [here]) == cycle[..|poly| + 1]
    ensures Wrapped(m, After(here, dir)) == if |poly| + 1 < |cycle| then cycle[|poly| + 1] else cycle[0]
    ensures |poly| + 1 < |cycle| ==> cycle[|poly| + 1] != cycle[0]
    ensures Chained(poly + [here] + [After(here, dir)])
    ensures Owners(m, DartSet(m, poly + [here])) ==
            Owners(m, DartSet(m, poly)) + Owners(m, {Wrapped(m, here)})
  {
    WrappedAfter(m, here, dir);
    ChainExtends(poly, here, dir);
    assert Darts(m, poly + [here]) == Darts(m, poly) + [Wrapped(m, here)];
    MembersExtend(Darts(m, poly), Wrapped(m, here));
  }

  lemma ChainExtends(poly: Poly, here: Point, dir: Dir)
    requires Chained(poly + [here])
    ensures Chained(poly + [here] + [After(here, dir)])
  {
    var longer := poly + [here];
    assert forall i :: 0 <= i < |longer| ==> (longer + [After(here, dir)])[i] == longer[i];
  }

  // ---- Which cell a cycle is looked for at ----

  // The darts that mark a cell as done: diagonals, and left sides followed down.
  predicate Marks(e: Dart) { e.dir == 1 || e.dir == 3 || 5 <= e.dir }

  // The cell whose diagonal or left side e runs along.
  function Owner(m: Map, e: Dart): Loc
    requires m.Has(e.at)
  {
    if e.dir == 1 then m.Go(e.at, 2)
    else if e.dir == 3 then m.Go(e.at, 3)
    else if e.dir == 5 then m.Go(e.at, 4)
    else e.at
  }

  ghost function Owners(m: Map, darts: set<Dart>): set<Loc> {
    set e | e in darts && m.Has(e.at) && Marks(e) :: Owner(m, e)
  }

  // The corner and the direction in which the main loop starts at cell c.
  function StartOffset(m: Map, c: Loc): Option<Point>
    requires m.Valid() && m.Has(c)
  {
    var block := m.At(c);
    if !IsWall(block) then None
    else if block == REC_UR then Some(Point(0, 0, 7))
    else if block == REC_DR then Some(Point(1, 0, 5))
    else if block == REC_DL then Some(Point(1, 1, 3))
    else if block == REC_UL then Some(Point(0, 1, 1))
    else if SolidLeft(block) && !SolidRight(m.At(m.Go(c, 4))) then Some(Point(0, 0, 6))
    else None
  }

  function Corner(m: Map, c: Loc, dx: int, dy: int): Loc
    requires m.Has(c) && 0 <= dx <= 1 && 0 <= dy <= 1
  {
    Loc(Move(c.x, dx, m.width), Move(c.y, dy, m.height))
  }

  function Start(m: Map, c: Loc): (r: Option<Dart>)
    requires m.Valid() && m.Has(c)
  {
    match StartOffset(m, c)
    case None => None
    case Some(p) => Some(Dart(Corner(m, c, p.x, p.y), p.dir))
  }

  lemma StartMarksItsCell(m: Map, c: Loc)
    requires m.Valid() && m.Has(c) && Start(m, c).Some?
    ensures var e := Start(m, c).value; Boundary(m, e) && Marks(e) && Owner(m, e) == c
  {
    var e := Start(m, c).value;
    assert m.Go(m.Go(c, 0), 4) == c && m.Go(m.Go(c, 7), 3) == c && m.Go(m.Go(c, 6), 2) == c;
  }

  // A marking dart lies on the cycle that the main loop would start at its cell.
  lemma MarksOnStartCycle(m: Map, e: Dart)
    requires m.Valid() && Boundary(m, e) && Marks(e)
    ensures m.Has(Owner(m, e)) && Start(m, Owner(m, e)).Some?
    ensures var s := Start(m, Owner(m, e)).value; s == e || Next(m, e) == s || Next(m, s) == e
  {
    var c := Owner(m, e);
    match e.dir
    case 1 => assert m.Go(c, 6) == e.at;
    case 3 => assert m.Go(c, 7) == e.at;
    case 5 => assert m.Go(c, 0) == e.at;
    case 6 => LeftSideCycle(m, e);
    case _ =>
  }

  lemma LeftSideCycle(m: Map, e: Dart)
    requires m.Valid() && Boundary(m, e) && e.dir == 6
    ensures Start(m, e.at).Some?
    ensures var s := Start(m, e.at).value; s == e || Next(m, e) == s || Next(m, s) == e
  {
    var block := m.At(e.at);
    if block == REC_UL {
      var l := m.Go(e.at, 6);
      assert m.Go(l, 2) == e.at;
      assert m.NoEdge(l, Right(1, 0)) == false;
    } else if block == REC_DL {
      var s := Dart(m.Go(e.at, 7), 3);
      assert m.Go(s.at, 3) == e.at;
    }
  }

  // ---- What the main loop keeps ----

  // The cells marked done are those whose own start dart has been traced.
  ghost predicate DoneFits(m: Map, done: set<Loc>, traced: set<Dart>)
    requires m.Valid()
  {
    forall c :: c in done <==> m.Has(c) && Start(m, c).Some? && Start(m, c).value in traced
  }

  lemma DoneExtends(m: Map, done: set<Loc>, traced: set<Dart>, more: set<Dart>)
    requires m.Valid() && Closed(m, more) && DoneFits(m, done, traced)
    ensures DoneFits(m, done + Owners(m, more), traced + more)
  {
    forall c ensures c in Owners(m, more) <==> m.Has(c) && Start(m, c).Some? && Start(m, c).value in more {
      if c in Owners(m, more) {
        var e :| e in more && m.Has(e.at) && Marks(e) && Owner(m, e) == c;
        MarksOnStartCycle(m, e);
        StartMarksItsCell(m, c);
      } else if m.Has(c) && Start(m, c).Some? {
        StartMarksItsCell(m, c);
      }
    }
  }

  // A polygon as the main loop emits it.
  ghost predicate WellTraced(m: Map, poly: Poly)
    requires m.Valid()
  {
    IsCycle(m, Darts(m, poly)) && Chained(poly) && Closes(m, poly) && Marks(Darts(m, poly)[0])
  }

  ghost predicate OnPolygon(m: Map, found: seq<(int, Poly)>, e: Dart)
    requires m.Valid()
  {
    exists i :: 0 <= i < |found| && e in DartSet(m, found[i].1)
  }

  // The polygons found do not share a dart, and `traced` holds their darts.
  ghost predicate Covers(m: Map, found: seq<(int, Poly)>, traced: set<Dart>)
    requires m.Valid()
  {
    && (forall i :: 0 <= i < |found| ==> WellTraced(m, found[i].1))
    && (forall i :: 0 <= i < |found| ==> DartSet(m, found[i].1) <= traced)
    && (forall i, j :: 0 <= i < j < |found| ==> DartSet(m, found[i].1) !! DartSet(m, found[j].1))
    && (forall e {:trigger OnPolygon(m, found, e)} :: e in traced ==> OnPolygon(m, found, e))
  }

  lemma CoversMore(m: Map, found: seq<(int, Poly)>, traced: set<Dart>, p: int, poly: Poly)
    requires m.Valid() && Covers(m, found, traced) && WellTraced(m, poly)
    requires DartSet(m, poly) !! traced
    ensures Covers(m, found + [(p, poly)], traced + DartSet(m, poly))
  {
    var longer := found + [(p, poly)];
    assert forall i :: 0 <= i < |found| ==> longer[i] == found[i];
    forall i, j | 0 <= i < j < |longer| ensures DartSet(m, longer[i].1) !! DartSet(m, longer[j].1) {
      assert DartSet(m, longer[i].1) <= traced;
    }
    forall e | e in traced + DartSet(m, poly)
      ensures OnPolygon(m, longer, e)
    {
      if e in traced {
        assert OnPolygon(m, found, e);
        var i :| 0 <= i < |found| && e in DartSet(m, found[i].1);
        assert e in DartSet(m, longer[i].1);
      } else {
        assert e in DartSet(m, longer[|found|].1);
      }
    }
  }

  // The polygons of part p, in the order in which they were found.
  function OfPart(found: seq<(int, Poly)>, p: int): seq<Poly> {
    if found == [] then []
    else
      var last := found[|found| - 1];
      OfPart(found[..|found| - 1], p) + if last.0 == p then [last.1] else []
  }

  ghost predicate Sorted(partPolys: seq<seq<Poly>>, found: seq<(int, Poly)>) {
    forall p :: 0 <= p < |partPolys| ==> partPolys[p] == OfPart(found, p)
  }

  lemma SortedMore(partPolys: seq<seq<Poly>>, found: seq<(int, Poly)>, p: int, poly: Poly)
    requires Sorted(partPolys, found) && 0 <= p < |partPolys|
    ensures Sorted(partPolys[p := partPolys[p] + [poly]], found + [(p, poly)])
  {
    var longer := found + [(p, poly)];
    assert longer[..|found|] == found;
    forall q | 0 <= q < |partPolys|
      ensures partPolys[p := partPolys[p] + [poly]][q] == OfPart(longer, q)
    {
      assert OfPart(longer, q) == OfPart(found, q) + if p == q then [poly] else [];
    }
  }

  // Adding a new cycle keeps everything the main loop knows.
  lemma KeepsAll(m: Map, done: set<Loc>, traced: set<Dart>, found: seq<(int, Poly)>, poly: Poly, p: int)
    requires m.Valid() && Closed(m, traced) && DoneFits(m, done, traced) && Covers(m, found, traced)
    requires WellTraced(m, poly) && Darts(m, poly)[0] !in traced
    ensures var more := DartSet(m, poly);
      && Closed(m, traced + more) && DoneFits(m, done + Owners(m, more), traced + more)
      && Covers(m, found + [(p, poly)], traced + more) && Darts(m, poly)[0] in more
  {
    CycleIsClosed(m, Darts(m, poly));
    CycleInOrOut(m, Darts(m, poly), traced);
    DoneExtends(m, done, traced, DartSet(m, poly));
    ClosedUnion(m, traced, DartSet(m, poly));
    CoversMore(m, found, traced, p, poly);
  }

  // When every cell has been visited, every marking dart has been traced.
  lemma AllMarksTraced(m: Map, traced: set<Dart>)
    requires m.Valid() && Closed(m, traced)
    requires forall c :: m.Has(c) && Start(m, c).Some? ==> Start(m, c).value in traced
    ensures forall e :: Boundary(m, e) && Marks(e) ==> e in traced
  {
    forall e | Boundary(m, e) && Marks(e) ensures e in traced {
      MarksOnStartCycle(m, e);
    }
  }

  // Where a wall cell lies: its part, and its coordinates without wrapping.
  datatype Place = Place(part: int, x: int, y: int)

  ghost predicate PartsFit(m: Map, parts: map<Loc, Place>, count: nat)
    requires m.Valid()
  {
    forall c :: m.Has(c) && IsWall(m.At(c)) ==>
      && c in parts && 0 <= parts[c].part < count
      && parts[c].x % m.width == c.x && parts[c].y % m.height == c.y
  }

  // A polygon is sorted into the part of the cell at which its trace has started.
  ghost predicate InPart(m: Map, parts: map<Loc, Place>, poly: Poly, p: int)
    requires m.Valid()
  {
    && poly != [] && m.Has(Darts(m, poly)[0].at) && Marks(Darts(m, poly)[0])
    && Owner(m, Darts(m, poly)[0]) in parts && parts[Owner(m, Darts(m, poly)[0])].part == p
  }

  ghost predicate InParts(m: Map, parts: map<Loc, Place>, found: seq<(int, Poly)>)
    requires m.Valid()
  {
    forall i :: 0 <= i < |found| ==> InPart(m, parts, found[i].1, found[i].0)
  }

  lemma InPartsMore(m: Map, parts: map<Loc, Place>, found: seq<(int, Poly)>, p: int, poly: Poly, c: Loc)
    requires m.Valid() && InParts(m, parts, found) && poly != [] && m.Has(c) && Start(m, c).Some?
    requires Start(m, c).value == Darts(m, poly)[0] && c in parts && parts[c].part == p
    ensures InParts(m, parts, found + [(p, poly)])
  {
    StartMarksItsCell(m, c);
    assert InPart(m, parts, poly, p);
  }

  // A dart from which the main loop may start a trace.
  ghost predicate FreshStart(m: Map, traced: set<Dart>, e: Dart)
    requires m.Valid()
  {
    Boundary(m, e) && Marks(e) && e !in traced
  }

  // The unwrapped start taken from the part of cell c wraps to c's start dart,
  // which is new unless c is done.
  lemma StartIsFresh(m: Map, done: set<Loc>, traced: set<Dart>, c: Loc, x: int, y: int)
    requires m.Valid() && m.Has(c) && x % m.width == c.x && y % m.height == c.y
    requires DoneFits(m, done, traced) && c !in done && StartOffset(m, c).Some?
    ensures var p := StartOffset(m, c).value;
      var e := Wrapped(m, Point(x + p.x, y + p.y, p.dir));
      Start(m, c) == Some(e) && FreshStart(m, traced, e)
  {
    var p := StartOffset(m, c).value;
    WrapMove(x, p.x, m.width);
    WrapMove(y, p.y, m.height);
    StartMarksItsCell(m, c);
  }

  ghost predicate IsMarked(m: Map, cycle: seq<Dart>)
    requires m.Valid()
  {
    IsCycle(m, cycle) && exists e :: e in cycle && Marks(e)
  }

  // One polygon runs along the cycle, and no other one shares a dart with it.
  ghost predicate FoundOnce(m: Map, found: seq<(int, Poly)>, cycle: seq<Dart>)
    requires m.Valid()
  {
    exists i :: 0 <= i < |found| && DartSet(m, found[i].1) == Members(cycle)
      && forall j :: 0 <= j < |found| && j != i ==> DartSet(m, found[j].1) !! Members(cycle)
  }

  // A dart of a cycle with a marking dart is on one polygon of the result.
  lemma FoundExactlyOnce(m: Map, found: seq<(int, Poly)>, traced: set<Dart>, cycle: seq<Dart>)
    requires m.Valid() && Covers(m, found, traced) && Closed(m, traced)
    requires forall e :: Boundary(m, e) && Marks(e) ==> e in traced
    requires IsMarked(m, cycle)
    ensures FoundOnce(m, found, cycle)
  {
    var e :| e in cycle && Marks(e);
    var k :| 0 <= k < |cycle| && cycle[k] == e;
    assert e in Members(cycle) && e in traced;
    assert OnPolygon(m, found, e);
    var i :| 0 <= i < |found| && e in DartSet(m, found[i].1);
    SameCycle(m, cycle, Darts(m, found[i].1), e);
    forall j | 0 <= j < |found| && j != i ensures DartSet(m, found[j].1) !! DartSet(m, found[i].1) {
    }
  }

  lemma SameCycle(m: Map, s: seq<Dart>, t: seq<Dart>, e: Dart)
    requires m.Valid() && IsCycle(m, s) && IsCycle(m, t) && e in Members(s) && e in Members(t)
    ensures Members(s) == Members(t)
  {
    CycleIsClosed(m, s);
    CycleIsClosed(m, t);
    CycleInOrOut(m, s, Members(t));
    CycleInOrOut(m, t, Members(s));
  }
}
