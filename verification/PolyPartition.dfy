/** poly_partition of mapconvert.py: which wall blocks hang together, and where they lie
    when the map is not wrapped. */
module PolyPartition {
  import opened Arith
  import opened BlockMap
  import opened EdgeTrace

  // The directions in which the search goes on from a wall block.
  function Ways(block: char): seq<Dir> {
    if IsFilled(block) then [0, 2, 4, 6]
    else if block == REC_UR then [0, 2]
    else if block == REC_UL then [2, 4]
    else if block == REC_DL then [4, 6]
    else if block == REC_DR then [6, 0]
    else []
  }

  predicate HasWay(block: char, d: Dir) { d in Ways(block) }

  // Is there solid wall along the whole side of a block that lies in direction d?
  predicate SolidTowards(block: char, d: Dir) {
    match d
    case 0 => SolidRight(block)
    case 2 => SolidTop(block)
    case 4 => SolidLeft(block)
    case 6 => SolidBottom(block)
    case _ => false
  }

  // The ways out of a block are exactly its solid sides.
  lemma WaysAreSides(block: char, d: Dir)
    ensures HasWay(block, d) <==> SolidTowards(block, d)
    ensures SolidTowards(block, d) ==> IsWall(block)
  {
  }

  // Two blocks are joined when both are solid along their common side.
  predicate JoinedWay(m: Map, a: Loc, d: Dir)
    requires m.Valid() && m.Has(a)
  {
    SolidTowards(m.At(a), d) && SolidTowards(m.At(m.Go(a, d)), Left(d, 4))
  }

  ghost predicate Step(m: Map, a: Loc, b: Loc)
    requires m.Valid()
  {
    m.Has(a) && exists d: Dir :: JoinedWay(m, a, d) && m.Go(a, d) == b
  }

  lemma StepIsSymmetric(m: Map, a: Loc, b: Loc)
    requires m.Valid() && Step(m, a, b)
    ensures Step(m, b, a)
  {
    var d: Dir :| JoinedWay(m, a, d) && m.Go(a, d) == b;
    BackAgain(m, a, d);
    var back := Left(d, 4);
    assert JoinedWay(m, b, back) && m.Go(b, back) == a;
  }

  lemma BackAgain(m: Map, a: Loc, d: Dir)
    requires m.Valid() && m.Has(a) && (d == 0 || d == 2 || d == 4 || d == 6)
    ensures m.Go(m.Go(a, d), Left(d, 4)) == a && Left(Left(d, 4), 4) == d
  {
  }

  // No step leads out of the set.
  ghost predicate ClosedUnder(m: Map, c: set<Loc>)
    requires m.Valid()
  {
    forall a, b {:trigger Step(m, a, b)} :: a in c && Step(m, a, b) ==> b in c
  }

  // Blocks that hang together: no closed set holds only the first.
  ghost predicate HangTogether(m: Map, a: Loc, b: Loc)
    requires m.Valid()
  {
    forall c: set<Loc> {:trigger ClosedUnder(m, c)} :: ClosedUnder(m, c) && a in c ==> b in c
  }

  lemma HangsOneStep(m: Map, a: Loc, b: Loc, c: Loc)
    requires m.Valid() && HangTogether(m, a, b) && Step(m, b, c)
    ensures HangTogether(m, a, c)
  {
  }

  ghost function AllCells(m: Map): set<Loc>
    requires m.Valid()
  {
    set x, y | 0 <= x < m.width && 0 <= y < m.height :: Loc(x, y)
  }

  lemma HangsBothWays(m: Map, a: Loc, b: Loc)
    requires m.Valid() && m.Has(a) && m.Has(b) && HangTogether(m, a, b)
    ensures HangTogether(m, b, a)
  {
    forall c: set<Loc> | ClosedUnder(m, c) && b in c
      ensures a in c
    {
      var rest := AllCells(m) - c;
      forall p, q | p in rest && Step(m, p, q)
        ensures q in rest
      {
        StepIsSymmetric(m, p, q);
      }
      assert ClosedUnder(m, rest);
    }
  }

  lemma HangsOn(m: Map, a: Loc, b: Loc, c: Loc)
    requires m.Valid() && HangTogether(m, a, b) && HangTogether(m, b, c)
    ensures HangTogether(m, a, c)
  {
  }

  // ---- The state of the search ----

  // All blocks joined to a have been given a place in the same part.
  ghost predicate IsSpread(m: Map, parts: map<Loc, Place>, a: Loc)
    requires m.Valid() && a in parts
  {
    forall b {:trigger Step(m, a, b)} :: Step(m, a, b) ==> b in parts && parts[b].part == parts[a].part
  }

  ghost predicate PlaceFits(m: Map, parts: map<Loc, Place>, starts: seq<Loc>, a: Loc)
    requires m.Valid() && a in parts
  {
    && m.Has(a) && IsWall(m.At(a))
    && BlockAt(m, (parts[a].x, parts[a].y)) == a
    && 0 <= parts[a].part < |starts| && HangTogether(m, starts[parts[a].part], a)
    && IsLaid(m, parts, starts[parts[a].part], a)
  }

  // The place one step from another.
  function PlaceFrom(p: Place, d: Dir): Place { Place(p.part, p.x + Dx(d), p.y + Dy(d)) }

  // A block has been placed from a start when it lies at its own coordinates, or else one
  // step from a block joined to it that is in the same part and has been placed so before.
  ghost predicate IsLaidBy(m: Map, parts: map<Loc, Place>, start: Loc, path: seq<Dir>, a: Loc)
    requires m.Valid()
    decreases |path|
  {
    && m.Has(a) && a in parts
    && if path == [] then a == start && parts[a].x == a.x && parts[a].y == a.y
       else
         var d := path[|path| - 1];
         var b := m.Go(a, Left(d, 4));
         IsLaidBy(m, parts, start, path[..|path| - 1], b) && JoinedWay(m, b, d) && parts[a] == PlaceFrom(parts[b], d)
  }

  ghost predicate IsLaid(m: Map, parts: map<Loc, Place>, start: Loc, a: Loc)
    requires m.Valid()
  {
    exists path :: IsLaidBy(m, parts, start, path, a)
  }

  lemma {:induction false} LaidStays(m: Map, parts: map<Loc, Place>, parts': map<Loc, Place>, start: Loc,
                                     path: seq<Dir>, a: Loc)
    requires m.Valid() && Grew(parts, parts') && IsLaidBy(m, parts, start, path, a)
    ensures IsLaidBy(m, parts', start, path, a)
    decreases |path|
  {
    if path != [] {
      LaidStays(m, parts, parts', start, path[..|path| - 1], m.Go(a, Left(path[|path| - 1], 4)));
    }
  }

  lemma LaidKept(m: Map, parts: map<Loc, Place>, parts': map<Loc, Place>, start: Loc, a: Loc)
    requires m.Valid() && Grew(parts, parts') && IsLaid(m, parts, start, a)
    ensures IsLaid(m, parts', start, a)
  {
    var path :| IsLaidBy(m, parts, start, path, a);
    LaidStays(m, parts, parts', start, path, a);
  }

  // A block joined to one that has been placed is placed one step from it.
  lemma LaidNext(m: Map, parts: map<Loc, Place>, start: Loc, a: Loc, d: Dir)
    requires m.Valid() && m.Has(a) && a in parts && IsLaid(m, parts, start, a) && JoinedWay(m, a, d)
    requires m.Go(a, d) !in parts
    ensures IsLaid(m, parts[m.Go(a, d) := PlaceFrom(parts[a], d)], start, m.Go(a, d))
  {
    var b := m.Go(a, d);
    var parts' := parts[b := PlaceFrom(parts[a], d)];
    var path :| IsLaidBy(m, parts, start, path, a);
    LaidStays(m, parts, parts', start, path, a);
    BackAgain(m, a, d);
    LaidLonger(m, parts', start, path, a, d, b);
  }

  lemma LaidLonger(m: Map, parts: map<Loc, Place>, start: Loc, path: seq<Dir>, a: Loc, d: Dir, b: Loc)
    requires m.Valid() && IsLaidBy(m, parts, start, path, a) && m.Has(b) && b in parts
    requires m.Go(b, Left(d, 4)) == a && JoinedWay(m, a, d) && parts[b] == PlaceFrom(parts[a], d)
    ensures IsLaid(m, parts, start, b)
  {
    assert (path + [d])[..|path|] == path;
    assert IsLaidBy(m, parts, start, path + [d], b);
  }

  // Every part has grown from its start; the blocks that wait are of the last part.
  ghost predicate Searching(m: Map, parts: map<Loc, Place>, starts: seq<Loc>, waiting: set<Loc>)
    requires m.Valid()
  {
    && (forall a {:trigger PlaceFits(m, parts, starts, a)} :: a in parts ==> PlaceFits(m, parts, starts, a))
    && (forall p :: 0 <= p < |starts| ==> starts[p] in parts && parts[starts[p]].part == p)
    && (forall a :: a in waiting ==> a in parts && parts[a].part == |starts| - 1)
    && (forall a {:trigger IsSpread(m, parts, a)} :: a in parts && a !in waiting ==> IsSpread(m, parts, a))
  }

  // A new part starts at a block that is in none.
  lemma NewPart(m: Map, parts: map<Loc, Place>, starts: seq<Loc>, a: Loc)
    requires m.Valid() && Searching(m, parts, starts, {}) && m.Has(a) && IsWall(m.At(a)) && a !in parts
    ensures Searching(m, parts[a := Place(|starts|, a.x, a.y)], starts + [a], {a})
  {
    var parts' := parts[a := Place(|starts|, a.x, a.y)];
    forall b | b in parts'
      ensures PlaceFits(m, parts', starts + [a], b)
    {
      if b == a {
        ModUnique(a.x, 0, a.x, m.width);
        ModUnique(a.y, 0, a.y, m.height);
        assert IsLaidBy(m, parts', a, [], a);
      } else {
        assert PlaceFits(m, parts, starts, b);
        LaidKept(m, parts, parts', starts[parts[b].part], b);
      }
    }
    StaysSpread(m, parts, {}, a, Place(|starts|, a.x, a.y));
  }

  // A block joined to one that is being looked at joins its part.
  lemma PartGrows(m: Map, parts: map<Loc, Place>, starts: seq<Loc>, waiting: set<Loc>, a: Loc, d: Dir)
    requires m.Valid() && Searching(m, parts, starts, waiting) && a in waiting && m.Has(a) && JoinedWay(m, a, d)
    requires m.Go(a, d) !in parts
    ensures a in parts
    ensures Searching(m, parts[m.Go(a, d) := PlaceFrom(parts[a], d)], starts, waiting + {m.Go(a, d)})
  {
    NextFits(m, parts, starts, a, d);
    PlacedMore(m, parts, starts, waiting, m.Go(a, d), PlaceFrom(parts[a], d));
  }

  lemma PlacedMore(m: Map, parts: map<Loc, Place>, starts: seq<Loc>, waiting: set<Loc>, b: Loc, place: Place)
    requires m.Valid() && Searching(m, parts, starts, waiting) && b !in parts && place.part == |starts| - 1
    requires PlaceFits(m, parts[b := place], starts, b)
    ensures Searching(m, parts[b := place], starts, waiting + {b})
  {
    var parts' := parts[b := place];
    forall c | c in parts'
      ensures PlaceFits(m, parts', starts, c)
    {
      if c != b {
        assert PlaceFits(m, parts, starts, c);
        FitsKept(m, parts, parts', starts, c);
      }
    }
    StaysSpread(m, parts, waiting, b, place);
  }

  lemma FitsKept(m: Map, parts: map<Loc, Place>, parts': map<Loc, Place>, starts: seq<Loc>, a: Loc)
    requires m.Valid() && Grew(parts, parts') && a in parts && PlaceFits(m, parts, starts, a)
    ensures PlaceFits(m, parts', starts, a)
  {
    LaidKept(m, parts, parts', starts[parts[a].part], a);
  }

  lemma NextFits(m: Map, parts: map<Loc, Place>, starts: seq<Loc>, a: Loc, d: Dir)
    requires m.Valid() && m.Has(a) && a in parts && PlaceFits(m, parts, starts, a) && JoinedWay(m, a, d)
    requires m.Go(a, d) !in parts
    ensures PlaceFits(m, parts[m.Go(a, d) := PlaceFrom(parts[a], d)], starts, m.Go(a, d))
  {
    NextHangs(m, starts[parts[a].part], a, d);
    NextIsAt(m, parts[a], a, d);
    LaidNext(m, parts, starts[parts[a].part], a, d);
  }

  lemma NextHangs(m: Map, start: Loc, a: Loc, d: Dir)
    requires m.Valid() && m.Has(a) && HangTogether(m, start, a) && JoinedWay(m, a, d)
    ensures HangTogether(m, start, m.Go(a, d)) && IsWall(m.At(m.Go(a, d)))
  {
    assert Step(m, a, m.Go(a, d));
    HangsOneStep(m, start, a, m.Go(a, d));
    WaysAreSides(m.At(m.Go(a, d)), Left(d, 4));
  }

  lemma NextIsAt(m: Map, p: Place, a: Loc, d: Dir)
    requires m.Valid() && m.Has(a) && BlockAt(m, (p.x, p.y)) == a
    ensures BlockAt(m, (PlaceFrom(p, d).x, PlaceFrom(p, d).y)) == m.Go(a, d)
  {
    BlockNear(m, p.x, p.y, d);
  }

  lemma StaysSpread(m: Map, parts: map<Loc, Place>, waiting: set<Loc>, b: Loc, place: Place)
    requires m.Valid() && b !in parts && forall c :: c in parts && c !in waiting ==> IsSpread(m, parts, c)
    ensures forall c :: c in parts && c !in waiting ==> IsSpread(m, parts[b := place], c)
  {
    forall c | c in parts && c !in waiting
      ensures IsSpread(m, parts[b := place], c)
    {
      assert IsSpread(m, parts, c);
    }
  }

  // A joined block that has a place already has it in the same part.
  lemma SamePart(m: Map, parts: map<Loc, Place>, starts: seq<Loc>, waiting: set<Loc>, a: Loc, b: Loc)
    requires m.Valid() && Searching(m, parts, starts, waiting) && a in waiting && Step(m, a, b) && b in parts
    ensures parts[b].part == parts[a].part
  {
    if b !in waiting {
      StepIsSymmetric(m, a, b);
      assert IsSpread(m, parts, b);
    }
  }

  lemma LookedAt(m: Map, parts: map<Loc, Place>, starts: seq<Loc>, waiting: set<Loc>, a: Loc, others: set<Loc>)
    requires m.Valid() && Searching(m, parts, starts, waiting) && waiting == others + {a} && a in parts
    requires IsSpread(m, parts, a)
    ensures Searching(m, parts, starts, others)
  {
  }

  // The block at a place without wrapping, and the blocks at the places of a list.
  function BlockAt(m: Map, p: (int, int)): (a: Loc)
    requires m.Valid()
    ensures m.Has(a)
  {
    Loc(p.0 % m.width, p.1 % m.height)
  }

  ghost function Pending(m: Map, left: seq<(int, int)>): set<Loc>
    requires m.Valid()
  {
    set i | 0 <= i < |left| :: BlockAt(m, left[i])
  }

  // The block at that place has been given just these coordinates.
  predicate IsAt(m: Map, parts: map<Loc, Place>, p: (int, int))
    requires m.Valid()
  {
    BlockAt(m, p) in parts && parts[BlockAt(m, p)].x == p.0 && parts[BlockAt(m, p)].y == p.1
  }

  lemma PendingMore(m: Map, left: seq<(int, int)>, p: (int, int))
    requires m.Valid()
    ensures Pending(m, left + [p]) == Pending(m, left) + {BlockAt(m, p)}
  {
    assert (left + [p])[|left|] == p;
    assert forall i :: 0 <= i < |left| ==> (left + [p])[i] == left[i];
  }

  lemma BlockNear(m: Map, x: int, y: int, d: Dir)
    requires m.Valid()
    ensures BlockAt(m, (x + Dx(d), y + Dy(d))) == m.Go(BlockAt(m, (x, y)), d)
  {
    WrapMove(x, Dx(d), m.width);
    WrapMove(y, Dy(d), m.height);
  }

  lemma BlockHere(m: Map, a: Loc)
    requires m.Valid() && m.Has(a)
    ensures BlockAt(m, (a.x, a.y)) == a
  {
    ModUnique(a.x, 0, a.x, m.width);
    ModUnique(a.y, 0, a.y, m.height);
  }

  // The blocks of the list wait at the places it names, and so do the others given.
  ghost predicate ListWaits(m: Map, parts: map<Loc, Place>, starts: seq<Loc>, left: seq<(int, int)>, here: set<Loc>)
    requires m.Valid()
  {
    && Searching(m, parts, starts, Pending(m, left) + here)
    && forall i :: 0 <= i < |left| ==> IsAt(m, parts, left[i])
  }

  function Near(p: (int, int), d: Dir): (int, int) { (p.0 + Dx(d), p.1 + Dy(d)) }

  // A joined block without a place gets one next to the block being looked at, and waits.
  lemma JoinsList(m: Map, parts: map<Loc, Place>, starts: seq<Loc>, left: seq<(int, int)>, p: (int, int), d: Dir)
    requires m.Valid() && ListWaits(m, parts, starts, left, {BlockAt(m, p)}) && IsAt(m, parts, p)
    requires JoinedWay(m, BlockAt(m, p), d) && BlockAt(m, Near(p, d)) !in parts
    ensures var near, q := BlockAt(m, Near(p, d)), Near(p, d);
      var parts' := parts[near := Place(|starts| - 1, q.0, q.1)];
      && ListWaits(m, parts', starts, left + [q], {BlockAt(m, p)}) && IsAt(m, parts', p)
      && Grew(parts, parts') && Unplaced(m, parts') < Unplaced(m, parts)
  {
    var here, near, q := BlockAt(m, p), BlockAt(m, Near(p, d)), Near(p, d);
    var parts' := parts[near := Place(|starts| - 1, q.0, q.1)];
    BlockNear(m, p.0, p.1, d);
    assert here in Pending(m, left) + {here};
    PartGrows(m, parts, starts, Pending(m, left) + {here}, here, d);
    PendingMore(m, left, q);
    assert Pending(m, left) + {here} + {near} == Pending(m, left + [q]) + {here};
    forall i | 0 <= i < |left + [q]|
      ensures IsAt(m, parts', (left + [q])[i])
    {
      assert i < |left| ==> IsAt(m, parts, left[i]);
    }
    assert near in AllCells(m);
  }

  // A joined block that has a place is in the part already.
  lemma MeetsPart(m: Map, parts: map<Loc, Place>, starts: seq<Loc>, left: seq<(int, int)>, p: (int, int), d: Dir)
    requires m.Valid() && ListWaits(m, parts, starts, left, {BlockAt(m, p)})
    requires JoinedWay(m, BlockAt(m, p), d) && m.Go(BlockAt(m, p), d) in parts
    ensures IsIn(parts, m.Go(BlockAt(m, p), d), |starts| - 1)
  {
    var here := BlockAt(m, p);
    assert here in Pending(m, left) + {here};
    assert Step(m, here, m.Go(here, d));
    SamePart(m, parts, starts, Pending(m, left) + {here}, here, m.Go(here, d));
  }

  // The search goes on: nothing has changed, or fewer blocks are without a place.
  ghost predicate GoesOn(m: Map, before: map<Loc, Place>, left0: seq<(int, int)>,
                           after: map<Loc, Place>, left1: seq<(int, int)>)
    requires m.Valid()
  {
    Grew(before, after) && ((after == before && left1 == left0) || Unplaced(m, after) < Unplaced(m, before))
  }

  lemma GoesFurther(m: Map, p: map<Loc, Place>, l: seq<(int, int)>, q: map<Loc, Place>, k: seq<(int, int)>,
    r: map<Loc, Place>, j: seq<(int, int)>)
    requires m.Valid() && GoesOn(m, p, l, q, k) && GoesOn(m, q, k, r, j)
    ensures GoesOn(m, p, l, r, j)
  {
  }

  // Nothing is taken back.
  ghost predicate Grew(before: map<Loc, Place>, after: map<Loc, Place>) {
    forall a :: a in before ==> a in after && after[a] == before[a]
  }

  ghost predicate IsIn(parts: map<Loc, Place>, a: Loc, part: int) {
    a in parts && parts[a].part == part
  }

  ghost function Unplaced(m: Map, parts: map<Loc, Place>): set<Loc>
    requires m.Valid()
  {
    AllCells(m) - parts.Keys
  }

  // When all its ways have been looked at, everything joined to the block is placed.
  lemma AllWaysLookedAt(m: Map, parts: map<Loc, Place>, a: Loc)
    requires m.Valid() && a in parts && m.Has(a)
    requires forall d: Dir :: JoinedWay(m, a, d) ==> IsIn(parts, m.Go(a, d), parts[a].part)
    ensures IsSpread(m, parts, a)
  {
  }

  // Then it does not wait any more.
  lemma Expanded(m: Map, parts: map<Loc, Place>, starts: seq<Loc>, waiting: set<Loc>, a: Loc)
    requires m.Valid() && Searching(m, parts, starts, waiting + {a}) && m.Has(a)
    requires forall d: Dir :: JoinedWay(m, a, d) ==> IsIn(parts, m.Go(a, d), |starts| - 1)
    ensures Searching(m, parts, starts, waiting + {})
  {
    assert a in waiting + {a};
    AllWaysLookedAt(m, parts, a);
    LookedAt(m, parts, starts, waiting + {a}, a, waiting);
    assert waiting + {} == waiting;
  }

  // ---- What the parts are ----

  // Blocks are in the same part exactly when they hang together.
  ghost predicate IsPartition(m: Map, parts: map<Loc, Place>)
    requires m.Valid()
  {
    && (forall a :: a in parts <==> m.Has(a) && IsWall(m.At(a)))
    && (forall a, b :: a in parts && b in parts ==> (parts[a].part == parts[b].part <==> HangTogether(m, a, b)))
  }

  // Every part has been laid out from one block, step by step from block to joined block,
  // so that it is whole where it runs over the edge of the map.
  ghost predicate IsLaidOut(m: Map, parts: map<Loc, Place>, count: nat)
    requires m.Valid()
  {
    exists starts: seq<Loc> :: |starts| == count && LaidFrom(m, parts, starts)
  }

  ghost predicate LaidFrom(m: Map, parts: map<Loc, Place>, starts: seq<Loc>)
    requires m.Valid()
  {
    && (forall p :: 0 <= p < |starts| ==> starts[p] in parts && parts[starts[p]].part == p)
    && forall a {:trigger parts[a]} :: a in parts ==>
         0 <= parts[a].part < |starts| && IsLaid(m, parts, starts[parts[a].part], a)
  }

  lemma SearchedAll(m: Map, parts: map<Loc, Place>, starts: seq<Loc>)
    requires m.Valid() && Searching(m, parts, starts, {})
    requires forall a :: m.Has(a) && IsWall(m.At(a)) ==> a in parts
    ensures PartsFit(m, parts, |starts|) && IsPartition(m, parts) && IsLaidOut(m, parts, |starts|)
  {
    forall a | a in parts
      ensures 0 <= parts[a].part < |starts| && IsLaid(m, parts, starts[parts[a].part], a)
    {
      assert PlaceFits(m, parts, starts, a);
    }
    assert LaidFrom(m, parts, starts);
    forall a | m.Has(a) && IsWall(m.At(a))
      ensures PlaceFits(m, parts, starts, a)
    {
    }
    forall a | a in parts
      ensures m.Has(a) && IsWall(m.At(a))
    {
      assert PlaceFits(m, parts, starts, a);
    }
    forall a, b | a in parts && b in parts
      ensures parts[a].part == parts[b].part <==> HangTogether(m, a, b)
    {
      PartIsHangingTogether(m, parts, starts, a, b);
    }
  }

  lemma PartIsHangingTogether(m: Map, parts: map<Loc, Place>, starts: seq<Loc>, a: Loc, b: Loc)
    requires m.Valid() && Searching(m, parts, starts, {}) && a in parts && b in parts
    ensures parts[a].part == parts[b].part <==> HangTogether(m, a, b)
  {
    assert PlaceFits(m, parts, starts, a) && PlaceFits(m, parts, starts, b);
    if parts[a].part == parts[b].part {
      var start := starts[parts[a].part];
      assert start in parts && PlaceFits(m, parts, starts, start);
      HangsBothWays(m, start, a);
      HangsOn(m, a, start, b);
    }
    if HangTogether(m, a, b) {
      var same := set c | c in parts && parts[c].part == parts[a].part;
      forall p, q | p in same && Step(m, p, q)
        ensures q in same
      {
        assert IsSpread(m, parts, p);
      }
      assert ClosedUnder(m, same);
    }
  }
}
