/** Smooth_map of wildmap.c, which rewrites the map until nothing changes: it rounds
    corners and takes away what sticks out. */
module MapSmoothing {
  import opened Torus
  import opened Labels
  import opened MapPasses
  import BlockMap
  import PolyPartition

  type Dir = BlockMap.Dir

  const BLOCK_SPACE: Label := 32      // ' '
  const BLOCK_SOLID: Label := 120     // 'x'
  const BLOCK_UP_RIGHT: Label := 97   // 'a'
  const BLOCK_UP_LEFT: Label := 115   // 's'
  const BLOCK_DOWN_LEFT: Label := 119 // 'w'
  const BLOCK_DOWN_RIGHT: Label := 113 // 'q'

  predicate IsBlock(c: Label) {
    || c == BLOCK_SPACE || c == BLOCK_SOLID || c == BLOCK_UP_RIGHT || c == BLOCK_UP_LEFT
    || c == BLOCK_DOWN_LEFT || c == BLOCK_DOWN_RIGHT
  }

  // How far a cell still is from a half block.
  function Rank(c: Label): nat {
    if c == BLOCK_SOLID then 2 else if c == BLOCK_SPACE then 1 else 0
  }

  function Weight(d: seq<Label>): nat {
    if d == [] then 0 else Rank(d[0]) + Weight(d[1..])
  }

  lemma {:induction false} WeightUpdate(d: seq<Label>, i: nat, c: Label)
    requires i < |d|
    ensures Weight(d[i := c]) == Weight(d) - Rank(d[i]) + Rank(c)
  {
    if i == 0 {
      assert d[i := c][1..] == d[1..];
    } else {
      assert d[i := c][1..] == d[1..][i - 1 := c];
      WeightUpdate(d[1..], i - 1, c);
    }
  }

  // The eight cells around c4: c0, c1, c2 below it from right to left, c3 and c5
  // beside it, c6, c7, c8 above it.
  function Smoothed(c0: Label, c1: Label, c2: Label, c3: Label, c4: Label,
                    c5: Label, c6: Label, c7: Label, c8: Label): (r: Label)
    ensures r != c4 ==> Rank(r) < Rank(c4) && (IsBlock(c4) ==> IsBlock(r))
  {
    var space, solid := BLOCK_SPACE, BLOCK_SOLID;
    if c4 != space && c4 != solid then c4
    else if c0 == solid && c1 == solid && c3 == solid && c5 == space && c7 == space && c8 == space then
      BLOCK_DOWN_RIGHT
    else if c1 == solid && c2 == solid && c3 == space && c5 == solid && c6 == space && c7 == space then
      BLOCK_DOWN_LEFT
    else if c0 == space && c1 == space && c3 == space && c5 == solid && c7 == solid && c8 == solid then
      BLOCK_UP_LEFT
    else if c1 == space && c2 == space && c3 == solid && c5 == space && c6 == solid && c7 == solid then
      BLOCK_UP_RIGHT
    else if c4 != solid then c4
    else if c5 == space && c8 == space && c7 == space && c6 == space && c3 == space then
      if c2 != solid && c0 != solid then space else c4
    else if c7 == space && c6 == space && c3 == space && c0 == space && c1 == space then
      if c8 != solid && c2 != solid then space else c4
    else if c3 == space && c0 == space && c1 == space && c2 == space && c5 == space then
      if c6 != solid && c8 != solid then space else c4
    else if c1 == space && c2 == space && c5 == space && c8 == space && c7 == space then
      if c0 != solid && c6 != solid then space else c4
    else c4
  }

  // ---- What the rules mean ----

  // The half block whose solid corner lies in that direction.
  function HalfBlock(corner: Dir): Label
    requires corner % 2 == 1
  {
    match corner
    case 1 => BLOCK_UP_RIGHT
    case 3 => BLOCK_UP_LEFT
    case 5 => BLOCK_DOWN_LEFT
    case _ => BLOCK_DOWN_RIGHT
  }

  // The eight cells around one, by direction.
  type Ring = r: seq<Label> | |r| == 8 witness [0, 0, 0, 0, 0, 0, 0, 0]

  // The cell k eighths of a turn to the left of a direction.
  function Beside(r: Ring, d: Dir, k: int): Label { r[(d + k) % 8] }

  // There is solid wall at a corner and along the two sides beside it, and space opposite.
  predicate IsCut(r: Ring, corner: Dir) {
    && Beside(r, corner, -1) == Beside(r, corner, 0) == Beside(r, corner, 1) == BLOCK_SOLID
    && Beside(r, corner, 3) == Beside(r, corner, 4) == Beside(r, corner, 5) == BLOCK_SPACE
  }

  // At most the cell on one side is solid: the other sides and the corners between them are
  // space, and the corners beside that cell are not solid.
  predicate IsSpur(r: Ring, side: Dir) {
    && Beside(r, side, 2) == Beside(r, side, 3) == Beside(r, side, 4) == BLOCK_SPACE
    && Beside(r, side, 5) == Beside(r, side, 6) == BLOCK_SPACE
    && Beside(r, side, -1) != BLOCK_SOLID && Beside(r, side, 1) != BLOCK_SOLID
  }

  // A cell is rounded to a half block, or a spur is taken away.
  ghost predicate IsRounding(r: Ring, from: Label, to: Label) {
    || ((from == BLOCK_SPACE || from == BLOCK_SOLID)
        && exists corner: Dir :: corner % 2 == 1 && to == HalfBlock(corner) && IsCut(r, corner))
    || (from == BLOCK_SOLID && to == BLOCK_SPACE && exists side: Dir :: side % 2 == 0 && IsSpur(r, side))
  }

  function SmoothedIn(r: Ring, c: Label): Label { Smoothed(r[7], r[6], r[5], r[0], c, r[4], r[1], r[2], r[3]) }

  // The rules change a cell exactly in these ways, and always when there is one.
  lemma SmoothedIsExact(r: Ring, c: Label, to: Label)
    ensures IsRounding(r, c, to) <==> SmoothedIn(r, c) != c && to == SmoothedIn(r, c)
  {
    if c == BLOCK_SPACE || c == BLOCK_SOLID {
      if corner: Dir :| corner % 2 == 1 && to == HalfBlock(corner) && IsCut(r, corner) {
        CutIsMade(r, c, corner);
      }
    }
    if c == BLOCK_SOLID {
      if side: Dir :| side % 2 == 0 && IsSpur(r, side) {
        SpurIsTaken(r, side);
      }
    }
    RulesAreMeant(r, c);
  }

  lemma CutIsMade(r: Ring, c: Label, corner: Dir)
    requires (c == BLOCK_SPACE || c == BLOCK_SOLID) && corner % 2 == 1 && IsCut(r, corner)
    ensures SmoothedIn(r, c) == HalfBlock(corner)
  {
  }

  lemma SpurIsTaken(r: Ring, side: Dir)
    requires side % 2 == 0 && IsSpur(r, side)
    ensures SmoothedIn(r, BLOCK_SOLID) == BLOCK_SPACE
  {
  }

  lemma RulesAreMeant(r: Ring, c: Label)
    ensures SmoothedIn(r, c) != c ==> IsRounding(r, c, SmoothedIn(r, c))
  {
    assert IsCut(r, 7) || IsCut(r, 5) || IsCut(r, 3) || IsCut(r, 1) || c != BLOCK_SOLID || SmoothedIn(r, c) == c
      || IsSpur(r, 6) || IsSpur(r, 4) || IsSpur(r, 2) || IsSpur(r, 0);
  }

  // A half block that is put into a cell has solid wall along its solid sides and space
  // along its open ones.
  lemma CutFitsSides(r: Ring, corner: Dir, side: Dir)
    requires corner % 2 == 1 && side % 2 == 0 && IsCut(r, corner)
    ensures r[side] ==
      if PolyPartition.SolidTowards(HalfBlock(corner) as char, side) then BLOCK_SOLID else BLOCK_SPACE
  {
  }

  // A cell that is taken away is solid on at most one of its four sides.
  lemma SpurIsOpen(r: Ring, side: Dir, other: Dir)
    requires side % 2 == 0 && other % 2 == 0 && IsSpur(r, side) && other != side
    ensures r[other] == BLOCK_SPACE
  {
    assert other == (side + 2) % 8 || other == (side + 4) % 8 || other == (side + 6) % 8;
  }

  datatype Around = Around(p0: int, p1: int, p2: int, p3: int, p4: int, p5: int, p6: int, p7: int, p8: int)

  // The cells looked at from k.  At the very first cell of a sweep the two left
  // ones are taken one place too far to the left.
  function AroundAt(g: Grid, k: int): Around
    requires BigEnough(g) && g.Has(k)
  {
    var n, w, skip := g.datasize, g.linewidth, if k == 0 then 1 else 0;
    Around(k, Back(n, k, 1), Back(n, k, 2), Back(n, k, w), Back(n, k, w + 1), Back(n, k, w + 2 + skip),
           Back(n, k, 2 * w), Back(n, k, 2 * w + 1), Back(n, k, 2 * w + 2 + skip))
  }

  ghost predicate Inside(a: Around, n: int) {
    && 0 <= a.p0 < n && 0 <= a.p1 < n && 0 <= a.p2 < n && 0 <= a.p3 < n && 0 <= a.p4 < n
    && 0 <= a.p5 < n && 0 <= a.p6 < n && 0 <= a.p7 < n && 0 <= a.p8 < n
  }

  function SmoothedAt(d: seq<Label>, a: Around): Label
    requires Inside(a, |d|)
  {
    Smoothed(d[a.p0], d[a.p1], d[a.p2], d[a.p3], d[a.p4], d[a.p5], d[a.p6], d[a.p7], d[a.p8])
  }

  // ---- Roundings of the map ----

  // The cell next to cell j in a direction, on the ring of all cells. For the one cell that
  // a sweep comes to first, those on the left are one cell too far.
  function NearCell(g: Grid, j: int, d: Dir): (r: int)
    requires BigEnough(g) && g.Has(j)
    ensures g.Has(r)
  {
    var row := if BlockMap.Dy(d) < 0 then -g.linewidth else if BlockMap.Dy(d) > 0 then g.linewidth else 0;
    var skip := if j == g.datasize - g.linewidth - 1 && (d == 3 || d == 4) then 1 else 0;
    var i := j + row + BlockMap.Dx(d) - skip;
    if i < 0 then i + g.datasize else if i >= g.datasize then i - g.datasize else i
  }

  function RingAt(g: Grid, data: seq<Label>, j: int): Ring
    requires BigEnough(g) && |data| == g.datasize && g.Has(j)
  {
    [data[NearCell(g, j, 0)], data[NearCell(g, j, 1)], data[NearCell(g, j, 2)], data[NearCell(g, j, 3)],
     data[NearCell(g, j, 4)], data[NearCell(g, j, 5)], data[NearCell(g, j, 6)], data[NearCell(g, j, 7)]]
  }

  // The sweep looks at the cells around a cell when it has come to the one below and right
  // of it.
  lemma AroundIsNear(g: Grid, data: seq<Label>, k: int)
    requires BigEnough(g) && |data| == g.datasize && g.Has(k)
    ensures var a := AroundAt(g, k);
      Inside(a, |data|) && SmoothedAt(data, a) == SmoothedIn(RingAt(g, data, a.p4), data[a.p4])
  {
  }

  // One cell is rounded, or a spur taken away, as the cells around it are then.
  ghost predicate RoundsOne(g: Grid, d: seq<Label>, e: seq<Label>)
    requires BigEnough(g) && |d| == g.datasize
  {
    exists j :: g.Has(j) && RoundsAt(g, d, e, j)
  }

  ghost predicate RoundsAt(g: Grid, d: seq<Label>, e: seq<Label>, j: int)
    requires BigEnough(g) && |d| == g.datasize && g.Has(j)
  {
    |e| == |d| && e == d[j := e[j]] && IsRounding(RingAt(g, d, j), d[j], e[j])
  }

  // From map to map, one cell at a time.
  ghost predicate IsTrace(g: Grid, maps: seq<seq<Label>>)
    requires BigEnough(g)
  {
    && (forall i :: 0 <= i < |maps| ==> |maps[i]| == g.datasize)
    && forall i :: 0 <= i < |maps| - 1 ==> RoundsOne(g, maps[i], maps[i + 1])
  }

  ghost predicate Rounded(g: Grid, d: seq<Label>, e: seq<Label>)
    requires BigEnough(g)
  {
    exists maps :: maps != [] && IsTrace(g, maps) && maps[0] == d && maps[|maps| - 1] == e
  }

  lemma RoundedSelf(g: Grid, d: seq<Label>)
    requires BigEnough(g) && |d| == g.datasize
    ensures Rounded(g, d, d)
  {
    assert IsTrace(g, [d]);
  }

  lemma RoundedMore(g: Grid, d: seq<Label>, e: seq<Label>, f: seq<Label>)
    requires BigEnough(g) && |e| == |f| == g.datasize && Rounded(g, d, e) && RoundsOne(g, e, f)
    ensures Rounded(g, d, f)
  {
    var maps :| maps != [] && IsTrace(g, maps) && maps[0] == d && maps[|maps| - 1] == e;
    TraceMore(g, maps, f);
  }

  lemma TraceMore(g: Grid, maps: seq<seq<Label>>, f: seq<Label>)
    requires BigEnough(g) && maps != [] && IsTrace(g, maps) && |f| == g.datasize
    requires RoundsOne(g, maps[|maps| - 1], f)
    ensures IsTrace(g, maps + [f]) && (maps + [f])[0] == maps[0] && (maps + [f])[|maps + [f]| - 1] == f
  {
    var all := maps + [f];
    forall i | 0 <= i < |all| - 1
      ensures RoundsOne(g, all[i], all[i + 1])
    {
      if i < |maps| - 1 {
        assert RoundsOne(g, maps[i], maps[i + 1]);
        assert all[i] == maps[i] && all[i + 1] == maps[i + 1];
      } else {
        assert all[i] == maps[|maps| - 1] && all[i + 1] == f;
      }
    }
  }

  // No cell can be rounded, and there are no spurs.
  ghost predicate IsSmooth(g: Grid, d: seq<Label>)
    requires BigEnough(g) && |d| == g.datasize
  {
    forall j, to {:trigger IsRounding(RingAt(g, d, j), d[j], to)} :: g.Has(j) ==> !IsRounding(RingAt(g, d, j), d[j], to)
  }

  lemma SweptIsSmooth(g: Grid, d: seq<Label>)
    requires SmoothBelow(g, d, g.datasize)
    ensures IsSmooth(g, d)
  {
    forall j, to | g.Has(j)
      ensures !IsRounding(RingAt(g, d, j), d[j], to)
    {
      var k := NearCell(g, j, 7);
      assert SmoothAround(d, AroundAt(g, k));
      AroundIsNear(g, d, k);
      assert AroundAt(g, k).p4 == j;
      SmoothedIsExact(RingAt(g, d, j), d[j], to);
    }
  }

  ghost predicate AllBlocks(d: seq<Label>) { forall i :: 0 <= i < |d| ==> IsBlock(d[i]) }

  // A half block stays, and a space never becomes solid.
  ghost predicate OnlyRounds(d: seq<Label>, e: seq<Label>) {
    |d| == |e| && forall i :: 0 <= i < |d| ==> e[i] == d[i] || Rank(e[i]) < Rank(d[i])
  }

  lemma RoundsTransitive(d: seq<Label>, e: seq<Label>, f: seq<Label>)
    requires OnlyRounds(d, e) && OnlyRounds(e, f)
    ensures OnlyRounds(d, f)
  {
  }

  ghost predicate SmoothAround(d: seq<Label>, a: Around)
    requires Inside(a, |d|)
  {
    SmoothedAt(d, a) == d[a.p4]
  }

  ghost predicate SmoothBelow(g: Grid, d: seq<Label>, end: int) {
    BigEnough(g) && |d| == g.datasize && forall k :: 0 <= k < end && g.Has(k) ==> SmoothAround(d, AroundAt(g, k))
  }

  lemma SmoothMore(g: Grid, d: seq<Label>, k: int)
    requires SmoothBelow(g, d, k) && g.Has(k) && SmoothAround(d, AroundAt(g, k))
    ensures SmoothBelow(g, d, k + 1)
  {
  }

  method SmoothAt(g: Grid, data: array<Label>, a: Around) returns (n: nat)
    requires BigEnough(g) && data.Length == g.datasize && Inside(a, data.Length) && AllBlocks(data[..])
    requires SmoothedAt(data[..], a) == SmoothedIn(RingAt(g, data[..], a.p4), data[a.p4])
    modifies data
    ensures AllBlocks(data[..]) && OnlyRounds(old(data[..]), data[..])
    ensures n > 0 ==> RoundsOne(g, old(data[..]), data[..])
    ensures n > 0 ==> Weight(data[..]) < Weight(old(data[..]))
    ensures n == 0 ==> data[..] == old(data[..]) && SmoothAround(data[..], a)
  {
    n := 0;
    var c := SmoothedAt(data[..], a);
    if c != data[a.p4] {
      ghost var before := data[..];
      WeightUpdate(before, a.p4, c);
      SmoothedIsExact(RingAt(g, before, a.p4), before[a.p4], c);
      data[a.p4] := c;
      assert data[..] == before[a.p4 := c];
      assert RoundsAt(g, before, data[..], a.p4);
      n := 1;
    }
  }

  // The places looked at from the next cell.
  lemma AroundMoves(g: Grid, k: int)
    requires BigEnough(g) && g.Has(k) && k + 1 < g.datasize
    ensures var n, a := g.datasize, AroundAt(g, k);
      AroundAt(g, k + 1) == Around(k + 1, a.p0, a.p1, Forward(n, a.p3), a.p3, a.p4, Forward(n, a.p6), a.p6, a.p7)
  {
  }

  // What n changes in the cells before k have done to the map.
  ghost predicate Swept(g: Grid, d0: seq<Label>, d: seq<Label>, n: nat, k: nat)
    requires BigEnough(g) && |d0| == |d| == g.datasize && k <= g.datasize
  {
    && AllBlocks(d0) && AllBlocks(d) && OnlyRounds(d0, d)
    && (n > 0 ==> Weight(d) < Weight(d0))
    && (n == 0 ==> d == d0 && SmoothBelow(g, d, k))
  }

  lemma SweptMore(g: Grid, d0: seq<Label>, d: seq<Label>, e: seq<Label>, n: nat, more: nat, k: nat)
    requires BigEnough(g) && |d0| == |d| == |e| == g.datasize && k < g.datasize && Swept(g, d0, d, n, k)
    requires AllBlocks(e) && OnlyRounds(d, e) && (more > 0 ==> Weight(e) < Weight(d))
    requires more == 0 ==> e == d && SmoothAround(d, AroundAt(g, k))
    ensures Swept(g, d0, e, n + more, k + 1)
  {
    RoundsTransitive(d0, d, e);
    if n + more == 0 {
      SmoothMore(g, d, k);
    }
  }

  // The cell that is looked at from cell k.
  method SmoothCell(g: Grid, data: array<Label>, k: nat, a: Around, ghost d0: seq<Label>, ghost start: seq<Label>,
                    ghost n: nat)
    returns (changed: nat)
    requires BigEnough(g) && |d0| == data.Length == g.datasize && g.Has(k) && a == AroundAt(g, k)
    requires Swept(g, d0, data[..], n, k) && Rounded(g, start, data[..])
    modifies data
    ensures Swept(g, d0, data[..], n + changed, k + 1) && Rounded(g, start, data[..])
  {
    ghost var d := data[..];
    AroundIsNear(g, d, k);
    changed := SmoothAt(g, data, a);
    SweptMore(g, d0, d, data[..], n, changed, k);
    if changed > 0 {
      RoundedMore(g, start, d, data[..]);
    }
  }

  method SmoothSweep(g: Grid, data: array<Label>, ghost start: seq<Label>) returns (n: nat)
    requires BigEnough(g) && data.Length == g.datasize && AllBlocks(data[..]) && Rounded(g, start, data[..])
    modifies data
    ensures AllBlocks(data[..]) && OnlyRounds(old(data[..]), data[..]) && Rounded(g, start, data[..])
    ensures n > 0 ==> Weight(data[..]) < Weight(old(data[..]))
    ensures n == 0 ==> data[..] == old(data[..]) && SmoothBelow(g, data[..], g.datasize)
  {
    n := 0;
    var p0, p1, p2 := g.datasize, g.datasize - 1, g.datasize - 2;
    var p3 := p0 - g.linewidth;
    var p4 := p3 - 1;
    var p5, p6 := p4 - 2, p3 - g.linewidth;
    var p7 := p6 - 1;
    var p8 := p7 - 2;
    p0 := 0;
    while p0 < g.datasize
      invariant 0 <= p0 <= g.datasize
      invariant p0 < g.datasize ==> Around(p0, p1, p2, p3, p4, p5, p6, p7, p8) == AroundAt(g, p0)
      invariant Swept(g, old(data[..]), data[..], n, p0) && Rounded(g, start, data[..])
    {
      var a := Around(p0, p1, p2, p3, p4, p5, p6, p7, p8);
      var changed := SmoothCell(g, data, p0, a, old(data[..]), start, n);
      n := n + changed;
      if p0 + 1 < g.datasize {
        AroundMoves(g, p0);
      }
      p2, p1, p0 := p1, p0, p0 + 1;
      p5, p4, p3 := p4, p3, Forward(g.datasize, p3);
      p8, p7, p6 := p7, p6, Forward(g.datasize, p6);
    }
  }

  // The map as solid blocks and space.
  function InBlocks(d: seq<Label>): seq<Label> {
    seq(|d|, i requires 0 <= i < |d| => if d[i] != 0 then BLOCK_SOLID else BLOCK_SPACE)
  }

  // Round all sharp edges and corners.
  method SmoothMap(g: Grid, data: array<Label>)
    requires BigEnough(g) && data.Length == g.datasize
    modifies data
    ensures AllBlocks(data[..])
    ensures forall i :: 0 <= i < data.Length && old(data[i]) == 0 ==> data[i] != BLOCK_SOLID
    ensures Rounded(g, InBlocks(old(data[..])), data[..]) && IsSmooth(g, data[..])
  {
    var todo := data.Length;
    while todo > 0
      invariant 0 <= todo <= data.Length
      invariant forall i :: 0 <= i < todo ==> data[i] == old(data[i])
      invariant forall i :: todo <= i < data.Length ==>
                  data[i] == if old(data[i]) != 0 then BLOCK_SOLID else BLOCK_SPACE
    {
      todo := todo - 1;
      data[todo] := if data[todo] != 0 then BLOCK_SOLID else BLOCK_SPACE;
    }
    ghost var start := data[..];
    assert start == InBlocks(old(data[..]));
    RoundedSelf(g, start);
    while true
      invariant AllBlocks(data[..]) && OnlyRounds(start, data[..]) && Rounded(g, start, data[..])
      decreases Weight(data[..])
    {
      var n := SmoothSweep(g, data, start);
      if n == 0 {
        SweptIsSmooth(g, data[..]);
        break;
      }
    }
  }
}
