/** When Partition_map of wildmap.c leaves no hole, told from the map before the call. */
module Holes {
  import opened Torus
  import opened Labels
  import opened MapPasses

  ghost function FilledCells(g: Grid, d0: seq<Label>): set<int> { g.Cells() - Marked(d0, 0) }

  // One open region has more cells than are filled.
  ghost predicate HasBigRegion(g: Grid, d0: seq<Label>) {
    exists i :: i in Marked(d0, 0) && |Component(g, Marked(d0, 0), i)| > |FilledCells(g, d0)|
  }

  lemma {:induction false} CountIsSize(d: seq<Label>, v: Label)
    ensures multiset(d)[v] == |Marked(d, v)|
  {
    if d == [] {
      assert Marked(d, v) == {};
    } else {
      var n := |d| - 1;
      assert d == d[..n] + [d[n]];
      CountIsSize(d[..n], v);
      assert Marked(d, v) == Marked(d[..n], v) + if d[n] == v then {n} else {};
    }
  }

  lemma SmallerSet(a: set<int>, b: set<int>)
    requires a <= b
    ensures |a| <= |b|
  {
    assert b == a + (b - a);
  }

  // A label from 2 up marks a whole open region.
  lemma LabelIsComponent(g: Grid, s: set<int>, d: seq<Label>, i: int)
    requires s <= g.Cells() && Labelled(g, s, d) && 0 <= i < |d| && d[i] >= 2
    ensures Marked(d, d[i]) == Component(g, s, i)
  {
    forall j
      ensures j in Marked(d, d[i]) <==> j in Component(g, s, i)
    {
      if j in Component(g, s, i) {
        assert j in g.Cells();
      }
    }
  }

  // When labels do not run out, exactly the filled cells are left without a label.
  lemma FilledIsUnlabelled(g: Grid, d0: seq<Label>, d: seq<Label>)
    requires |d0| == g.datasize && FullyLabelled(g, Marked(d0, 0), d) && !ManyComponents(g, Marked(d0, 0))
    ensures Marked(d, 0) == FilledCells(g, d0)
  {
  }

  // The region chosen is a big one, and there is one only if a big one is chosen.
  lemma BigIsChosen(g: Grid, d0: seq<Label>, d: seq<Label>, marker: int)
    requires |d0| == g.datasize && FullyLabelled(g, Marked(d0, 0), d) && Chosen(d, marker)
    requires !ManyComponents(g, Marked(d0, 0))
    ensures HasBigRegion(g, d0) <==> marker != 0
    ensures marker != 0 ==> exists v :: 2 <= v < 256 && multiset(d)[v] > multiset(d)[0]
  {
    var open := Marked(d0, 0);
    FilledIsUnlabelled(g, d0, d);
    CountIsSize(d, 0);
    if marker != 0 {
      var i := LabelTable.IndexOf(d, marker);
      CountIsSize(d, marker);
      LabelIsComponent(g, open, d, i);
      assert HasBigRegion(g, d0);
    }
    if HasBigRegion(g, d0) {
      var i :| i in open && |Component(g, open, i)| > |FilledCells(g, d0)|;
      assert d[i] >= 2;
      LabelIsComponent(g, open, d, i);
      CountIsSize(d, d[i]);
    }
  }

  // Without a big region the filled cells take the part of the open ones.
  lemma FilledAreKept(g: Grid, d0: seq<Label>, fill: int,
                      d: seq<Label>, marker: int, walls: seq<Label>, e: seq<Label>)
    requires g.Valid() && Partitioned(g, d0, fill, d, marker, walls, e)
    requires !ManyComponents(g, Marked(d0, 0)) && !HasBigRegion(g, d0)
    ensures marker == 0 && Marked(walls, 0) == FilledCells(g, d0)
    ensures TakesWhole(g, FilledCells(g, d0), Marked(e, 0)) && FilledCells(g, d0) <= Marked(e, 0) <= g.Cells()
    ensures |Marked(d0, 0)| < fill ==> Marked(e, 0) == FilledCells(g, d0)
  {
    var open, filled := Marked(d0, 0), FilledCells(g, d0);
    BigIsChosen(g, d0, d, marker);
    FilledIsUnlabelled(g, d0, d);
    assert g.Cells() - Marked(d, marker) == open;
    FilledIsUnlabelled(g, d0, walls);
    RemovesWhole(walls, e, fill);
    DeletingTakesWhole(g, filled, walls, e);
    CountIsSize(walls, 0);
    CellCount(g.datasize);
    assert |filled| == |g.Cells()| - |open|;
  }

  lemma {:induction false} CellCount(n: int)
    requires 0 <= n
    ensures |Grid(1, n).Cells()| == n
    ensures forall w :: Grid(w, n).Cells() == Grid(1, n).Cells()
  {
    if n > 0 {
      CellCount(n - 1);
      assert Grid(1, n).Cells() == Grid(1, n - 1).Cells() + {n - 1};
    }
  }

  // With fewer than 255 open regions and a fill ratio that the open cells alone do
  // not reach, no hole remains if and only if there is a big open region, or the
  // filled cells are connected.
  lemma HolesExactly(g: Grid, d0: seq<Label>, fill: int,
                     d: seq<Label>, marker: int, walls: seq<Label>, e: seq<Label>)
    requires g.Valid() && Partitioned(g, d0, fill, d, marker, walls, e)
    requires !ManyComponents(g, Marked(d0, 0)) && |Marked(d0, 0)| < fill
    ensures AllLinked(g, Marked(e, 0)) <==> HasBigRegion(g, d0) || AllLinked(g, FilledCells(g, d0))
  {
    if HasBigRegion(g, d0) {
      BigIsChosen(g, d0, d, marker);
      PartitionLeavesNoHole(g, d0, fill, d, marker, walls, e);
    } else {
      FilledAreKept(g, d0, fill, d, marker, walls, e);
    }
  }

  // Whatever is removed, that is enough.
  lemma NoHoleRemains(g: Grid, d0: seq<Label>, fill: int,
                      d: seq<Label>, marker: int, walls: seq<Label>, e: seq<Label>)
    requires g.Valid() && Partitioned(g, d0, fill, d, marker, walls, e) && !ManyComponents(g, Marked(d0, 0))
    requires HasBigRegion(g, d0) || (FilledCells(g, d0) != {} && AllLinked(g, FilledCells(g, d0)))
    ensures AllLinked(g, Marked(e, 0))
  {
    if HasBigRegion(g, d0) {
      BigIsChosen(g, d0, d, marker);
      PartitionLeavesNoHole(g, d0, fill, d, marker, walls, e);
    } else {
      FilledAreKept(g, d0, fill, d, marker, walls, e);
      NoHoles(g, FilledCells(g, d0), Marked(e, 0));
    }
  }

  // ---- A map on which holes remain ----

  // 90 rows of 90 cells and the column behind them: two filled bands of 41 rows
  // with open bands of 4 rows between them.
  const BAND_GRID := Grid(91, 8190)
  const OPEN1 := 3731
  const FILLED2 := 4095
  const OPEN2 := 7826

  predicate InBand(k: int) { 0 <= k < OPEN1 || FILLED2 <= k < OPEN2 }

  function Bands(): (d: seq<Label>)
    ensures |d| == 8190
  {
    seq(8190, k => if InBand(k) then 1 else 0)
  }

  // Connect_map has nothing to do on it.
  lemma BandsAreQuiet()
    ensures QuietBelow(BAND_GRID, Bands(), 8190)
  {
    forall k | 0 <= k < 8190
      ensures Quiet(Bands(), WindowAt(BAND_GRID, k))
    {
      BandsAreQuietAt(k);
    }
  }

  lemma BandsAreQuietAt(k: int)
    requires 0 <= k < 8190
    ensures Quiet(Bands(), WindowAt(BAND_GRID, k))
  {
    var w := WindowAt(BAND_GRID, k);
    var d := Bands();
    assert d[w.p0] == (if InBand(w.p0) then 1 else 0) && d[w.p1] == (if InBand(w.p1) then 1 else 0);
    assert d[w.p2] == (if InBand(w.p2) then 1 else 0) && d[w.p3] == (if InBand(w.p3) then 1 else 0);
  }

  // The cells of a run are linked.
  lemma {:induction false} WalkInside(g: Grid, s: set<int>, i: int, n: nat)
    requires g.Valid() && 0 <= i && i + n < g.datasize && forall k :: i <= k <= i + n ==> k in s
    ensures Linked(g, s, i, i + n)
  {
    if n > 0 {
      WalkInside(g, s, i, n - 1);
      assert g.Adjacent(i + n - 1, i + n);
    }
  }

  // The open bands are two regions.
  lemma OpenBandsAreFew()
    ensures !ManyComponents(BAND_GRID, Marked(Bands(), 0))
  {
    var g, s := BAND_GRID, Marked(Bands(), 0);
    forall w
      ensures !Apart(g, s, w)
    {
      if |w| == 255 && forall k :: 0 <= k < |w| ==> w[k] in s {
        var (k, n) := if SameBand(w[0], w[1]) then (0, 1) else if SameBand(w[0], w[2]) then (0, 2) else (1, 2);
        assert w[0] in s && w[1] in s && w[2] in s;
        BandIsLinked(w[k], w[n]);
      }
    }
  }

  predicate SameBand(i: int, j: int) { (i < FILLED2) == (j < FILLED2) }

  lemma BandIsLinked(i: int, j: int)
    requires i in Marked(Bands(), 0) && j in Marked(Bands(), 0) && SameBand(i, j)
    ensures Linked(BAND_GRID, Marked(Bands(), 0), i, j)
  {
    var s := Marked(Bands(), 0);
    if i <= j {
      WalkInside(BAND_GRID, s, i, j - i);
    } else {
      WalkInside(BAND_GRID, s, j, i - j);
      LinkedSymmetric(BAND_GRID, s, j, i);
    }
  }

  // The filled bands are apart.
  lemma FilledBandsAreApart()
    ensures !AllLinked(BAND_GRID, FilledCells(BAND_GRID, Bands()))
  {
    var g, s := BAND_GRID, FilledCells(BAND_GRID, Bands());
    var c := Run(0, OPEN1);
    assert c <= s;
    forall i, j | i in c && j in s && g.Adjacent(i, j)
      ensures j in c
    {
      assert InBand(j);
    }
    assert ClosedIn(g, s, c) && 0 in c && FILLED2 in s && FILLED2 !in c;
    assert !Linked(g, s, 0, FILLED2);
  }

  lemma BandSizes()
    ensures |Marked(Bands(), 0)| == 728 && |FilledCells(BAND_GRID, Bands())| == 7462
  {
    var open := Marked(Bands(), 0);
    var first, second := Run(OPEN1, FILLED2), Run(OPEN2, 8190);
    RunSize(OPEN1, FILLED2);
    RunSize(OPEN2, 8190);
    assert open == first + second;
    CellCount(8190);
  }

  ghost function Run(a: int, b: int): set<int> { set k | a <= k < b && InRun(k, a, b) }

  predicate InRun(k: int, a: int, b: int) { a <= k < b }

  lemma {:induction false} RunSize(a: int, b: int)
    requires a <= b
    ensures |Run(a, b)| == b - a
    decreases b - a
  {
    if a < b {
      RunSize(a, b - 1);
      assert Run(a, b) == Run(a, b - 1) + {b - 1};
    } else {
      assert Run(a, b) == {};
    }
  }

  // For every fill ratio of 9 percent or more, the filled bands are left as two open
  // regions that are not connected.
  lemma HolesCanRemain(fill: int, d: seq<Label>, marker: int, walls: seq<Label>, e: seq<Label>)
    requires 728 < fill && Partitioned(BAND_GRID, Bands(), fill, d, marker, walls, e)
    ensures !AllLinked(BAND_GRID, Marked(e, 0))
  {
    BandSizes();
    OpenBandsAreFew();
    FilledBandsAreApart();
    forall i | i in Marked(Bands(), 0)
      ensures |Component(BAND_GRID, Marked(Bands(), 0), i)| <= 728
    {
      SmallerSet(Component(BAND_GRID, Marked(Bands(), 0), i), Marked(Bands(), 0));
    }
    HolesExactly(BAND_GRID, Bands(), fill, d, marker, walls, e);
  }
}
