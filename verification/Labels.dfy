/** What a labelling of the map means, and why removing whole components from
    around one connected region leaves no hole. */
module Labels {
  import LabelTable
  import opened Torus

  type Label = v: int | 0 <= v < 256

  ghost function Marked(d: seq<Label>, v: int): (s: set<int>)
  {
    set i | 0 <= i < |d| && d[i] == v
  }

  // Every label from 2 up is on exactly one whole component of s, and every
  // other cell is 0.
  ghost predicate Labelled(g: Grid, s: set<int>, d: seq<Label>) {
    && |d| == g.datasize
    && (forall i :: 0 <= i < |d| && d[i] != 0 ==> i in s && d[i] >= 2)
    && (forall i, j :: i in s && j in s && Linked(g, s, i, j) && 0 <= i < |d| && 0 <= j < |d| ==> d[i] == d[j])
    && (forall i, j :: 0 <= i < |d| && 0 <= j < |d| && d[i] == d[j] >= 2 ==> Linked(g, s, i, j))
  }

  // A labelling that drops cells of s only when labels run out.
  ghost predicate FullyLabelled(g: Grid, s: set<int>, d: seq<Label>) {
    Labelled(g, s, d) && (!ManyComponents(g, s) ==> forall i :: i in s && 0 <= i < |d| ==> d[i] != 0)
  }

  // ---- A flood from one cell ----

  // What the flood has reached so far: its cells are linked to the start.
  ghost predicate Reached(g: Grid, s: set<int>, start: int, r: set<int>) {
    start in r && r <= s && forall j :: j in r ==> Linked(g, s, start, j)
  }

  // No neighbour of k that belongs to s is missing from r.
  ghost predicate Spread(g: Grid, s: set<int>, r: set<int>, k: int) {
    forall j :: j in s && g.Adjacent(k, j) ==> j in r
  }

  lemma FloodDone(g: Grid, s: set<int>, start: int, r: set<int>)
    requires Reached(g, s, start, r)
    requires forall k :: k in r ==> Spread(g, s, r, k)
    ensures r == Component(g, s, start)
  {
    forall i, j | i in r && j in s && g.Adjacent(i, j) ensures j in r {
      assert Spread(g, s, r, i);
    }
    ComponentIs(g, s, start, r);
  }

  // One more cell marked: the flood has still reached only linked cells.
  lemma ReachedMore(g: Grid, s: set<int>, start: int, r: set<int>, k: int, j: int)
    requires Reached(g, s, start, r) && k in r && j in s && g.Adjacent(k, j)
    ensures Reached(g, s, start, r + {j})
  {
    LinkedStep(g, s, start, k, j);
  }

  // ---- Labelling ----

  // The map while it is being labelled: s holds the cells to label, of which
  // those below todo may still be 1, and labels from marker up are free.
  ghost predicate Labelling(g: Grid, s: set<int>, d: seq<Label>, marker: int, todo: int) {
    && |d| == g.datasize && s <= g.Cells() && 2 <= marker <= 256 && 0 <= todo
    && (forall i :: 0 <= i < |d| && d[i] != 0 ==> i in s && d[i] < marker)
    && (forall i, j :: 0 <= i < |d| && 0 <= j < |d| && Linked(g, s, i, j) ==> d[i] == d[j])
    && (forall i, j :: 0 <= i < |d| && 0 <= j < |d| && d[i] == d[j] >= 2 ==> Linked(g, s, i, j))
    && (forall i :: todo <= i < |d| ==> d[i] != 1)
  }

  lemma AdjacentLinked(g: Grid, s: set<int>, i: int, j: int)
    requires i in s && j in s && g.Adjacent(i, j)
    ensures Linked(g, s, i, j)
  {
  }

  // The cells still 1 are whole components, so flooding them finds a component.
  lemma FloodsComponent(g: Grid, s: set<int>, d: seq<Label>, marker: int, todo: int, i: int, j: int)
    requires Labelling(g, s, d, marker, todo) && 0 <= i < |d| && 0 <= j < |d| && d[i] == 1
    ensures j in Component(g, Marked(d, 1), i) <==> Linked(g, s, i, j)
  {
    var t := Marked(d, 1);
    if j in Component(g, t, i) {
      LinkedWider(g, s, t, i, j);
    }
    if Linked(g, s, i, j) {
      forall k, n | k in t && n in s && g.Adjacent(k, n) ensures n in t {
        AdjacentLinked(g, s, k, n);
      }
      LinkedInside(g, s, t, i, j);
    }
  }

  // Flooding the component of the first cell that is still 1 labels it.
  lemma FloodLabels(g: Grid, s: set<int>, d: seq<Label>, e: seq<Label>, marker: Label, todo: nat)
    requires g.Valid() && Labelling(g, s, d, marker, todo + 1) && todo < |d| == |e| && d[todo] == 1
    requires forall j :: 0 <= j < |d| ==> e[j] == if j in Component(g, Marked(d, 1), todo) then marker else d[j]
    ensures Labelling(g, s, e, marker + 1, todo)
    ensures forall j :: 0 <= j < |d| && d[j] != 0 ==> e[j] != 0
    ensures forall j :: 0 <= j < |d| && d[j] >= 2 ==> e[j] == d[j]
    ensures e[todo] == marker
  {
    forall j | 0 <= j < |d|
      ensures e[j] == if Linked(g, s, todo, j) then marker else d[j]
      ensures Linked(g, s, todo, j) ==> d[j] == 1
    {
      FloodsComponent(g, s, d, marker, todo + 1, todo, j);
    }
    assert Linked(g, s, todo, todo);
    forall i, j | 0 <= i < |d| && 0 <= j < |d| && Linked(g, s, i, j) ensures e[i] == e[j] {
      if Linked(g, s, todo, i) {
        LinkedTransitive(g, s, todo, i, j);
      } else if Linked(g, s, todo, j) {
        LinkedSymmetric(g, s, i, j);
        LinkedTransitive(g, s, todo, j, i);
      }
    }
    forall i, j | 0 <= i < |d| && 0 <= j < |d| && e[i] == e[j] >= 2 ensures Linked(g, s, i, j) {
      if e[i] == marker {
        LinkedSymmetric(g, s, todo, i);
        LinkedTransitive(g, s, i, todo, j);
      }
    }
  }

  // A renaming of labels that keeps 0 and 1 and merges no two labels except
  // into 0 drops whole components only.
  ghost predicate Renames(del: seq<int>, below: int) {
    && |del| == 256 && del[0] == 0 && del[1] == 1
    && (forall v :: 0 <= v < 256 ==> 0 <= del[v] < below)
    && (forall v, w :: 0 <= v < w < 256 && del[v] == del[w] ==> del[v] == 0)
  }

  lemma RenamingKeeps(g: Grid, s: set<int>, d: seq<Label>, e: seq<Label>, del: seq<int>, below: int, todo: int)
    requires Labelling(g, s, d, 256, todo) && |d| == |e| && 2 <= below <= 256 && Renames(del, below)
    requires forall j :: 0 <= j < |d| ==> e[j] == del[d[j]]
    ensures Labelling(g, s, e, below, todo)
  {
  }

  // ---- Running out of labels ----

  // A choice of 255 cells of s no two of which are linked.
  ghost predicate ManyComponents(g: Grid, s: set<int>) {
    exists w :: Apart(g, s, w)
  }

  ghost predicate Apart(g: Grid, s: set<int>, w: seq<int>) {
    && |w| == 255 && (forall k :: 0 <= k < |w| ==> w[k] in s)
    && forall k, n :: 0 <= k < n < |w| ==> !Linked(g, s, w[k], w[n])
  }

  // When all labels are in use and a cell is still 1, there are 255 components.
  lemma LabelsUsedUp(g: Grid, s: set<int>, d: seq<Label>, todo: nat)
    requires Labelling(g, s, d, 256, todo + 1) && todo < |d| && d[todo] == 1
    requires forall v :: 2 <= v < 256 ==> v in d
    ensures ManyComponents(g, s)
  {
    var w := seq(255, k requires 0 <= k < 255 => if k == 0 then todo else LabelTable.IndexOf(d, k + 1));
    forall k | 0 <= k < 255 ensures d[w[k]] == k + 1 && w[k] in s {
    }
    assert Apart(g, s, w);
  }

  // What the labelling loop keeps: until labels run out, no cell is dropped and
  // every label below the marker is in use.
  ghost predicate LabelState(g: Grid, s: set<int>, d: seq<Label>, marker: int, todo: int, dropped: bool) {
    && Labelling(g, s, d, marker, todo)
    && (!dropped ==> forall i :: i in s && 0 <= i < |d| ==> d[i] != 0)
    && (!dropped ==> forall v :: 2 <= v < marker ==> v in d)
    && (dropped ==> ManyComponents(g, s))
  }

  lemma LabelStart(g: Grid, s: set<int>, d: seq<Label>)
    requires g.Valid() && |d| == g.datasize && s <= g.Cells()
    requires forall i :: 0 <= i < |d| ==> d[i] == if i in s then 1 else 0
    ensures LabelState(g, s, d, 2, |d|, false)
  {
  }

  lemma LabelSkip(g: Grid, s: set<int>, d: seq<Label>, marker: int, todo: nat, dropped: bool)
    requires LabelState(g, s, d, marker, todo + 1, dropped) && todo < |d| && d[todo] != 1
    ensures LabelState(g, s, d, marker, todo, dropped)
  {
  }

  lemma LabelFlood(g: Grid, s: set<int>, d: seq<Label>, e: seq<Label>, marker: Label, todo: nat, dropped: bool)
    requires g.Valid() && LabelState(g, s, d, marker, todo + 1, dropped)
    requires todo < |d| == |e| && d[todo] == 1
    requires forall j :: 0 <= j < |d| ==> e[j] == if j in Component(g, Marked(d, 1), todo) then marker else d[j]
    ensures LabelState(g, s, e, marker + 1, todo, dropped)
  {
    FloodLabels(g, s, d, e, marker, todo);
    if !dropped {
      forall v | 2 <= v < marker + 1 ensures v in e {
        if v < marker {
          assert v in d;
          assert e[LabelTable.IndexOf(d, v)] == v;
        }
      }
    }
  }

  lemma LabelDrop(g: Grid, s: set<int>, d: seq<Label>, e: seq<Label>, todo: nat, dropped: bool)
    requires LabelState(g, s, d, 256, todo + 1, dropped) && todo < |d| && d[todo] == 1
    requires Labelling(g, s, e, 224, todo + 1)
    ensures LabelState(g, s, e, 224, todo + 1, true)
  {
    if !dropped {
      LabelsUsedUp(g, s, d, todo);
    }
  }

  lemma LabellingDone(g: Grid, s: set<int>, d: seq<Label>, marker: int, dropped: bool)
    requires LabelState(g, s, d, marker, 0, dropped)
    ensures FullyLabelled(g, s, d)
  {
  }

  // ---- Holes ----

  // The complement of the region r splits into components; z takes some of them
  // whole and the rest not at all.
  ghost predicate TakesWhole(g: Grid, r: set<int>, z: set<int>) {
    forall i, j :: i in z - r && j in g.Cells() - r && g.Adjacent(i, j) ==> j in z
  }

  // What remains empty, one linked region and whole components of its
  // complement, is linked.
  lemma NoHoles(g: Grid, r: set<int>, z: set<int>)
    requires g.Valid() && r != {} && r <= z <= g.Cells() && AllLinked(g, r) && TakesWhole(g, r, z)
    ensures AllLinked(g, z)
  {
    forall i, j | i in z && j in z ensures Linked(g, z, i, j) {
      forall c: set<int> | ClosedIn(g, z, c) && i in c ensures j in c {
        MeetsRegion(g, r, z, c);
        HoldsRegion(g, r, z, c);
        ClosedRest(g, z, c);
        if z - c != {} {
          MeetsRegion(g, r, z, z - c);
        }
        assert j in c || j in z - c;
      }
    }
  }

  ghost predicate Meets(c: set<int>, r: set<int>) {
    exists k :: k in c && k in r
  }

  // A closed part that meets a linked region holds all of it.
  lemma HoldsRegion(g: Grid, r: set<int>, z: set<int>, c: set<int>)
    requires r <= z && AllLinked(g, r) && ClosedIn(g, z, c) && Meets(c, r)
    ensures r <= c
  {
    var p :| p in c && p in r;
    assert ClosedIn(g, r, c * r);
    forall q | q in r ensures q in c {
      assert Linked(g, r, p, q);
    }
  }

  // A closed part of what remains empty reaches the region: otherwise no step at
  // all would lead out of it.
  lemma MeetsRegion(g: Grid, r: set<int>, z: set<int>, c: set<int>)
    requires g.Valid() && r != {} && r <= z <= g.Cells() && TakesWhole(g, r, z)
    requires ClosedIn(g, z, c) && c != {}
    ensures Meets(c, r)
  {
    var k :| k in r;
    assert k in g.Cells();
    if !Meets(c, r) {
      forall i, j | i in c && j in g.Cells() && g.Adjacent(i, j) ensures j in c {
        assert i !in r;
        assert j in r ==> j in z;
      }
      OnlyAllIsClosed(g, c);
    }
  }

  // A label names one linked region.
  lemma LabelIsLinked(g: Grid, s: set<int>, d: seq<Label>, v: int)
    requires g.Valid() && s <= g.Cells() && Labelled(g, s, d) && v >= 2
    ensures AllLinked(g, Marked(d, v))
  {
    var r := Marked(d, v);
    forall i, j | i in r && j in r ensures Linked(g, r, i, j) {
      forall k, n | k in r && n in s && g.Adjacent(k, n) ensures n in r {
        AdjacentLinked(g, s, k, n);
      }
      LinkedInside(g, s, r, i, j);
    }
  }

  // Deleting some labels from a labelling of the complement of r takes whole
  // components.
  ghost predicate Deletes(d: seq<Label>, e: seq<Label>) {
    && |d| == |e|
    && (forall i :: 0 <= i < |d| ==> e[i] == d[i] || e[i] == 0)
    && (forall i, j :: 0 <= i < |d| && 0 <= j < |d| && d[i] == d[j] ==> e[i] == e[j])
  }

  lemma DeletingTakesWhole(g: Grid, r: set<int>, d: seq<Label>, e: seq<Label>)
    requires g.Valid() && r <= g.Cells() && Labelled(g, g.Cells() - r, d) && Deletes(d, e)
    ensures TakesWhole(g, r, Marked(e, 0)) && r <= Marked(e, 0) <= g.Cells()
  {
    var z := Marked(e, 0);
    forall i, j | i in z - r && j in g.Cells() - r && g.Adjacent(i, j) ensures j in z {
      AdjacentLinked(g, g.Cells() - r, i, j);
    }
    forall i | i in r ensures i in z {
      assert d[i] == 0;
    }
  }

  // ---- What Partition_map does ----

  // The label with the largest count; 0 wins a tie and is not an open region.
  ghost predicate Chosen(d: seq<Label>, marker: int) {
    && (marker == 0 || 2 <= marker < 256)
    && (forall v :: 2 <= v < 256 ==> multiset(d)[v] <= multiset(d)[marker])
    && (marker != 0 ==> multiset(d)[0] < multiset(d)[marker])
  }

  // ---- Which constructs are removed ----

  ghost function Counts(d: seq<Label>): seq<int> {
    seq(256, v requires 0 <= v < 256 => multiset(d)[v])
  }

  // The cells of the constructs from the i-th place of the table on.
  ghost function Tail(tbl: seq<int>, count: seq<int>, i: nat): int
    requires |tbl| == 256 && i <= 256 && forall k :: 0 <= k < 256 ==> 0 <= tbl[k] < |count|
    decreases 256 - i
  {
    if i == 256 then 0 else count[tbl[i]] + Tail(tbl, count, i + 1)
  }

  // The first construct to go: without it, those behind it are not too many cells,
  // and those from it on are more than that unless it is the largest of all.
  ghost predicate IsCut(tbl: seq<int>, count: seq<int>, excess: int, c: int)
    requires LabelTable.Lists(tbl, 256) && |count| == 256
  {
    && 2 <= c <= 256
    && (c < 256 ==> Tail(tbl, count, c + 1) <= excess)
    && (c > 2 ==> Tail(tbl, count, c) > excess)
  }

  // It goes, and those behind it go, except one of at least half its size that can
  // stay.
  ghost predicate Goes(tbl: seq<int>, count: seq<int>, excess: int, c: int, j: int)
    requires LabelTable.Lists(tbl, 256) && |count| == 256 && 2 <= c <= 256
  {
    c <= j < 256 && (j > c ==> Tail(tbl, count, c) - count[tbl[j]] <= excess || 2 * count[tbl[j]] < count[tbl[c]])
  }

  ghost predicate RemovesBy(walls: seq<Label>, e: seq<Label>, fill: int, tbl: seq<int>, c: int) {
    var count, excess := Counts(walls), |walls| - multiset(walls)[0] - fill;
    && LabelTable.Lists(tbl, 256) && LabelTable.Falling(tbl, count) && IsCut(tbl, count, excess, c) && |e| == |walls|
    && forall k :: 0 <= k < |walls| ==> e[k] == Left(tbl, count, excess, c, walls[k])
  }

  // What becomes of a label.
  ghost function Left(tbl: seq<int>, count: seq<int>, excess: int, c: int, v: Label): Label
    requires LabelTable.Lists(tbl, 256) && |count| == 256 && 2 <= c <= 256
  {
    if Goes(tbl, count, excess, c, LabelTable.IndexOf(tbl, v)) then 0 else v
  }

  ghost predicate Removes(walls: seq<Label>, e: seq<Label>, fill: int) {
    exists tbl, c :: RemovesBy(walls, e, fill, tbl, c)
  }

  // Whole constructs are removed, and none when too few cells are filled anyway.
  lemma RemovesWhole(walls: seq<Label>, e: seq<Label>, fill: int)
    requires Removes(walls, e, fill)
    ensures Deletes(walls, e) && (|walls| - multiset(walls)[0] < fill ==> e == walls)
  {
    var tbl, c :| RemovesBy(walls, e, fill, tbl, c);
    var count, excess := Counts(walls), |walls| - multiset(walls)[0] - fill;
    if excess < 0 {
      CutIsEnd(tbl, walls, excess, c);
      forall k | 0 <= k < |walls|
        ensures e[k] == walls[k]
      {
        assert e[k] == Left(tbl, count, excess, c, walls[k]);
      }
    }
  }

  lemma CutIsEnd(tbl: seq<int>, d: seq<Label>, excess: int, c: int)
    requires LabelTable.Lists(tbl, 256) && IsCut(tbl, Counts(d), excess, c) && excess < 0
    ensures c == 256
  {
    if c < 256 {
      TailIsNatural(tbl, d, c + 1);
    }
  }

  lemma {:induction false} TailIsNatural(tbl: seq<int>, d: seq<Label>, i: nat)
    requires LabelTable.Lists(tbl, 256) && i <= 256
    ensures Tail(tbl, Counts(d), i) >= 0
    decreases 256 - i
  {
    if i < 256 {
      TailIsNatural(tbl, d, i + 1);
    }
  }

  lemma GoneOrKept(walls: seq<Label>, e: seq<Label>, fill: int, tbl: seq<int>, c: int, i: int)
    requires RemovesBy(walls, e, fill, tbl, c) && 0 <= i < |walls| && walls[i] >= 2
    ensures var p := LabelTable.IndexOf(tbl, walls[i]); var count := Counts(walls);
      && 2 <= p < 256 && tbl[p] == walls[i] && count[tbl[p]] == multiset(walls)[walls[i]]
      && (e[i] == 0 ==> c <= p) && (e[i] != 0 && c <= p ==> 2 * count[tbl[p]] >= count[tbl[c]])
  {
  }

  // No construct is removed that is more than twice as large as one that is kept.
  lemma RemovedAreSmall(walls: seq<Label>, e: seq<Label>, fill: int, i: int, j: int)
    requires Removes(walls, e, fill) && 0 <= i < |walls| && 0 <= j < |walls|
    requires walls[i] >= 2 && walls[j] >= 2 && e[i] == 0 && e[j] != 0
    ensures multiset(walls)[walls[i]] <= 2 * multiset(walls)[walls[j]]
  {
    var tbl, c :| RemovesBy(walls, e, fill, tbl, c);
    var count := Counts(walls);
    GoneOrKept(walls, e, fill, tbl, c, i);
    GoneOrKept(walls, e, fill, tbl, c, j);
    var p, q := LabelTable.IndexOf(tbl, walls[i]), LabelTable.IndexOf(tbl, walls[j]);
    BehindIsSmaller(tbl, count, c, p, q);
  }

  lemma BehindIsSmaller(tbl: seq<int>, count: seq<int>, c: int, p: int, q: int)
    requires LabelTable.Falling(tbl, count) && 2 <= c <= p < |tbl| && 2 <= q < |tbl|
    ensures count[tbl[p]] <= count[tbl[c]] && (q < c ==> count[tbl[c]] <= count[tbl[q]])
  {
    assert c < p ==> count[tbl[c]] >= count[tbl[p]];
  }

  // d0 is labelled as d, the region chosen becomes the only open one, the rest
  // is labelled as walls, and e has some of these walls removed.
  ghost predicate Partitioned(g: Grid, d0: seq<Label>, fill: int,
                              d: seq<Label>, marker: int, walls: seq<Label>, e: seq<Label>) {
    && |d0| == g.datasize
    && FullyLabelled(g, Marked(d0, 0), d) && Chosen(d, marker)
    && FullyLabelled(g, g.Cells() - Marked(d, marker), walls)
    && Removes(walls, e, fill)
  }

  // If the largest open region has more cells than are filled or unlabelled,
  // no hole remains: the empty cells are one connected region.
  lemma PartitionLeavesNoHole(g: Grid, d0: seq<Label>, fill: int,
                              d: seq<Label>, marker: int, walls: seq<Label>, e: seq<Label>)
    requires g.Valid() && Partitioned(g, d0, fill, d, marker, walls, e)
    requires exists v :: 2 <= v < 256 && multiset(d)[v] > multiset(d)[0]
    ensures marker != 0 && AllLinked(g, Marked(e, 0)) && Marked(d, marker) <= Marked(e, 0)
  {
    var r := Marked(d, marker);
    assert LabelTable.IndexOf(d, marker) in r;
    LabelIsLinked(g, Marked(d0, 0), d, marker);
    RemovesWhole(walls, e, fill);
    DeletingTakesWhole(g, r, walls, e);
    NoHoles(g, r, Marked(e, 0));
  }
}
