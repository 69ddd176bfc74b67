/** Connect_map of wildmap.c, which rewrites the map until nothing changes: it joins
    constructs that nearly touch. */
module MapPasses {
  import opened Torus
  import opened Labels

  // The cell b places before k on the ring of all cells.
  function Back(n: int, k: int, b: int): (r: int)
    requires 0 <= k < n && 0 <= b <= n
    ensures 0 <= r < n || (k == 0 && b == n)
  {
    if k >= b then k - b else k - b + n
  }

  ghost predicate BigEnough(g: Grid) { 4 <= g.linewidth && 4 * g.linewidth <= g.datasize }

  // ---- Connect_map ----

  // Zero cells may be filled, with values already on the map; filled cells stay.
  ghost predicate Grows(d: seq<Label>, e: seq<Label>) {
    && |d| == |e|
    && (forall i :: 0 <= i < |d| && d[i] != 0 ==> e[i] == d[i])
    && (forall i :: 0 <= i < |d| && e[i] != 0 ==> e[i] in d)
  }

  ghost function Zeros(d: seq<Label>): set<int> { set i | 0 <= i < |d| && d[i] == 0 }

  lemma GrowsTransitive(d: seq<Label>, e: seq<Label>, f: seq<Label>)
    requires Grows(d, e) && Grows(e, f)
    ensures Grows(d, f)
  {
    forall i | 0 <= i < |d| && f[i] != 0 ensures f[i] in d {
      var j :| 0 <= j < |e| && e[j] == f[i];
      assert e[j] in d;
    }
  }

  lemma FillGrows(d: seq<Label>, i: int, j: int)
    requires 0 <= i < |d| && 0 <= j < |d| && d[j] != 0 && (d[i] == 0 || d[i] == d[j])
    ensures Grows(d, d[i := d[j]]) && Zeros(d[i := d[j]]) == Zeros(d) - {i}
    ensures d[i] == 0 ==> i in Zeros(d)
  {
  }

  // The cells around k that are looked at: along its row, then along the rows
  // above it.
  datatype Window = Window(p0: int, p1: int, p2: int, p3: int, p4: int, p5: int, p6: int,
                           p7: int, p8: int, p9: int, pa: int)

  function WindowAt(g: Grid, k: int): Window
    requires BigEnough(g) && g.Has(k)
  {
    var n, w := g.datasize, g.linewidth;
    Window(k, Back(n, k, 1), Back(n, k, 2), Back(n, k, 3),
           Back(n, k, w), Back(n, k, w + 1), Back(n, k, w + 2),
           Back(n, k, 2 * w), Back(n, k, 2 * w + 1), Back(n, k, 2 * w + 2), Back(n, k, 3 * w))
  }

  ghost predicate InMap(w: Window, n: int) {
    && 0 <= w.p0 < n && 0 <= w.p1 < n && 0 <= w.p2 < n && 0 <= w.p3 < n && 0 <= w.p4 < n && 0 <= w.p5 < n
    && 0 <= w.p6 < n && 0 <= w.p7 < n && 0 <= w.p8 < n && 0 <= w.p9 < n && 0 <= w.pa < n
  }

  // The cells around an empty cell between which it is filled as a bridge: they
  // touch it at two corners, at a corner and a side, or across it.
  predicate Bridges(a0: bool, a1: bool, a2: bool, a4: bool, a6: bool, a7: bool, a8: bool, a9: bool) {
    || ((a0 || (a1 && a4)) && a9)
    || (a6 && a8 && a0)
    || (a2 && (a7 || (a4 && a8)))
    || (a7 && a1 && a6)
    || (!a0 && !a1 && a2 && !a4 && a6 && a7 && a8 && a9)
    || (a0 && !a1 && !a2 && a4 && !a6 && a7 && a8 && a9)
    || (a0 && a1 && a2 && a4 && !a6 && a7 && !a8 && !a9)
    || (a0 && a1 && a2 && !a4 && a6 && !a7 && !a8 && a9)
    || (a0 && !a1 && !a2 && !a4 && !a6 && !a7 && a8 && !a9)
    || (!a0 && !a1 && a2 && !a4 && !a6 && !a7 && a8 && !a9)
    || (a0 && !a1 && !a2 && !a4 && a6 && !a7 && !a8 && !a9)
    || (!a0 && !a1 && !a2 && !a4 && a6 && a7 && !a8 && !a9)
    || (!a0 && a1 && !a2 && !a4 && !a6 && !a7 && !a8 && a9)
    || (!a0 && a1 && !a2 && !a4 && !a6 && a7 && !a8 && !a9)
    || (!a0 && !a1 && !a2 && a4 && !a6 && !a7 && !a8 && a9)
    || (!a0 && !a1 && a2 && a4 && !a6 && !a7 && !a8 && !a9)
  }

  // The empty cell p5 is to be filled as a bridge.
  ghost predicate Waits(d: seq<Label>, w: Window)
    requires InMap(w, |d|)
  {
    && d[w.p5] == 0
    && Bridges(d[w.p0] != 0, d[w.p1] != 0, d[w.p2] != 0, d[w.p4] != 0,
               d[w.p6] != 0, d[w.p7] != 0, d[w.p8] != 0, d[w.p9] != 0)
  }

  // No gap of one or two cells left of or above a filled cell, no two cells that
  // touch at a corner only, and no cell waiting to be filled as a bridge.
  ghost predicate Quiet(d: seq<Label>, w: Window)
    requires InMap(w, |d|)
  {
    && (d[w.p0] != 0 && d[w.p1] == 0 ==> d[w.p2] == 0 && d[w.p3] == 0)
    && (d[w.p0] != 0 && d[w.p4] == 0 ==> d[w.p7] == 0 && d[w.pa] == 0)
    && (d[w.p0] != 0 && d[w.p5] != 0 ==> d[w.p1] != 0 || d[w.p4] != 0)
    && (d[w.p1] != 0 && d[w.p4] != 0 ==> d[w.p0] != 0 || d[w.p5] != 0)
    && !Waits(d, w)
  }

  // Give an empty cell the value of a filled one.
  method Fill(data: array<Label>, i: int, j: int)
    requires 0 <= i < data.Length && 0 <= j < data.Length && data[j] != 0 && (data[i] == 0 || data[i] == data[j])
    modifies data
    ensures data[..] == old(data[..])[i := old(data[j])]
    ensures Grows(old(data[..]), data[..]) && Zeros(data[..]) == Zeros(old(data[..])) - {i}
    ensures old(data[i]) == 0 ==> i in Zeros(old(data[..]))
  {
    FillGrows(data[..], i, j);
    data[i] := data[j];
  }

  // Close gaps left of and above the cell, and corners where two cells touch.
  method CloseGaps(data: array<Label>, w: Window) returns (n: nat)
    requires InMap(w, data.Length)
    modifies data
    ensures Grows(old(data[..]), data[..])
    ensures n > 0 ==> Zeros(data[..]) < Zeros(old(data[..]))
    ensures n == 0 ==> data[..] == old(data[..])
    ensures n == 0 ==>
      && (data[w.p0] != 0 && data[w.p1] == 0 ==> data[w.p2] == 0 && data[w.p3] == 0)
      && (data[w.p0] != 0 && data[w.p4] == 0 ==> data[w.p7] == 0 && data[w.pa] == 0)
      && (data[w.p0] != 0 && data[w.p5] != 0 ==> data[w.p1] != 0 || data[w.p4] != 0)
    ensures data[w.p1] != 0 && data[w.p4] != 0 ==> data[w.p0] != 0 || data[w.p5] != 0
  {
    n := 0;
    ghost var d := data[..];
    if data[w.p0] != 0 {
      n := CloseRow(data, w);
      ghost var d1 := data[..];
      var n' := CloseColumn(data, w);
      GrowsTransitive(d, d1, data[..]);
      n := n + n';
      ghost var d2 := data[..];
      if data[w.p5] != 0 && data[w.p1] == 0 && data[w.p4] == 0 {
        Fill(data, w.p1, w.p0);
        ghost var d3 := data[..];
        GrowsTransitive(d, d2, d3);
        Fill(data, w.p4, w.p0);
        GrowsTransitive(d, d3, data[..]);
        n := n + 1;
      }
    } else if data[w.p5] == 0 && data[w.p1] != 0 && data[w.p4] != 0 {
      Fill(data, w.p5, w.p1);
      ghost var d1 := data[..];
      Fill(data, w.p0, w.p5);
      GrowsTransitive(d, d1, data[..]);
      n := n + 1;
    }
  }

  method CloseRow(data: array<Label>, w: Window) returns (n: nat)
    requires InMap(w, data.Length) && data[w.p0] != 0
    modifies data
    ensures Grows(old(data[..]), data[..])
    ensures n > 0 ==> Zeros(data[..]) < Zeros(old(data[..]))
    ensures n == 0 ==> data[..] == old(data[..]) && (data[w.p1] == 0 ==> data[w.p2] == 0 && data[w.p3] == 0)
  {
    n := 0;
    ghost var d := data[..];
    if data[w.p1] == 0 {
      if data[w.p2] != 0 {
        Fill(data, w.p1, w.p0);
        n := n + 1;
      } else if data[w.p3] != 0 {
        Fill(data, w.p1, w.p0);
        ghost var d1 := data[..];
        Fill(data, w.p2, w.p1);
        GrowsTransitive(d, d1, data[..]);
        n := n + 1;
      }
    }
  }

  method CloseColumn(data: array<Label>, w: Window) returns (n: nat)
    requires InMap(w, data.Length) && data[w.p0] != 0
    modifies data
    ensures Grows(old(data[..]), data[..])
    ensures n > 0 ==> Zeros(data[..]) < Zeros(old(data[..]))
    ensures n == 0 ==> data[..] == old(data[..]) && (data[w.p4] == 0 ==> data[w.p7] == 0 && data[w.pa] == 0)
  {
    n := 0;
    ghost var d := data[..];
    if data[w.p4] == 0 {
      if data[w.p7] != 0 {
        Fill(data, w.p4, w.p0);
        n := n + 1;
      } else if data[w.pa] != 0 {
        Fill(data, w.p4, w.p0);
        ghost var d1 := data[..];
        Fill(data, w.p7, w.p4);
        GrowsTransitive(d, d1, data[..]);
        n := n + 1;
      }
    }
  }

  // Fill the empty cell p5 if it bridges its surroundings.
  method FillBridge(data: array<Label>, w: Window) returns (n: nat)
    requires InMap(w, data.Length)
    requires data[w.p1] != 0 && data[w.p4] != 0 ==> data[w.p0] != 0 || data[w.p5] != 0
    modifies data
    ensures Grows(old(data[..]), data[..])
    ensures n > 0 ==> Zeros(data[..]) < Zeros(old(data[..]))
    ensures n == 0 ==> data[..] == old(data[..])
    ensures n > 0 <==> old(Waits(data[..], w))
  {
    n := 0;
    if data[w.p5] == 0 {
      var a0, a1, a2, a4 := data[w.p0] != 0, data[w.p1] != 0, data[w.p2] != 0, data[w.p4] != 0;
      var a6, a7, a8, a9 := data[w.p6] != 0, data[w.p7] != 0, data[w.p8] != 0, data[w.p9] != 0;
      n := 1;
      if (a0 || (a1 && a4)) && a9 {
        Fill(data, w.p5, w.p0);
      } else if a6 && a8 && a0 {
        Fill(data, w.p5, w.p0);
      } else if a2 && (a7 || (a4 && a8)) {
        Fill(data, w.p5, w.p2);
      } else if a7 && a1 && a6 {
        Fill(data, w.p5, w.p7);
        // The next four cases that Bridges lists are covered by these.
      } else if a0 && !a1 && !a2 && !a4 && !a6 && !a7 && a8 && !a9 {
        Fill(data, w.p5, w.p8);
      } else if !a0 && !a1 && a2 && !a4 && !a6 && !a7 && a8 && !a9 {
        Fill(data, w.p5, w.p8);
      } else if a0 && !a1 && !a2 && !a4 && a6 && !a7 && !a8 && !a9 {
        Fill(data, w.p5, w.p6);
      } else if !a0 && !a1 && !a2 && !a4 && a6 && a7 && !a8 && !a9 {
        Fill(data, w.p5, w.p6);
      } else if !a0 && a1 && !a2 && !a4 && !a6 && !a7 && !a8 && a9 {
        Fill(data, w.p5, w.p1);
      } else if !a0 && a1 && !a2 && !a4 && !a6 && a7 && !a8 && !a9 {
        Fill(data, w.p5, w.p1);
      } else if !a0 && !a1 && !a2 && a4 && !a6 && !a7 && !a8 && a9 {
        Fill(data, w.p5, w.p4);
      } else if !a0 && !a1 && a2 && a4 && !a6 && !a7 && !a8 && !a9 {
        Fill(data, w.p5, w.p4);
      } else {
        n := 0;
      }
    }
  }

  // One step of the sweep, at the cell p0 of the window.
  method ConnectAt(data: array<Label>, w: Window) returns (n: nat)
    requires InMap(w, data.Length)
    modifies data
    ensures Grows(old(data[..]), data[..])
    ensures n > 0 ==> Zeros(data[..]) < Zeros(old(data[..]))
    ensures n == 0 ==> data[..] == old(data[..]) && Quiet(data[..], w)
  {
    ghost var d := data[..];
    n := CloseGaps(data, w);
    ghost var d1 := data[..];
    var n' := FillBridge(data, w);
    GrowsTransitive(d, d1, data[..]);
    n := n + n';
  }

  // The ring position after i.
  function Forward(n: int, i: int): int { if i + 1 >= n then 0 else i + 1 }

  // The places looked at from the next cell.
  lemma WindowMoves(g: Grid, k: int)
    requires BigEnough(g) && g.Has(k) && k + 1 < g.datasize
    ensures var n, w := g.datasize, WindowAt(g, k);
      WindowAt(g, k + 1) == Window(k + 1, w.p0, w.p1, w.p2, Forward(n, w.p4), w.p4, w.p5,
                                   Forward(n, w.p7), w.p7, w.p8, Forward(n, w.pa))
  {
  }

  // No cell before the end waits for anything.
  ghost predicate QuietBelow(g: Grid, d: seq<Label>, end: int) {
    BigEnough(g) && |d| == g.datasize && forall k :: 0 <= k < end && g.Has(k) ==> Quiet(d, WindowAt(g, k))
  }

  lemma QuietMore(g: Grid, d: seq<Label>, k: int)
    requires QuietBelow(g, d, k) && g.Has(k) && Quiet(d, WindowAt(g, k))
    ensures QuietBelow(g, d, k + 1)
  {
  }

  // One sweep over the map.
  method ConnectSweep(g: Grid, data: array<Label>) returns (n: nat)
    requires BigEnough(g) && data.Length == g.datasize
    modifies data
    ensures Grows(old(data[..]), data[..])
    ensures n > 0 ==> Zeros(data[..]) < Zeros(old(data[..]))
    ensures n == 0 ==> data[..] == old(data[..]) && QuietBelow(g, data[..], g.datasize)
  {
    n := 0;
    var p0, p1, p2, p3 := g.datasize, g.datasize - 1, g.datasize - 2, g.datasize - 3;
    var p4 := p0 - g.linewidth;
    var p5, p6 := p4 - 1, p4 - 2;
    var p7 := p4 - g.linewidth;
    var p8, p9, pa := p7 - 1, p7 - 2, p7 - g.linewidth;
    p0 := 0;
    while p0 < g.datasize
      invariant 0 <= p0 <= g.datasize
      invariant p0 < g.datasize ==> Window(p0, p1, p2, p3, p4, p5, p6, p7, p8, p9, pa) == WindowAt(g, p0)
      invariant Grows(old(data[..]), data[..])
      invariant n > 0 ==> Zeros(data[..]) < Zeros(old(data[..]))
      invariant n == 0 ==> data[..] == old(data[..]) && QuietBelow(g, data[..], p0)
    {
      ghost var d := data[..];
      var changed := ConnectAt(data, Window(p0, p1, p2, p3, p4, p5, p6, p7, p8, p9, pa));
      GrowsTransitive(old(data[..]), d, data[..]);
      n := n + changed;
      if n == 0 {
        QuietMore(g, d, p0);
      }
      if p0 + 1 < g.datasize {
        WindowMoves(g, p0);
      }
      p3, p2, p1, p0 := p2, p1, p0, p0 + 1;
      p6, p5, p4 := p5, p4, Forward(g.datasize, p4);
      p9, p8, p7 := p8, p7, Forward(g.datasize, p7);
      pa := Forward(g.datasize, pa);
    }
  }

  // Connect small constructs that are very close to one another.
  method ConnectMap(g: Grid, data: array<Label>)
    requires BigEnough(g) && data.Length == g.datasize
    modifies data
    ensures Grows(old(data[..]), data[..])
    ensures forall k :: g.Has(k) ==> Quiet(data[..], WindowAt(g, k))
  {
    while true
      invariant Grows(old(data[..]), data[..])
      decreases Zeros(data[..])
    {
      ghost var d := data[..];
      var n := ConnectSweep(g, data);
      GrowsTransitive(old(data[..]), d, data[..]);
      if n == 0 {
        break;
      }
    }
  }

  // After Connect_map the cells between two filled cells that are two or three
  // places apart in a row or a column are filled too.
  lemma NoSmallGaps(g: Grid, d: seq<Label>, k: int)
    requires BigEnough(g) && |d| == g.datasize && g.Has(k)
    requires forall i :: g.Has(i) ==> Quiet(d, WindowAt(g, i))
    ensures var n := g.datasize; forall step :: step == 1 || step == g.linewidth ==>
      && (d[k] != 0 && d[Back(n, k, 2 * step)] != 0 ==> d[Back(n, k, step)] != 0)
      && (d[k] != 0 && d[Back(n, k, 3 * step)] != 0 ==>
            d[Back(n, k, step)] != 0 && d[Back(n, k, 2 * step)] != 0)
  {
    var n, w := g.datasize, g.linewidth;
    var left, above := Back(n, k, 1), Back(n, k, w);
    assert Quiet(d, WindowAt(g, k)) && Quiet(d, WindowAt(g, left)) && Quiet(d, WindowAt(g, above));
    assert Back(n, left, 1) == Back(n, k, 2) && Back(n, left, 2) == Back(n, k, 3);
    assert Back(n, above, w) == Back(n, k, 2 * w) && Back(n, above, 2 * w) == Back(n, k, 3 * w);
  }
}
