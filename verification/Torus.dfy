/** The neighbour graph of wildmap.c: a torus whose rows continue into one
    another, and connectedness of sets of its cells. */
module Torus {
  import opened Arith

  datatype Grid = Grid(linewidth: int, datasize: int) {

    predicate Valid() { 0 < linewidth <= datasize }

    predicate Has(i: int) { 0 <= i < datasize }

    function OffLeft(i: int): int { if i >= 1 then i - 1 else datasize - 1 }

    function OffRight(i: int): int { if i + 1 < datasize then i + 1 else 0 }

    function OffUp(i: int): int {
      if i >= linewidth then i - linewidth else i - linewidth + datasize
    }

    function OffDown(i: int): int {
      if i + linewidth < datasize then i + linewidth else i + linewidth - datasize
    }

    predicate Adjacent(i: int, j: int) {
      j == OffUp(i) || j == OffLeft(i) || j == OffDown(i) || j == OffRight(i)
    }

    ghost function Cells(): set<int> { set i | 0 <= i < datasize && Has(i) }
  }

  // The neighbours of a cell are the cells one step or one row away on the ring of all cells.
  lemma AdjacentIsOnRing(g: Grid, i: int, j: int)
    requires g.Valid() && g.Has(i) && g.Has(j)
    ensures g.Adjacent(i, j) <==>
      (i + 1) % g.datasize == j || (j + 1) % g.datasize == i
      || (i + g.linewidth) % g.datasize == j || (j + g.linewidth) % g.datasize == i
  {
    var n := g.datasize;
    RingStep(i, 1, n);
    RingStep(j, 1, n);
    RingStep(i, g.linewidth, n);
    RingStep(j, g.linewidth, n);
  }

  lemma RingStep(i: int, step: int, n: int)
    requires 0 <= i < n && 0 < step <= n
    ensures (i + step) % n == if i + step < n then i + step else i + step - n
  {
    ModUnique(i + step, if i + step < n then 0 else 1, if i + step < n then i + step else i + step - n, n);
  }

  lemma AdjacentIsSymmetric(g: Grid, i: int, j: int)
    requires g.Valid() && g.Has(i) && g.Adjacent(i, j)
    ensures g.Has(j) && g.Adjacent(j, i)
  {
  }

  // A part of s that no step inside s leads out of.
  ghost predicate ClosedIn(g: Grid, s: set<int>, c: set<int>) {
    c <= s && forall i, j :: i in c && j in s && g.Adjacent(i, j) ==> j in c
  }

  // Cells of s that no closed part of s separates.
  ghost predicate Linked(g: Grid, s: set<int>, i: int, j: int) {
    i in s && j in s && forall c: set<int> {:trigger ClosedIn(g, s, c)} :: ClosedIn(g, s, c) && i in c ==> j in c
  }

  ghost predicate IsPath(g: Grid, s: set<int>, p: seq<int>) {
    && 0 < |p|
    && (forall k :: 0 <= k < |p| ==> p[k] in s)
    && (forall k :: 0 < k < |p| ==> g.Adjacent(p[k - 1], p[k]))
  }

  ghost predicate Joins(g: Grid, s: set<int>, p: seq<int>, i: int, j: int) {
    IsPath(g, s, p) && p[0] == i && p[|p| - 1] == j
  }

  // Being linked is being joined by a path.
  lemma LinkedIffPath(g: Grid, s: set<int>, i: int, j: int)
    requires i in s && j in s
    ensures Linked(g, s, i, j) <==> exists p :: Joins(g, s, p, i, j)
  {
    var reached := set k | k in s && exists p :: Joins(g, s, p, i, k);
    assert Joins(g, s, [i], i, i);
    forall k, n | k in reached && n in s && g.Adjacent(k, n) ensures n in reached {
      var p :| Joins(g, s, p, i, k);
      assert Joins(g, s, p + [n], i, n);
    }
    assert ClosedIn(g, s, reached);
    if p :| Joins(g, s, p, i, j) {
      forall c: set<int> | ClosedIn(g, s, c) && i in c ensures j in c {
        PathStays(g, s, c, p, |p| - 1);
      }
    }
  }

  lemma {:induction false} PathStays(g: Grid, s: set<int>, c: set<int>, p: seq<int>, k: nat)
    requires IsPath(g, s, p) && ClosedIn(g, s, c) && p[0] in c && k < |p|
    ensures p[k] in c
  {
    if k > 0 {
      PathStays(g, s, c, p, k - 1);
    }
  }

  lemma LinkedStep(g: Grid, s: set<int>, i: int, j: int, k: int)
    requires Linked(g, s, i, j) && k in s && g.Adjacent(j, k)
    ensures Linked(g, s, i, k)
  {
  }

  lemma LinkedTransitive(g: Grid, s: set<int>, i: int, j: int, k: int)
    requires Linked(g, s, i, j) && Linked(g, s, j, k)
    ensures Linked(g, s, i, k)
  {
  }

  lemma ClosedRest(g: Grid, s: set<int>, c: set<int>)
    requires g.Valid() && s <= g.Cells() && ClosedIn(g, s, c)
    ensures ClosedIn(g, s, s - c)
  {
    forall i, j | i in s - c && j in s && g.Adjacent(i, j) ensures j in s - c {
      AdjacentIsSymmetric(g, i, j);
    }
  }

  lemma LinkedSymmetric(g: Grid, s: set<int>, i: int, j: int)
    requires g.Valid() && s <= g.Cells() && Linked(g, s, i, j)
    ensures Linked(g, s, j, i)
  {
    forall c: set<int> | ClosedIn(g, s, c) && j in c ensures i in c {
      ClosedRest(g, s, c);
    }
  }

  // All the cells that i is linked to.
  ghost function Component(g: Grid, s: set<int>, i: int): set<int> {
    set j | j in s && Linked(g, s, i, j)
  }

  // A closed part whose cells are all linked to i is the component of i.
  lemma ComponentIs(g: Grid, s: set<int>, i: int, c: set<int>)
    requires ClosedIn(g, s, c) && i in c
    requires forall j :: j in c ==> Linked(g, s, i, j)
    ensures Component(g, s, i) == c
  {
  }

  // Cells linked in s stay linked in any closed part of s that holds them.
  lemma LinkedInside(g: Grid, s: set<int>, r: set<int>, i: int, j: int)
    requires ClosedIn(g, s, r) && i in r && Linked(g, s, i, j)
    ensures Linked(g, r, i, j)
  {
    forall c: set<int> | ClosedIn(g, r, c) && i in c ensures j in c {
      assert ClosedIn(g, s, c);
    }
    assert j in r;
  }

  ghost predicate AllLinked(g: Grid, s: set<int>) {
    forall i, j :: i in s && j in s ==> Linked(g, s, i, j)
  }

  // Walking right visits every cell, so only the whole grid is closed.
  lemma OnlyAllIsClosed(g: Grid, c: set<int>)
    requires g.Valid() && ClosedIn(g, g.Cells(), c) && c != {}
    ensures c == g.Cells()
  {
    var i :| i in c;
    forall n: nat | n < g.datasize ensures n in c {
      if n >= i {
        WalkRight(g, c, i, n - i);
      } else {
        WalkRight(g, c, i, g.datasize - 1 - i);
        assert g.Adjacent(g.datasize - 1, 0);
        WalkRight(g, c, 0, n);
      }
    }
  }

  lemma {:induction false} WalkRight(g: Grid, c: set<int>, i: int, n: nat)
    requires g.Valid() && ClosedIn(g, g.Cells(), c) && i in c && i + n < g.datasize
    ensures i + n in c
  {
    if n > 0 {
      WalkRight(g, c, i, n - 1);
      assert g.Adjacent(i + n - 1, i + n);
    }
  }

  // Cells linked in a part of s are linked in s.
  lemma LinkedWider(g: Grid, s: set<int>, r: set<int>, i: int, j: int)
    requires r <= s && Linked(g, r, i, j)
    ensures Linked(g, s, i, j)
  {
    forall c: set<int> | ClosedIn(g, s, c) && i in c ensures j in c {
      assert ClosedIn(g, r, c * r);
    }
  }
}
