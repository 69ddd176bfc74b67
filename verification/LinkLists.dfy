/** The links that Polynode.traverse of mapconvert.py has not yet deleted from the
    lists of the nodes. */
module LinkLists {
  import opened Arith
  import opened BlockMap
  import opened EdgeTrace
  import opened PolyTree
  import opened PolyOnce

  // The first link that starts at point i, or the length of the list.
  function IndexOf(ls: seq<Link>, i: int): (j: nat)
    ensures j <= |ls| && (j < |ls| ==> ls[j].start == i) && forall b :: 0 <= b < j ==> ls[b].start != i
  {
    if ls == [] || ls[0].start == i then 0 else 1 + IndexOf(ls[1..], i)
  }

  function Without(ls: seq<Link>, j: nat): seq<Link>
    requires j < |ls|
  {
    ls[..j] + ls[j + 1..]
  }

  // The b-th link is still to be followed when the walk is c points after start
  // and has followed the links there that come before the a-th.
  ghost predicate IsLeft(ls: seq<Link>, b: int, start: int, n: int, c: int, a: int)
    requires 0 <= b < |ls| && 0 <= start < n
  {
    0 <= ls[b].start < n && (Turn(start, ls[b].start, n) > c || (Turn(start, ls[b].start, n) == c && b >= a))
  }

  ghost function Left(ls: seq<Link>, b: nat, start: int, n: int, c: int, a: int): seq<Link>
    requires 0 <= start < n && b <= |ls|
    decreases |ls| - b
  {
    if b == |ls| then []
    else if IsLeft(ls, b, start, n, c, a) then [ls[b]] + Left(ls, b + 1, start, n, c, a)
    else Left(ls, b + 1, start, n, c, a)
  }

  ghost predicate InRange(ls: seq<Link>, n: int) {
    forall b :: 0 <= b < |ls| ==> 0 <= ls[b].start < n
  }

  lemma {:induction false} AllLeft(ls: seq<Link>, b: nat, start: int, n: int)
    requires 0 <= start < n && b <= |ls| && InRange(ls, n)
    ensures Left(ls, b, start, n, 0, 0) == ls[b..]
    decreases |ls| - b
  {
    if b < |ls| {
      AllLeft(ls, b + 1, start, n);
    }
  }

  lemma {:induction false} SameLeft(ls: seq<Link>, b: nat, start: int, n: int, c: int, a: int, c': int, a': int)
    requires 0 <= start < n && b <= |ls|
    requires forall d :: b <= d < |ls| ==> IsLeft(ls, d, start, n, c, a) == IsLeft(ls, d, start, n, c', a')
    ensures Left(ls, b, start, n, c, a) == Left(ls, b, start, n, c', a')
    decreases |ls| - b
  {
    if b < |ls| {
      SameLeft(ls, b + 1, start, n, c, a, c', a');
    }
  }

  // The first remaining link at the point of the walk is the next link there of
  // the whole list, and deleting it leaves those after it.
  lemma {:induction false} NextLink(ls: seq<Link>, b: nat, start: int, n: int, c: int, a: nat) returns (a': nat)
    requires 0 <= start < n && 0 <= c < n && b <= |ls| && InRange(ls, n)
    requires IndexOf(Left(ls, b, start, n, c, a), At(start, c, n)) < |Left(ls, b, start, n, c, a)|
    ensures a <= a' < |ls| && b <= a' && ls[a'].start == At(start, c, n)
    ensures forall d :: b <= d < |ls| && a <= d < a' ==> ls[d].start != At(start, c, n)
    ensures var left := Left(ls, b, start, n, c, a); var j := IndexOf(left, At(start, c, n));
      left[j] == ls[a'] && Without(left, j) == Left(ls, b, start, n, c, a' + 1)
    decreases |ls| - b
  {
    var rest := Left(ls, b + 1, start, n, c, a);
    if IsLeft(ls, b, start, n, c, a) && ls[b].start == At(start, c, n) {
      a' := b;
      TakeFirst(ls, b, start, n, c, a);
    } else {
      if IsLeft(ls, b, start, n, c, a) {
        SkipOne(ls[b], rest, At(start, c, n));
      }
      a' := NextLink(ls, b + 1, start, n, c, a);
    }
  }

  lemma TakeFirst(ls: seq<Link>, b: nat, start: int, n: int, c: int, a: nat)
    requires 0 <= start < n && 0 <= c < n && b < |ls| && InRange(ls, n)
    requires IsLeft(ls, b, start, n, c, a) && ls[b].start == At(start, c, n)
    ensures a <= b && IndexOf(Left(ls, b, start, n, c, a), At(start, c, n)) == 0 && |Left(ls, b, start, n, c, a)| > 0
    ensures Left(ls, b, start, n, c, a)[0] == ls[b]
    ensures Without(Left(ls, b, start, n, c, a), 0) == Left(ls, b, start, n, c, b + 1)
  {
    assert Without([ls[b]] + Left(ls, b + 1, start, n, c, a), 0) == Left(ls, b + 1, start, n, c, a);
    SameLeft(ls, b + 1, start, n, c, a, c, b + 1);
  }

  lemma SkipOne(l: Link, rest: seq<Link>, i: int)
    requires l.start != i
    ensures IndexOf([l] + rest, i) == 1 + IndexOf(rest, i)
    ensures IndexOf(rest, i) < |rest| ==>
      Without([l] + rest, 1 + IndexOf(rest, i)) == [l] + Without(rest, IndexOf(rest, i))
  {
    assert ([l] + rest)[1..] == rest;
  }

  // When no remaining link starts at the point of the walk, all those there have
  // been followed.
  lemma {:induction false} NoLinkLeft(ls: seq<Link>, b: nat, start: int, n: int, c: int, a: int, d: int)
    requires 0 <= start < n && 0 <= c < n && b <= d < |ls| && InRange(ls, n) && ls[d].start == At(start, c, n)
    requires IndexOf(Left(ls, b, start, n, c, a), At(start, c, n)) == |Left(ls, b, start, n, c, a)|
    ensures d < a
    decreases |ls| - b
  {
    if b < d {
      if IsLeft(ls, b, start, n, c, a) {
        var rest := Left(ls, b + 1, start, n, c, a);
        assert ([ls[b]] + rest)[1..] == rest;
      }
      NoLinkLeft(ls, b + 1, start, n, c, a, d);
    }
  }

  // ---- All the lists of a tree during a walk around v ----

  // Below v, the lists behind the links still to be followed are whole and the
  // others are empty; all other lists are as they were.
  ghost predicate Pending(t: Forest, k: Shape, v: int, start: int, c: int, a: int,
    links: seq<seq<Link>>, was: seq<seq<Link>>)
    requires IsRooted(t, k) && 0 <= v < |t.polys| && 0 <= start < |t.polys[v]|
  {
    && |links| == |was| == |t.links|
    && links[v] == Left(t.links[v], 0, start, |t.polys[v]|, c, a)
    && forall u :: 0 <= u < |links| && u != v ==> ListFits(t, k, v, start, c, a, links, was, u)
  }

  ghost predicate ListFits(t: Forest, k: Shape, v: int, start: int, c: int, a: int,
    links: seq<seq<Link>>, was: seq<seq<Link>>, u: int)
    requires IsRooted(t, k) && 0 <= v < |t.polys| && 0 <= start < |t.polys[v]|
    requires |links| == |was| == |t.links| && 0 <= u < |links| && u != v
  {
    links[u] ==
    if !Below(t, k, v, u) then was[u]
    else if IsLeft(t.links[v], Via(t, k, v, u), start, |t.polys[v]|, c, a) then t.links[u]
    else []
  }

  // The lists below v are whole, or used up.
  ghost predicate Whole(t: Forest, k: Shape, v: int, links: seq<seq<Link>>)
    requires IsRooted(t, k)
  {
    |links| == |t.links| && forall u :: 0 <= u < |links| && Below(t, k, v, u) ==> links[u] == t.links[u]
  }

  ghost predicate UsedUp(t: Forest, k: Shape, v: int, links: seq<seq<Link>>, was: seq<seq<Link>>)
    requires IsRooted(t, k)
  {
    && |links| == |was| == |t.links|
    && forall u :: 0 <= u < |links| ==> links[u] == if Below(t, k, v, u) then [] else was[u]
  }

  lemma StartsInRange(t: Forest, k: Shape, v: int)
    requires IsRooted(t, k) && 0 <= v < |t.polys|
    ensures InRange(t.links[v], |t.polys[v]|)
  {
    forall b | 0 <= b < |t.links[v]|
      ensures 0 <= t.links[v][b].start < |t.polys[v]|
    {
      assert LinkFits(t, k.rank, v, t.links[v][b]);
    }
  }

  lemma PendingFirst(t: Forest, k: Shape, v: int, start: int, links: seq<seq<Link>>)
    requires IsRooted(t, k) && 0 <= v < |t.polys| && 0 <= start < |t.polys[v]| && Whole(t, k, v, links)
    ensures Pending(t, k, v, start, 0, 0, links, links)
  {
    StartsInRange(t, k, v);
    AllLeft(t.links[v], 0, start, |t.polys[v]|);
    assert Below(t, k, v, v);
  }

  lemma PendingNext(t: Forest, k: Shape, v: int, start: int, c: int, a: int, links: seq<seq<Link>>, was: seq<seq<Link>>)
    requires IsRooted(t, k) && 0 <= v < |t.polys| && 0 <= start < |t.polys[v]| && 0 <= c < |t.polys[v]|
    requires Pending(t, k, v, start, c, a, links, was)
    requires IndexOf(links[v], At(start, c, |t.polys[v]|)) == |links[v]|
    ensures Pending(t, k, v, start, c + 1, 0, links, was)
    ensures forall d :: a <= d < |t.links[v]| && 0 <= d ==> t.links[v][d].start != At(start, c, |t.polys[v]|)
  {
    var ls, n := t.links[v], |t.polys[v]|;
    StartsInRange(t, k, v);
    forall d | 0 <= d < |ls|
      ensures IsLeft(ls, d, start, n, c, a) == IsLeft(ls, d, start, n, c + 1, 0)
      ensures d >= a ==> ls[d].start != At(start, c, n)
    {
      if ls[d].start == At(start, c, n) {
        NoLinkLeft(ls, 0, start, n, c, a, d);
      }
    }
    SameLeft(ls, 0, start, n, c, a, c + 1, 0);
    var c' := c + 1;
    forall u | 0 <= u < |links| && u != v
      ensures ListFits(t, k, v, start, c', 0, links, was, u)
    {
      assert ListFits(t, k, v, start, c, a, links, was, u);
    }
  }

  lemma PendingLast(t: Forest, k: Shape, v: int, start: int, links: seq<seq<Link>>, was: seq<seq<Link>>)
    requires IsRooted(t, k) && 0 <= v < |t.polys| && 0 <= start < |t.polys[v]|
    requires Pending(t, k, v, start, |t.polys[v]|, 0, links, was)
    ensures UsedUp(t, k, v, links, was)
  {
    NoneLeft(t.links[v], 0, start, |t.polys[v]|);
    forall u | 0 <= u < |links|
      ensures links[u] == if Below(t, k, v, u) then [] else was[u]
    {
      if u != v {
        assert ListFits(t, k, v, start, |t.polys[v]|, 0, links, was, u);
      } else {
        assert Below(t, k, v, v);
      }
    }
  }

  lemma {:induction false} NoneLeft(ls: seq<Link>, b: nat, start: int, n: int)
    requires 0 <= start < n && b <= |ls|
    ensures Left(ls, b, start, n, n, 0) == []
    decreases |ls| - b
  {
    if b < |ls| {
      NoneLeft(ls, b + 1, start, n);
    }
  }

  // The lists behind the next link are whole before it is followed.
  lemma WholeBehindLink(t: Forest, k: Shape, v: int, start: int, c: int, a: int, a': int,
    links: seq<seq<Link>>, was: seq<seq<Link>>)
    requires IsRooted(t, k) && 0 <= v < |t.polys| && 0 <= start < |t.polys[v]| && 0 <= c < |t.polys[v]|
    requires Pending(t, k, v, start, c, a, links, was)
    requires 0 <= a' < |t.links[v]| && a <= a' && t.links[v][a'].start == At(start, c, |t.polys[v]|)
    ensures Whole(t, k, t.links[v][a'].target, links)
  {
    forall u | 0 <= u < |links| && Below(t, k, t.links[v][a'].target, u)
      ensures links[u] == t.links[u]
    {
      BelowOneLink(t, k, v, a', u);
      assert ListFits(t, k, v, start, c, a, links, was, u);
    }
  }

  lemma PendingAfterLink(t: Forest, k: Shape, v: int, start: int, c: int, a: int, a': int,
    links: seq<seq<Link>>, after: seq<seq<Link>>, was: seq<seq<Link>>)
    requires IsRooted(t, k) && 0 <= v < |t.polys| && 0 <= start < |t.polys[v]| && 0 <= c < |t.polys[v]|
    requires Pending(t, k, v, start, c, a, links, was) && 0 <= a <= a' < |t.links[v]|
    requires t.links[v][a'].start == At(start, c, |t.polys[v]|)
    requires forall d :: a <= d < a' ==> t.links[v][d].start != At(start, c, |t.polys[v]|)
    requires UsedUp(t, k, t.links[v][a'].target, after, links)
    ensures after[v] == links[v]
    ensures Pending(t, k, v, start, c, a' + 1,
      after[v := Left(t.links[v], 0, start, |t.polys[v]|, c, a' + 1)], was)
  {
    var ls, w, n := t.links[v], t.links[v][a'].target, |t.polys[v]|;
    BelowOneLink(t, k, v, a', v);
    var next := after[v := Left(ls, 0, start, n, c, a' + 1)];
    var a1 := a' + 1;
    forall u | 0 <= u < |links| && u != v
      ensures ListFits(t, k, v, start, c, a1, next, was, u)
    {
      BelowOneLink(t, k, v, a', u);
      assert ListFits(t, k, v, start, c, a, links, was, u);
    }
  }

  // ---- The steps that a walk adds ----

  lemma {:induction false} NoStepsLeft(t: Forest, rank: seq<nat>, v: int, i: int, a: int, x: int, y: int)
    requires IsTree(t, rank) && 0 <= v < |t.polys| && 0 <= a <= |t.links[v]|
    requires forall d :: a <= d < |t.links[v]| ==> t.links[v][d].start != i
    ensures AtPoint(t, rank, v, i, a, x, y) == []
    decreases |t.links[v]| - a
  {
    if a < |t.links[v]| {
      NoStepsLeft(t, rank, v, i, a + 1, x, y);
    }
  }

  lemma {:induction false} SkipOthers(t: Forest, rank: seq<nat>, v: int, i: int, a: int, b: int, x: int, y: int)
    requires IsTree(t, rank) && 0 <= v < |t.polys| && 0 <= a <= b < |t.links[v]| && t.links[v][b].start == i
    requires forall d :: a <= d < b ==> t.links[v][d].start != i
    ensures AtPoint(t, rank, v, i, a, x, y) == Over(t, rank, v, b, x, y) + AtPoint(t, rank, v, i, b + 1, x, y)
    decreases b - a
  {
    if a < b {
      SkipOthers(t, rank, v, i, a + 1, b, x, y);
    }
  }

  // The bookkeeping of one step along an edge.
  lemma EdgeAdded(t: Forest, k: Shape, v: int, start: int, c: int, x: int, y: int, before: seq<Step>, after: seq<Step>)
    requires IsRooted(t, k) && 0 <= v < |t.polys| && 0 <= start < |t.polys[v]| && 0 <= c < |t.polys[v]|
    requires var i := At(start, c, |t.polys[v]|); var dir := t.polys[v][i].dir;
      after == before + AtPoint(t, k.rank, v, i, 0, x, y) + [Step(x, y, Dx(dir), Dy(dir), Edge(v, i))]
    ensures var dir := t.polys[v][At(start, c, |t.polys[v]|)].dir;
      after + Around(t, k.rank, v, start, c + 1, x + Dx(dir), y + Dy(dir))
      == before + Around(t, k.rank, v, start, c, x, y)
  {
    var i := At(start, c, |t.polys[v]|);
    var dir := t.polys[v][i].dir;
    Regroup(before, AtPoint(t, k.rank, v, i, 0, x, y), [Step(x, y, Dx(dir), Dy(dir), Edge(v, i))],
      Around(t, k.rank, v, start, c + 1, x + Dx(dir), y + Dy(dir)));
  }

  lemma Regroup(a: seq<Step>, b: seq<Step>, c: seq<Step>, d: seq<Step>)
    ensures a + b + c + d == a + (b + c + d)
  {
  }

  // And of following one link.
  lemma LinkAdded(t: Forest, k: Shape, v: int, i: int, a: int, b: int, x: int, y: int, before: seq<Step>)
    requires IsRooted(t, k) && 0 <= v < |t.polys| && 0 <= a <= b < |t.links[v]| && t.links[v][b].start == i
    requires forall d :: a <= d < b ==> t.links[v][d].start != i
    ensures before + Over(t, k.rank, v, b, x, y) + AtPoint(t, k.rank, v, i, b + 1, x, y)
      == before + AtPoint(t, k.rank, v, i, a, x, y)
  {
    SkipOthers(t, k.rank, v, i, a, b, x, y);
    Regroup(before, Over(t, k.rank, v, b, x, y), AtPoint(t, k.rank, v, i, b + 1, x, y), []);
  }

  lemma NextPoint(start: int, c: int, n: int)
    requires 0 <= start < n && 0 <= c < n
    ensures (At(start, c, n) + 1) % n == At(start, c + 1, n)
    ensures At(start, c + 1, n) == start <==> c + 1 == n
  {
    var i := At(start, c, n);
    if i + 1 < n {
      ModUnique(i + 1, 0, i + 1, n);
    } else {
      ModUnique(i + 1, 1, 0, n);
    }
  }

  // The first link left at the point of the walk leads to a node whose lists are whole.
  lemma NextToFollow(t: Forest, k: Shape, v: int, start: int, c: int, a: nat,
                       links: seq<seq<Link>>, was: seq<seq<Link>>)
    returns (b: nat)
    requires IsRooted(t, k) && 0 <= v < |t.polys| && 0 <= start < |t.polys[v]| && 0 <= c < |t.polys[v]|
    requires Pending(t, k, v, start, c, a, links, was)
    requires IndexOf(links[v], At(start, c, |t.polys[v]|)) < |links[v]|
    ensures a <= b < |t.links[v]| && t.links[v][b].start == At(start, c, |t.polys[v]|)
    ensures forall d :: a <= d < b ==> t.links[v][d].start != At(start, c, |t.polys[v]|)
    ensures links[v][IndexOf(links[v], At(start, c, |t.polys[v]|))] == t.links[v][b]
    ensures Without(links[v], IndexOf(links[v], At(start, c, |t.polys[v]|)))
      == Left(t.links[v], 0, start, |t.polys[v]|, c, b + 1)
    ensures LinkFits(t, k.rank, v, t.links[v][b]) && Whole(t, k, t.links[v][b].target, links)
  {
    StartsInRange(t, k, v);
    b := NextLink(t.links[v], 0, start, |t.polys[v]|, c, a);
    assert LinkFits(t, k.rank, v, t.links[v][b]);
    WholeBehindLink(t, k, v, start, c, a, b, links, was);
  }
}
