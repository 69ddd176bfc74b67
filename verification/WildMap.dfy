/** wildmap.c: flooding and labelling the random map, and removing its holes. */
module WildMap {
  import opened Torus
  import opened Labels
  import opened LabelTable

  const INTARR_SIZE := 1024

  function Total(chunks: seq<seq<int>>): nat {
    if chunks == [] then 0 else |chunks[0]| + Total(chunks[1..])
  }

  lemma {:induction false} TotalAppend(chunks: seq<seq<int>>, last: seq<int>)
    ensures Total(chunks + [last]) == Total(chunks) + |last|
  {
    if chunks != [] {
      assert (chunks + [last])[1..] == chunks[1..] + [last];
      TotalAppend(chunks[1..], last);
    } else {
      assert (chunks + [last])[1..] == [];
    }
  }

  // A cell on the worklist.
  ghost predicate Waiting(chunks: seq<seq<int>>, k: int) {
    exists c :: 0 <= c < |chunks| && k in chunks[c]
  }

  // The worklist holds every reached cell whose neighbours may be unmarked, and
  // no chunk overflows.
  ghost predicate WorkFits(g: Grid, s: set<int>, r: set<int>, chunks: seq<seq<int>>) {
    && (forall c :: 0 <= c < |chunks| ==> |chunks[c]| <= INTARR_SIZE)
    && (forall k :: Waiting(chunks, k) ==> k in r)
    && (forall k :: k in r ==> Waiting(chunks, k) || Spread(g, s, r, k))
  }

  // A cell k is taken off the first chunk, and an empty chunk may be added.
  // The list got the cells that were newly reached.
  ghost predicate Pushed(putp: seq<int>, r: set<int>, next: seq<int>, more: set<int>) {
    r <= more && (more == r ==> next == putp) && forall j :: j in next <==> j in putp || j in more - r
  }

  lemma PushedTwice(a: seq<int>, r: set<int>, b: seq<int>, s: set<int>, c: seq<int>, t: set<int>)
    requires Pushed(a, r, b, s) && Pushed(b, s, c, t)
    ensures Pushed(a, r, c, t)
  {
    forall j
      ensures j in c <==> j in a || j in t - r
    {
      assert j in b <==> j in a || j in s - r;
    }
  }

  lemma PopOne(g: Grid, s: set<int>, r: set<int>, before: seq<seq<int>>, chunks: seq<seq<int>>, k: int)
    requires WorkFits(g, s, r, before) && before != [] && before[0] != []
    requires k == before[0][|before[0]| - 1]
    requires var shorter := before[0 := before[0][..|before[0]| - 1]];
      chunks == shorter || chunks == shorter + [[]]
    ensures k in r
    ensures forall c :: 0 <= c < |chunks| ==> |chunks[c]| <= INTARR_SIZE
    ensures forall j :: Waiting(chunks, j) ==> j in r
    ensures forall j :: j in r && j != k ==> Waiting(chunks, j) || Spread(g, s, r, j)
    ensures Total(chunks) == Total(before) - 1
  {
    var shorter := before[0 := before[0][..|before[0]| - 1]];
    assert Waiting(before, k);
    assert shorter[1..] == before[1..];
    TotalAppend(shorter, []);
    forall j | Waiting(chunks, j) ensures j in r {
      var c :| 0 <= c < |chunks| && j in chunks[c];
      assert j in before[c];
      assert Waiting(before, j);
    }
    forall j | j in r && j != k ensures Waiting(chunks, j) || Spread(g, s, r, j) {
      if Waiting(before, j) {
        var c :| 0 <= c < |before| && j in before[c];
        assert j in chunks[c];
      }
    }
  }

  // The newly marked neighbours of k are put on the last chunk.
  lemma PushSome(g: Grid, s: set<int>, r: set<int>, more: set<int>, before: seq<seq<int>>,
                   chunks: seq<seq<int>>, k: int)
    requires before != [] && |chunks| == |before|
    requires chunks == before[|before| - 1 := chunks[|before| - 1]]
    requires |chunks[|before| - 1]| <= INTARR_SIZE
    requires forall j {:trigger j in chunks[|before| - 1]} :: j in chunks[|before| - 1] <==>
      j in before[|before| - 1] || j in more - r
    requires forall c :: 0 <= c < |before| ==> |before[c]| <= INTARR_SIZE
    requires forall j :: Waiting(before, j) ==> j in r
    requires forall j :: j in r && j != k ==> Waiting(before, j) || Spread(g, s, r, j)
    requires r <= more && Spread(g, s, more, k)
    ensures WorkFits(g, s, more, chunks)
  {
    var last := |before| - 1;
    forall j | Waiting(chunks, j) ensures j in more {
      var c :| 0 <= c < |chunks| && j in chunks[c];
      assert c == last || j in before[c];
      assert j in more - r || Waiting(before, j);
    }
    forall j | j in more ensures Waiting(chunks, j) || Spread(g, s, more, j) {
      if j !in r {
        assert j in more - r;
        assert j in chunks[last];
      } else if j != k && Waiting(before, j) {
        var c :| 0 <= c < |before| && j in before[c];
        if c == last {
          assert j in before[|before| - 1];
          assert j in chunks[|before| - 1];
        } else {
          assert chunks[c] == before[c];
        }
        assert j in chunks[c];
      }
    }
  }

  lemma DropEmpty(g: Grid, s: set<int>, r: set<int>, chunks: seq<seq<int>>)
    requires WorkFits(g, s, r, chunks) && chunks != [] && chunks[0] == []
    ensures WorkFits(g, s, r, chunks[1..])
  {
    forall k | Waiting(chunks, k) ensures Waiting(chunks[1..], k) {
      var c :| 0 <= c < |chunks| && k in chunks[c];
      assert k in chunks[1..][c - 1];
    }
    forall k | Waiting(chunks[1..], k) ensures Waiting(chunks, k) {
      var c :| 0 <= c < |chunks[1..]| && k in chunks[1..][c];
      assert k in chunks[c + 1];
    }
  }

  // The state of a flood: exactly the cells reached carry the marker.
  ghost predicate Flooding(g: Grid, d0: seq<Label>, d: seq<Label>, t: int, m: int, start: int, r: set<int>) {
    && |d| == |d0| == g.datasize
    && Reached(g, Marked(d0, t), start, r)
    && forall j :: 0 <= j < |d| ==> d[j] == if j in r then m else d0[j]
  }

  // The map after a flood from cell `start` has ended.
  ghost predicate Flooded(g: Grid, d0: seq<Label>, d: seq<Label>, t: int, m: int, start: int) {
    && |d| == |d0| == g.datasize
    && forall j :: 0 <= j < |d| ==>
      d[j] == if j in Component(g, Marked(d0, t), start) then m else d0[j]
  }

  ghost predicate Renamed(d: seq<Label>, e: seq<Label>, del: seq<int>) {
    |d| == |e| && |del| == 256 && forall j :: 0 <= j < |d| ==> e[j] == del[d[j]]
  }

  // No construct that is dropped is larger than one that is kept.
  ghost predicate KeepsLarger(d: seq<Label>, del: seq<int>) {
    |del| == 256 && forall v: Label, w: Label :: 2 <= v && 2 <= w && del[v] == 0 && del[w] != 0 ==>
      multiset(d)[v] <= multiset(d)[w]
  }

  lemma SortedRenames(tbl: seq<int>, count: seq<int>, del: seq<int>, d: seq<Label>)
    requires Lists(tbl, 256) && Falling(tbl, count) && |count| == |del| == 256
    requires forall k :: 0 <= k < 256 ==> del[tbl[k]] == if k < 224 then k else 0
    requires forall v :: 0 <= v < 256 ==> count[v] == multiset(d)[v]
    ensures Renames(del, 224) && KeepsLarger(d, del)
  {
    forall v | 0 <= v < 256
      ensures var k := IndexOf(tbl, v); tbl[k] == v && del[v] == if k < 224 then k else 0
    {
      assert v in tbl;
      assert del[tbl[IndexOf(tbl, v)]] == if IndexOf(tbl, v) < 224 then IndexOf(tbl, v) else 0;
    }
    assert IndexOf(tbl, 0) == 0 && IndexOf(tbl, 1) == 1;
    forall v: Label, w: Label | 2 <= v && 2 <= w && del[v] == 0 && del[w] != 0
      ensures multiset(d)[v] <= multiset(d)[w]
    {
      var p, q := IndexOf(tbl, v), IndexOf(tbl, w);
      assert 2 <= q < p < 256;
      assert count[tbl[q]] >= count[tbl[p]];
    }
  }

  // The new name of each label: its place in the table, or 0 from place 224 on.
  method NewNames(tbl: array<int>) returns (del: array<int>)
    requires tbl.Length == 256 && Lists(tbl[..], 256)
    ensures fresh(del) && del.Length == 256
    ensures forall k :: 0 <= k < 256 ==> del[tbl[k]] == if k < 224 then k else 0
  {
    del := new int[256];
    for i := 0 to 256
      invariant forall k :: 0 <= k < i ==> del[tbl[k]] == if k < 224 then k else 0
    {
      del[tbl[i]] := if i < 224 then i else 0;
    }
  }

  // The table that leaves every label as it is, filled in sorted order.
  method OldNames(tbl: array<int>) returns (del: array<int>)
    requires tbl.Length == 256 && Lists(tbl[..], 256)
    ensures fresh(del) && del.Length == 256
    ensures forall v :: 0 <= v < 256 ==> del[v] == v
  {
    del := new int[256];
    for i := 0 to 256
      invariant forall k :: 0 <= k < i ==> del[tbl[k]] == tbl[k]
    {
      del[tbl[i]] := tbl[i];
    }
    forall v | 0 <= v < 256 ensures del[v] == v {
      assert v in tbl[..];
      assert tbl[IndexOf(tbl[..], v)] == v;
    }
  }

  ghost predicate AreLeft(del: seq<int>, t: seq<int>, count: seq<int>, excess: int, c: int)
    requires |del| == |count| == 256 && Lists(t, 256) && 2 <= c <= 256
  {
    forall v: Label {:trigger Left(t, count, excess, c, v)} :: del[v] == Left(t, count, excess, c, v)
  }

  lemma LeftBehind(del: seq<int>, t: seq<int>, count: seq<int>, excess: int, c: int)
    requires |del| == |count| == 256 && Lists(t, 256) && 2 <= c <= 256
    requires Cleared(del, t, count, excess, c)
    ensures AreLeft(del, t, count, excess, c)
  {
    forall v: Label
      ensures del[v] == Left(t, count, excess, c, v)
    {
      assert del[t[IndexOf(t, v)]] == if Goes(t, count, excess, c, IndexOf(t, v)) then 0 else v;
    }
  }

  ghost predicate Cleared(del: seq<int>, t: seq<int>, count: seq<int>, excess: int, c: int)
    requires |del| == |count| == 256 && Lists(t, 256) && 2 <= c <= 256
  {
    forall j {:trigger Goes(t, count, excess, c, j)} :: 0 <= j < 256 ==>
      del[t[j]] == if Goes(t, count, excess, c, j) then 0 else t[j]
  }

  // The entries behind the cut, up to place j, are cleared as they should be.
  ghost predicate ClearedUpTo(del: seq<int>, t: seq<int>, count: seq<int>, excess: int, c: int, j: int)
    requires |del| == |count| == 256 && Lists(t, 256) && 2 <= c <= 256
  {
    forall k {:trigger t[k]} :: 0 <= k < 256 ==>
      del[t[k]] == if c < k < j && Goes(t, count, excess, c, k) then 0 else t[k]
  }

  lemma ClearedOne(del: seq<int>, t: seq<int>, count: seq<int>, excess: int, c: int, j: int)
    requires |del| == |count| == 256 && Lists(t, 256) && 2 <= c < j < 256
    requires ClearedUpTo(del, t, count, excess, c, j)
    ensures ClearedUpTo(if Goes(t, count, excess, c, j) then del[t[j] := 0] else del, t, count, excess, c, j + 1)
  {
  }

  lemma ClearedLast(del: seq<int>, t: seq<int>, count: seq<int>, excess: int, c: int)
    requires |del| == |count| == 256 && Lists(t, 256) && 2 <= c < 256
    requires ClearedUpTo(del, t, count, excess, c, 256)
    ensures Cleared(del[t[c] := 0], t, count, excess, c)
  {
  }

  // How many cells are filled beyond what is wanted.
  ghost function Excess(walls: seq<Label>, fill: int): int { |walls| - multiset(walls)[0] - fill }

  // The table takes the constructs at and behind some cut to 0.
  ghost predicate RemovesEntries(del: seq<int>, walls: seq<Label>, fill: int) {
    exists t, c :: TakenOut(del, walls, fill, t, c)
  }

  ghost predicate TakenOut(del: seq<int>, walls: seq<Label>, fill: int, t: seq<int>, c: int) {
    var count, excess := Counts(walls), Excess(walls, fill);
    && |del| == 256 && Lists(t, 256) && Falling(t, count)
    && IsCut(t, count, excess, c) && AreLeft(del, t, count, excess, c)
  }

  lemma ClearedAreTakenOut(del: seq<int>, walls: seq<Label>, fill: int, t: seq<int>, c: int)
    requires Lists(t, 256) && Falling(t, Counts(walls)) && |del| == 256
    requires IsCut(t, Counts(walls), Excess(walls, fill), c)
    requires Cleared(del, t, Counts(walls), Excess(walls, fill), c)
    ensures RemovesEntries(del, walls, fill)
  {
    LeftBehind(del, t, Counts(walls), Excess(walls, fill), c);
    assert TakenOut(del, walls, fill, t, c);
  }

  // Relabelling by the table removes the constructs.
  lemma RelabelRemoves(walls: seq<Label>, e: seq<Label>, fill: int, del: seq<int>)
    requires RemovesEntries(del, walls, fill)
    requires |e| == |walls| && forall k :: 0 <= k < |walls| ==> e[k] == del[walls[k]]
    ensures Removes(walls, e, fill)
  {
    var t, c :| TakenOut(del, walls, fill, t, c);
    var count, excess := Counts(walls), Excess(walls, fill);
    forall k | 0 <= k < |walls|
      ensures e[k] == Left(t, count, excess, c, walls[k])
    {
      EntryIsLeft(del, t, count, excess, c, walls[k]);
    }
    assert RemovesBy(walls, e, fill, t, c);
  }

  lemma EntryIsLeft(del: seq<int>, t: seq<int>, count: seq<int>, excess: int, c: int, v: Label)
    requires |del| == |count| == 256 && Lists(t, 256) && 2 <= c <= 256 && AreLeft(del, t, count, excess, c)
    ensures del[v] == Left(t, count, excess, c, v)
  {
  }

  lemma EntriesAreLabels(del: seq<int>, walls: seq<Label>, fill: int)
    requires RemovesEntries(del, walls, fill)
    ensures |del| == 256 && forall v :: 0 <= v < 256 ==> 0 <= del[v] < 256
  {
    var t, c :| TakenOut(del, walls, fill, t, c);
    forall v: Label
      ensures 0 <= del[v] < 256
    {
      EntryIsLeft(del, t, Counts(walls), Excess(walls, fill), c, v);
    }
  }

  class Map {
    const g: Grid
    const data: array<Label>
    const floodCount: array<int>
    var floodTrigger: Label
    var floodMarker: int

    ghost predicate Valid()
      reads this
    {
      g.Valid() && data.Length == g.datasize && floodCount.Length == 256 && floodCount != data as object
    }

    // Mark one neighbour and put it on the worklist if it has the trigger value.
    method Touch(putp: seq<int>, k: int, j: int, ghost d0: seq<Label>, ghost start: int, ghost r: set<int>)
      returns (next: seq<int>, ghost more: set<int>)
      requires Valid() && g.Has(j) && 0 <= floodMarker < 256 && floodMarker != floodTrigger
      requires Flooding(g, d0, data[..], floodTrigger, floodMarker, start, r)
      requires k in r && g.Adjacent(k, j)
      modifies data
      ensures Flooding(g, d0, data[..], floodTrigger, floodMarker, start, more)
      ensures more == r + if j in Marked(d0, floodTrigger) then {j} else {}
      ensures |next| <= |putp| + 1 && Pushed(putp, r, next, more)
    {
      next, more := putp, r;
      if data[j] == floodTrigger {
        ReachedMore(g, Marked(d0, floodTrigger), start, r, k, j);
        data[j] := floodMarker;
        next, more := next + [j], r + {j};
      }
    }

    // Mark the four neighbours of a cell taken from the worklist.
    method Expand(putp: seq<int>, k: int, ghost d0: seq<Label>, ghost start: int, ghost r: set<int>)
      returns (next: seq<int>, ghost more: set<int>)
      requires Valid() && g.Has(k) && 0 <= floodMarker < 256 && floodMarker != floodTrigger
      requires Flooding(g, d0, data[..], floodTrigger, floodMarker, start, r) && k in r
      modifies data
      ensures Flooding(g, d0, data[..], floodTrigger, floodMarker, start, more)
      ensures r <= more && Spread(g, Marked(d0, floodTrigger), more, k)
      ensures |next| <= |putp| + 4 && Pushed(putp, r, next, more)
    {
      next, more := Touch(putp, k, g.OffUp(k), d0, start, r);
      ghost var next1, more1 := next, more;
      next, more := Touch(next, k, g.OffLeft(k), d0, start, more);
      PushedTwice(putp, r, next1, more1, next, more);
      ghost var next2, more2 := next, more;
      next, more := Touch(next, k, g.OffDown(k), d0, start, more);
      PushedTwice(putp, r, next2, more2, next, more);
      ghost var next3, more3 := next, more;
      next, more := Touch(next, k, g.OffRight(k), d0, start, more);
      PushedTwice(putp, r, next3, more3, next, more);
    }

    // Connect all adjacent cells that have the trigger value, starting at i.
    method Flood(i: int)
      requires Valid() && g.Has(i) && 0 <= floodMarker < 256 && floodMarker != floodTrigger
      modifies data
      ensures if old(data[i]) != floodTrigger then data[..] == old(data[..])
              else Flooded(g, old(data[..]), data[..], floodTrigger, floodMarker, i)
    {
      if data[i] != floodTrigger {
        return;
      }
      ghost var d0 := data[..];
      ghost var s := Marked(d0, floodTrigger);
      ghost var r := {i};
      data[i] := floodMarker;
      // The list of chunks from the one being emptied to the one being filled.
      var chunks := [[i]];
      while chunks != []
        invariant Flooding(g, d0, data[..], floodTrigger, floodMarker, i, r)
        invariant WorkFits(g, s, r, chunks)
        decreases s - r, Total(chunks), |chunks|
      {
        ghost var r0, total, count := r, Total(chunks), |chunks|;
        while chunks[0] != []
          invariant Flooding(g, d0, data[..], floodTrigger, floodMarker, i, r)
          invariant WorkFits(g, s, r, chunks) && chunks != []
          invariant r0 <= r
          invariant r == r0 ==> Total(chunks) < total || (Total(chunks) == total && |chunks| == count)
          decreases s - r, Total(chunks)
        {
          chunks, r := Step(chunks, d0, i, r);
        }
        assert Total(chunks) == Total(chunks[1..]);
        DropEmpty(g, s, r, chunks);
        chunks := chunks[1..];
      }
      FloodDone(g, s, i, r);
    }

    // Take one cell off the first chunk and mark its neighbours.
    method Step(chunks0: seq<seq<int>>, ghost d0: seq<Label>, ghost start: int, ghost r: set<int>)
      returns (chunks: seq<seq<int>>, ghost more: set<int>)
      requires Valid() && 0 <= floodMarker < 256 && floodMarker != floodTrigger
      requires Flooding(g, d0, data[..], floodTrigger, floodMarker, start, r)
      requires WorkFits(g, Marked(d0, floodTrigger), r, chunks0) && chunks0 != [] && chunks0[0] != []
      modifies data
      ensures Flooding(g, d0, data[..], floodTrigger, floodMarker, start, more)
      ensures WorkFits(g, Marked(d0, floodTrigger), more, chunks) && chunks != []
      ensures r <= more <= Marked(d0, floodTrigger) && (more == r ==> Total(chunks) < Total(chunks0))
    {
      ghost var s := Marked(d0, floodTrigger);
      chunks := chunks0;
      var n := |chunks[0]| - 1;
      var k := chunks[0][n];
      chunks := chunks[0 := chunks[0][..n]];
      if |chunks[|chunks| - 1]| + 4 > INTARR_SIZE {
        chunks := chunks + [[]];
      }
      PopOne(g, s, r, chunks0, chunks, k);
      var last := |chunks| - 1;
      ghost var popped := chunks;
      var next;
      next, more := Expand(chunks[last], k, d0, start, r);
      chunks := chunks[last := next];
      PushSome(g, s, r, more, popped, chunks, k);
      assert more == r ==> chunks == popped;
    }

    // Replace every label by its entry in a table.
    method Relabel(tbl: array<int>)
      requires Valid() && tbl.Length == 256 && tbl != data as object
      requires forall v :: 0 <= v < 256 ==> 0 <= tbl[v] < 256
      modifies data
      ensures forall j :: 0 <= j < data.Length ==> data[j] == tbl[old(data[j])]
    {
      var todo := data.Length;
      while todo > 0
        invariant 0 <= todo <= data.Length
        invariant forall j :: todo <= j < data.Length ==> data[j] == tbl[old(data[j])]
        invariant forall j :: 0 <= j < todo ==> data[j] == old(data[j])
      {
        todo := todo - 1;
        data[todo] := tbl[data[todo]];
      }
    }

    // Counts how many cells hold each value.
    method CountLabels()
      requires Valid()
      modifies floodCount
      ensures forall v :: 0 <= v < 256 ==> floodCount[v] == multiset(data[..])[v]
    {
      for v := 0 to 256
        invariant forall w :: 0 <= w < v ==> floodCount[w] == 0
      {
        floodCount[v] := 0;
      }
      var todo := data.Length;
      assert data[todo..] == [];
      while todo > 0
        invariant 0 <= todo <= data.Length
        invariant forall v :: 0 <= v < 256 ==> floodCount[v] == multiset(data[todo..])[v]
      {
        todo := todo - 1;
        assert data[todo..] == [data[todo]] + data[todo + 1..];
        floodCount[data[todo]] := floodCount[data[todo]] + 1;
      }
      assert data[0..] == data[..];
    }

    // Keep the 222 largest constructs under small labels and delete the others.
    method DropSmall(ghost s: set<int>, ghost todo: nat)
      requires Valid() && Labelling(g, s, data[..], 256, todo)
      modifies data, floodCount
      ensures Labelling(g, s, data[..], 224, todo)
        && forall i :: 0 <= i < data.Length && old(data[i]) == 1 ==> data[i] == 1
      ensures exists del :: Renames(del, 224) && Renamed(old(data[..]), data[..], del) &&
                KeepsLarger(old(data[..]), del)
    {
      ghost var d := data[..];
      var tbl := new int[256];
      CountLabels();
      SortLabels(tbl, floodCount[..]);
      var del := NewNames(tbl);
      SortedRenames(tbl[..], floodCount[..], del[..], d);
      Relabel(del);
      RenamingKeeps(g, s, d, data[..], del[..], 224, todo);
      assert Renamed(d, data[..], del[..]);
    }

    // Give each construct of cells with the given label a value of its own.
    method LabelMap(which: Label)
      requires Valid()
      modifies data, floodCount, `floodTrigger, `floodMarker
      ensures FullyLabelled(g, Marked(old(data[..]), which), data[..])
    {
      ghost var s := Marked(data[..], which);
      var tbl := new int[256](_ => 0);
      tbl[which] := 1;
      Relabel(tbl);
      floodTrigger, floodMarker := 1, 2;
      ghost var dropped := false;
      var todo := data.Length;
      LabelStart(g, s, data[..]);
      while todo > 0
        invariant floodTrigger == 1 && 0 <= todo <= data.Length
        invariant LabelState(g, s, data[..], floodMarker, todo, dropped)
      {
        todo := todo - 1;
        if data[todo] == floodTrigger {
          dropped := LabelOne(s, todo, dropped);
        } else {
          LabelSkip(g, s, data[..], floodMarker, todo, dropped);
        }
      }
      LabellingDone(g, s, data[..], floodMarker, dropped);
    }

    // Label the construct of one cell, making room first when labels run out.
    method LabelOne(ghost s: set<int>, todo: nat, ghost dropped0: bool) returns (ghost dropped: bool)
      requires Valid() && floodTrigger == 1 && todo < data.Length && data[todo] == 1
      requires LabelState(g, s, data[..], floodMarker, todo + 1, dropped0)
      modifies data, floodCount, `floodMarker
      ensures LabelState(g, s, data[..], floodMarker, todo, dropped)
    {
      dropped := dropped0;
      if floodMarker >= 256 {
        ghost var before := data[..];
        DropSmall(s, todo + 1);
        LabelDrop(g, s, before, data[..], todo, dropped);
        dropped, floodMarker := true, 224;
      }
      ghost var d := data[..];
      Flood(todo);
      LabelFlood(g, s, d, data[..], floodMarker, todo, dropped);
      floodMarker := floodMarker + 1;
    }

    // The label that counts most, where 0 wins a tie and is not an open region.
    method MostCounted() returns (marker: int)
      requires Valid()
      ensures marker == 0 || 2 <= marker < 256
      ensures forall v :: 2 <= v < 256 ==> floodCount[v] <= floodCount[marker]
      ensures marker != 0 <==> exists v :: 2 <= v < 256 && floodCount[v] > floodCount[0]
    {
      marker := 0;
      for i := 2 to 256
        invariant marker == 0 || 2 <= marker < i
        invariant floodCount[0] <= floodCount[marker] && (marker != 0 ==> floodCount[0] < floodCount[marker])
        invariant forall v :: 2 <= v < i ==> floodCount[v] <= floodCount[marker]
      {
        if floodCount[i] > floodCount[marker] {
          marker := i;
        }
      }
    }

    // Take the largest region as the open one and everything else as wall.
    method FillHoles() returns (ghost d: seq<Label>, ghost marker: int)
      requires Valid()
      modifies data, floodCount, `floodTrigger, `floodMarker
      ensures FullyLabelled(g, Marked(old(data[..]), 0), d) && Chosen(d, marker)
      ensures forall i :: 0 <= i < data.Length ==> data[i] == if d[i] == marker then 1 else 0
    {
      LabelMap(0);
      d := data[..];
      CountLabels();
      var m := MostCounted();
      marker := m;
      assert Chosen(d, marker) by {
        assert forall v :: 0 <= v < 256 ==> floodCount[v] == multiset(d)[v];
      }
      var tbl := new int[256](_ => 0);
      tbl[m] := 1;
      Relabel(tbl);
    }

    // The first place of the table from which on the constructs are removed.
    method FindCut(tbl: array<int>, excess: int, ghost count: seq<int>) returns (c: int, gone: int)
      requires Valid() && tbl.Length == 256 && Lists(tbl[..], 256)
      requires |count| == 256 && forall v :: 0 <= v < 256 ==> floodCount[v] == count[v]
      ensures IsCut(tbl[..], count, excess, c) && gone == Tail(tbl[..], count, c)
    {
      var i := 256;
      c, gone := 256, 0;
      while true
        invariant 2 <= i <= 256 && c == i && gone == Tail(tbl[..], count, i)
        invariant i < 256 ==> Tail(tbl[..], count, i + 1) <= excess
        decreases i
      {
        i := i - 1;
        if i < 2 || excess < gone {
          break;
        }
        gone := gone + floodCount[tbl[i]];
        c := i;
      }
    }

    // Clear the entries of the constructs that are removed.
    method ClearRemoved(tbl: array<int>, del: array<int>, c: int, gone: int, excess: int, ghost count: seq<int>)
      requires Valid() && tbl.Length == del.Length == 256 && tbl != del && del != floodCount && Lists(tbl[..], 256)
      requires |count| == 256 && forall v :: 0 <= v < 256 ==> floodCount[v] == count[v]
      requires 2 <= c <= 256 && gone == Tail(tbl[..], count, c)
      requires forall v :: 0 <= v < 256 ==> del[v] == v
      modifies del
      ensures Cleared(del[..], tbl[..], count, excess, c)
    {
      if c == 256 {
        return;
      }
      ghost var t := tbl[..];
      var j := c + 1;
      while j < 256
        invariant c < j <= 256 && tbl[..] == t && ClearedUpTo(del[..], t, count, excess, c, j)
      {
        ClearedOne(del[..], t, count, excess, c, j);
        if gone - floodCount[tbl[j]] <= excess || 2 * floodCount[tbl[j]] < floodCount[tbl[c]] {
          del[tbl[j]] := 0;
        }
        j := j + 1;
      }
      ClearedLast(del[..], t, count, excess, c);
      del[tbl[c]] := 0;
    }

    // Choose the constructs to remove so that about `fill` filled cells remain.
    method ChooseRemoved(fill: int) returns (del: array<int>)
      requires Valid()
      modifies floodCount
      ensures fresh(del) && RemovesEntries(del[..], data[..], fill)
    {
      var tbl := SortedTable();
      del := OldNames(tbl);
      var excess := data.Length - floodCount[0] - fill;
      assert excess == Excess(data[..], fill);
      RemoveBehindCut(tbl, del, excess, data[..], fill);
    }

    method RemoveBehindCut(tbl: array<int>, del: array<int>, excess: int, ghost walls: seq<Label>, ghost fill: int)
      requires Valid() && tbl.Length == del.Length == 256 && tbl != del && del != floodCount
      requires Lists(tbl[..], 256) && Falling(tbl[..], Counts(walls)) && excess == Excess(walls, fill)
      requires forall v :: 0 <= v < 256 ==> floodCount[v] == Counts(walls)[v]
      requires forall v :: 0 <= v < 256 ==> del[v] == v
      modifies del
      ensures RemovesEntries(del[..], walls, fill)
    {
      ghost var t := tbl[..];
      var i, gone := FindCut(tbl, excess, Counts(walls));
      ClearRemoved(tbl, del, i, gone, excess, Counts(walls));
      assert tbl[..] == t;
      ClearedAreTakenOut(del[..], walls, fill, t, i);
    }

    // The labels by the size of their constructs.
    method SortedTable() returns (tbl: array<int>)
      requires Valid()
      modifies floodCount
      ensures fresh(tbl) && tbl.Length == 256 && Lists(tbl[..], 256) && Falling(tbl[..], Counts(data[..]))
      ensures forall v :: 0 <= v < 256 ==> floodCount[v] == Counts(data[..])[v]
    {
      tbl := new int[256];
      CountLabels();
      SortLabels(tbl, floodCount[..]);
      assert floodCount[..] == Counts(data[..]);
    }

    // Remove the inaccessible holes, and enough constructs to leave about `fill`
    // filled cells.
    method Partition(fill: int) returns (ghost d: seq<Label>, ghost marker: int, ghost walls: seq<Label>)
      requires Valid()
      modifies data, floodCount, `floodTrigger, `floodMarker
      ensures Partitioned(g, old(data[..]), fill, d, marker, walls, data[..])
    {
      d, marker := FillHoles();
      assert Marked(data[..], 0) == g.Cells() - Marked(d, marker);
      LabelMap(0);
      walls := data[..];
      RemoveSmall(fill);
    }

    method RemoveSmall(fill: int)
      requires Valid()
      modifies data, floodCount
      ensures Removes(old(data[..]), data[..], fill)
    {
      ghost var walls := data[..];
      var del := ChooseRemoved(fill);
      EntriesAreLabels(del[..], walls, fill);
      Relabel(del);
      RelabelRemoves(walls, data[..], fill, del[..]);
    }
  }
}
