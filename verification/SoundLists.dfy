/** The circular ring and the list of looping sounds that share the sound slots of
    oalaudio.c. */
module SoundLists {
  // The slots of a list, one pointing to the next, the last one to none.
  ghost predicate IsList(next: seq<int>, head: int, s: seq<int>) {
    head == (if s == [] then -1 else s[0]) && forall i :: 0 <= i < |s| ==> Points(next, s, i, -1)
  }

  // The slots of a ring, the last one pointing back to the first.
  ghost predicate IsRing(next: seq<int>, head: int, s: seq<int>) {
    s != [] && head == s[0] && forall i :: 0 <= i < |s| ==> Points(next, s, i, s[0])
  }

  // The i-th slot points to the one after it, the last one to end.
  ghost predicate Points(next: seq<int>, s: seq<int>, i: int, end: int)
    requires 0 <= i < |s|
  {
    0 <= s[i] < |next| && next[s[i]] == if i + 1 < |s| then s[i + 1] else end
  }

  // Every slot is in one of the two, once.
  ghost predicate IsSplit(n: nat, ring: seq<int>, list: seq<int>) {
    && |ring| + |list| == n
    && (forall i :: 0 <= i < |ring| ==> 0 <= ring[i] < n)
    && (forall i :: 0 <= i < |list| ==> 0 <= list[i] < n)
    && (forall i, j :: 0 <= i < j < |ring| ==> ring[i] != ring[j])
    && (forall i, j :: 0 <= i < j < |list| ==> list[i] != list[j])
    && (forall i, j :: 0 <= i < |ring| && 0 <= j < |list| ==> ring[i] != list[j])
  }

  predicate InTable(s: seq<int>, n: nat) {
    forall i :: 0 <= i < |s| ==> 0 <= s[i] < n
  }

  // The slots heard in the last frame or this one, in their order, and the others.
  function Kept(list: seq<int>, updated: seq<int>, loops: int): seq<int>
    requires InTable(list, |updated|)
  {
    if list == [] then []
    else (if updated[list[0]] < loops - 1 then [] else [list[0]]) + Kept(list[1..], updated, loops)
  }

  function Stopped(list: seq<int>, updated: seq<int>, loops: int): seq<int>
    requires InTable(list, |updated|)
  {
    if list == [] then []
    else (if updated[list[0]] < loops - 1 then [list[0]] else []) + Stopped(list[1..], updated, loops)
  }

  function Reversed(s: seq<int>): seq<int> {
    if s == [] then [] else Reversed(s[1..]) + [s[0]]
  }

  lemma NextInList(next: seq<int>, looping: int, kept: seq<int>, rest: seq<int>)
    requires rest != [] && IsList(next, looping, kept + rest)
    ensures 0 <= rest[0] < |next| && next[rest[0]] == if |rest| == 1 then -1 else rest[1]
    ensures kept + rest == kept + [rest[0]] + rest[1..]
  {
    assert Points(next, kept + rest, |kept|, -1);
  }

  // ---- Moving a slot between them ----

  lemma SplitMoved(n: nat, ring: seq<int>, kept: seq<int>, rest: seq<int>)
    requires ring != [] && rest != [] && IsSplit(n, ring, kept + rest)
    ensures IsSplit(n, [ring[0], rest[0]] + ring[1..], kept + rest[1..])
  {
    var list, it := kept + rest, rest[0];
    var ring', list' := [ring[0], it] + ring[1..], kept + rest[1..];
    var m := |kept|;
    assert list[m] == it;
    assert forall i :: 0 <= i < |list'| ==> list'[i] == list[if i < m then i else i + 1];
    assert forall i :: 0 <= i < |ring'| ==> ring'[i] == if i == 1 then it else if i == 0 then ring[0] else ring[i - 1];
  }

  // The pointers after the first slot of the rest was taken out of the list and put
  // behind the first slot of the ring.
  ghost predicate IsStopped(next: seq<int>, next': seq<int>, looping: int, looping': int,
                              kept: seq<int>, it: int, first: int) {
    && |next'| == |next| && 0 <= it < |next| && 0 <= first < |next|
    && (kept == [] ==> looping' == next[it])
    && (kept != [] ==> looping' == looping && 0 <= kept[|kept| - 1] < |next| && next'[kept[|kept| - 1]] == next[it])
    && next'[it] == next[first] && next'[first] == it
    && forall u :: 0 <= u < |next| && u != it && u != first && (kept == [] || u != kept[|kept| - 1]) ==>
      next'[u] == next[u]
  }

  lemma StoppedLeavesList(next: seq<int>, next': seq<int>, looping: int, looping': int,
    kept: seq<int>, rest: seq<int>, ring: seq<int>)
    requires rest != [] && ring != [] && IsSplit(|next|, ring, kept + rest) && IsList(next, looping, kept + rest)
    requires IsStopped(next, next', looping, looping', kept, rest[0], ring[0])
    ensures IsList(next', looping', kept + rest[1..])
  {
    var list, list', m := kept + rest, kept + rest[1..], |kept|;
    assert list[m] == rest[0] && Points(next, list, m, -1);
    forall i | 0 <= i < |list'|
      ensures Points(next', list', i, -1)
    {
      var j := if i < m then i else i + 1;
      assert Points(next, list, j, -1) && list'[i] == list[j] && list[j] != list[m] && list[j] != ring[0];
      assert i + 1 < |list'| ==> list'[i + 1] == list[if i + 1 < m then i + 1 else i + 2];
      if j + 1 == m {
        assert list[j] == kept[m - 1];
      } else if kept != [] {
        assert list[m - 1] == kept[m - 1] && list[j] != list[m - 1];
      }
    }
  }

  lemma StoppedJoinsRing(next: seq<int>, next': seq<int>, looping: int, looping': int,
    kept: seq<int>, rest: seq<int>, ring: seq<int>)
    requires rest != [] && ring != [] && IsSplit(|next|, ring, kept + rest) && IsRing(next, ring[0], ring)
    requires IsStopped(next, next', looping, looping', kept, rest[0], ring[0])
    ensures IsRing(next', ring[0], [ring[0], rest[0]] + ring[1..])
  {
    var list, it, m := kept + rest, rest[0], |kept|;
    var ring' := [ring[0], it] + ring[1..];
    assert list[m] == it && (kept != [] ==> list[m - 1] == kept[m - 1]);
    forall i | 0 <= i < |ring'|
      ensures Points(next', ring', i, ring'[0])
    {
      if i > 1 {
        assert Points(next, ring, i - 1, ring[0]) && ring'[i] == ring[i - 1]
            && ring[i - 1] != ring[0] && ring[i - 1] != list[m];
        assert kept != [] ==> ring[i - 1] != list[m - 1];
        assert i + 1 < |ring'| ==> ring'[i + 1] == ring[i];
      } else if i == 1 {
        assert Points(next, ring, 0, ring[0]) && (|ring| > 1 ==> ring'[2] == ring[1]);
      }
    }
  }

  // The second slot of the ring becomes the first of the list.
  lemma StartedLeavesRing(next: seq<int>, next': seq<int>, ring: seq<int>, list: seq<int>)
    requires |ring| > 1 && IsSplit(|next|, ring, list) && IsRing(next, ring[0], ring) && |next'| == |next|
    requires next'[ring[0]] == next[ring[1]]
    requires forall u :: 0 <= u < |next| && u != ring[0] && u != ring[1] ==> next'[u] == next[u]
    ensures IsRing(next', ring[0], [ring[0]] + ring[2..])
  {
    var ring' := [ring[0]] + ring[2..];
    forall i | 0 <= i < |ring'|
      ensures Points(next', ring', i, ring'[0])
    {
      var j := if i == 0 then 1 else i + 1;
      assert i > 0 ==> ring'[i] == ring[j] && ring[j] != ring[0] && ring[j] != ring[1];
      assert i + 1 < |ring'| ==> ring'[i + 1] == ring[j + 1];
      assert Points(next, ring, j, ring[0]);
    }
  }

  lemma StartedJoinsList(next: seq<int>, next': seq<int>, looping: int, ring: seq<int>, list: seq<int>)
    requires |ring| > 1 && IsSplit(|next|, ring, list) && IsList(next, looping, list) && |next'| == |next|
    requires next'[ring[1]] == looping
    requires forall u :: 0 <= u < |next| && u != ring[0] && u != ring[1] ==> next'[u] == next[u]
    ensures IsList(next', ring[1], [ring[1]] + list)
  {
    var list' := [ring[1]] + list;
    forall i | 0 <= i < |list'|
      ensures Points(next', list', i, -1)
    {
      if i > 0 {
        assert Points(next, list, i - 1, -1) && list'[i] == list[i - 1]
            && list[i - 1] != ring[0] && list[i - 1] != ring[1];
      }
    }
  }

  lemma StartedSplits(n: nat, ring: seq<int>, list: seq<int>)
    requires |ring| > 1 && IsSplit(n, ring, list)
    ensures IsSplit(n, [ring[0]] + ring[2..], [ring[1]] + list)
  {
    var ring', list' := [ring[0]] + ring[2..], [ring[1]] + list;
    assert forall i :: 0 < i < |ring'| ==> ring'[i] == ring[i + 1];
    assert forall i :: 0 < i < |list'| ==> list'[i] == list[i - 1];
  }

  lemma RingTurned(next: seq<int>, ring: seq<int>, list: seq<int>)
    requires |ring| > 1 && IsSplit(|next|, ring, list) && IsRing(next, ring[0], ring)
    ensures IsRing(next, ring[1], ring[1..] + [ring[0]]) && IsSplit(|next|, ring[1..] + [ring[0]], list)
  {
    var ring' := ring[1..] + [ring[0]];
    forall i | 0 <= i < |ring'|
      ensures ring'[i] == (if i + 1 < |ring| then ring[i + 1] else ring[0]) && Points(next, ring', i, ring'[0])
    {
      assert Points(next, ring, if i + 1 < |ring| then i + 1 else 0, ring[0]);
    }
  }

  // ---- Kept and stopped slots ----

  // Together they are the whole list, and each went where its last frame says.
  lemma {:induction false} KeptOrStopped(list: seq<int>, updated: seq<int>, loops: int)
    requires InTable(list, |updated|)
    ensures multiset(Kept(list, updated, loops)) + multiset(Stopped(list, updated, loops)) == multiset(list)
    ensures forall u :: u in Kept(list, updated, loops) <==> u in list && updated[u] >= loops - 1
  {
    if list != [] {
      KeptOrStopped(list[1..], updated, loops);
      assert list == [list[0]] + list[1..];
    }
  }

  lemma RingGrows(before: seq<int>, stopped: seq<int>, it: int, ring: seq<int>)
    requires before != [] && ring == [before[0]] + stopped + before[1..]
    ensures [ring[0], it] + ring[1..] == [before[0]] + ([it] + stopped) + before[1..]
  {
  }

  // What is left to do for the rest of the list.
  ghost predicate Divided(list: seq<int>, kept: seq<int>, stopped: seq<int>, rest: seq<int>,
                            updated: seq<int>, loops: int) {
    && InTable(list, |updated|) && InTable(rest, |updated|)
    && kept + Kept(rest, updated, loops) == Kept(list, updated, loops)
    && Reversed(Stopped(rest, updated, loops)) + stopped == Reversed(Stopped(list, updated, loops))
  }

  lemma DividedOn(list: seq<int>, kept: seq<int>, stopped: seq<int>, rest: seq<int>, updated: seq<int>, loops: int)
    requires rest != [] && Divided(list, kept, stopped, rest, updated, loops)
    ensures 0 <= rest[0] < |updated|
    ensures if updated[rest[0]] < loops - 1 then Divided(list, kept, [rest[0]] + stopped, rest[1..], updated, loops)
            else Divided(list, kept + [rest[0]], stopped, rest[1..], updated, loops)
  {
    var more, gone := Kept(rest[1..], updated, loops), Stopped(rest[1..], updated, loops);
    if updated[rest[0]] < loops - 1 {
      assert [] + more == more && ([rest[0]] + gone)[1..] == gone;
      assert Reversed(gone) + [rest[0]] + stopped == Reversed(gone) + ([rest[0]] + stopped);
    } else {
      assert [] + gone == gone;
      assert kept + [rest[0]] + more == kept + ([rest[0]] + more);
    }
  }

  // The first slot of the list that plays the sample nearly as loud.
  function Playing(list: seq<int>, sample: seq<int>, volume: seq<int>, wanted: int, loud: int): (i: nat)
    requires |sample| == |volume| && forall i :: 0 <= i < |list| ==> 0 <= list[i] < |sample|
    ensures i <= |list| && (i < |list| ==> Matches(sample, volume, list[i], wanted, loud))
    ensures forall j :: 0 <= j < i ==> !Matches(sample, volume, list[j], wanted, loud)
  {
    if list == [] || Matches(sample, volume, list[0], wanted, loud) then 0
    else 1 + Playing(list[1..], sample, volume, wanted, loud)
  }

  // One place of a table has been set, or none.
  ghost predicate Touched(slot: int, before: seq<int>, after: seq<int>, value: int) {
    (slot == -1 && after == before) || (0 <= slot < |before| && after == before[slot := value])
  }

  const VOL_THRESHOLD := 10

  predicate Matches(sample: seq<int>, volume: seq<int>, u: int, wanted: int, loud: int)
    requires |sample| == |volume| && 0 <= u < |sample|
  {
    sample[u] == wanted && -VOL_THRESHOLD < volume[u] - loud < VOL_THRESHOLD
  }
}
