/** The insertion sort of Sort_labels: labels 2 and up by falling count. */
module LabelTable {

  // t lists the numbers below n, each once, 0 and 1 first.
  ghost predicate Lists(t: seq<int>, n: nat) {
    && |t| == n >= 2 && t[0] == 0 && t[1] == 1
    && (forall p :: 0 <= p < n ==> 0 <= t[p] < n)
    && (forall p, q :: 0 <= p < q < n ==> t[p] != t[q])
    && (forall v :: 0 <= v < n ==> v in t)
  }

  ghost predicate Falling(t: seq<int>, count: seq<int>) {
    && (forall p :: 0 <= p < |t| ==> 0 <= t[p] < |count|)
    && (forall p, q :: 2 <= p < q < |t| ==> count[t[p]] >= count[t[q]])
  }

  function Insert(t: seq<int>, j: nat, v: int): seq<int>
    requires j <= |t|
  {
    t[..j] + [v] + t[j..]
  }

  ghost function IndexOf(t: seq<int>, v: int): (p: int)
    requires v in t
    ensures 0 <= p < |t| && t[p] == v
  {
    var p :| 0 <= p < |t| && t[p] == v;
    p
  }

  lemma InsertLists(t: seq<int>, j: nat)
    requires Lists(t, |t|) && 2 <= j <= |t|
    ensures Lists(Insert(t, j, |t|), |t| + 1)
  {
    var r := Insert(t, j, |t|);
    forall v | 0 <= v < |t| + 1 ensures v in r {
      if v < |t| {
        var p := IndexOf(t, v);
        assert r[if p < j then p else p + 1] == v;
      } else {
        assert r[j] == v;
      }
    }
  }

  // Inserting the next label behind the last larger or equal count keeps the
  // counts falling.
  lemma InsertFalls(t: seq<int>, count: seq<int>, j: nat)
    requires Falling(t, count) && |t| < |count| && 2 <= j <= |t|
    requires forall p :: j <= p < |t| ==> count[|t|] > count[t[p]]
    requires j > 2 ==> count[|t|] <= count[t[j - 1]]
    ensures Falling(Insert(t, j, |t|), count)
  {
    var r := Insert(t, j, |t|);
    forall p, q | 2 <= p < q < |r| ensures count[r[p]] >= count[r[q]] {
      assert p < j ==> count[t[p]] >= count[t[j - 1]];
    }
  }

  // Makes room for the label n behind the last count that is no smaller, in the part
  // of tbl below n, and puts it there.
  method InsertLabel(tbl: array<int>, count: seq<int>, n: nat) returns (j: nat)
    requires 2 <= n < tbl.Length && n < |count|
    requires forall p :: 0 <= p < n ==> 0 <= tbl[p] < |count|
    modifies tbl
    ensures 2 <= j <= n && tbl[..n + 1] == Insert(old(tbl[..n]), j, n)
    ensures forall p :: j <= p < n ==> count[n] > count[old(tbl[p])]
    ensures j > 2 ==> count[n] <= count[old(tbl[j - 1])]
  {
    ghost var t := tbl[..n];
    j := n;
    while j > 2
      invariant 2 <= j <= n
      invariant forall p :: 0 <= p < j ==> tbl[p] == t[p]
      invariant forall p :: j < p <= n ==> tbl[p] == t[p - 1]
      invariant forall p :: j <= p < n ==> count[n] > count[t[p]]
    {
      if count[n] > count[tbl[j - 1]] {
        tbl[j] := tbl[j - 1];
      } else {
        break;
      }
      j := j - 1;
    }
    tbl[j] := n;
    assert tbl[..n + 1] == Insert(t, j, n);
  }

  // Sort the labels by their counts; tbl is a table of 256 entries.
  method SortLabels(tbl: array<int>, count: seq<int>)
    requires tbl.Length == 256 && |count| == 256
    modifies tbl
    ensures Lists(tbl[..], 256) && Falling(tbl[..], count)
  {
    for k := 0 to 256 {
      tbl[k] := 0;
    }
    tbl[0] := 0;
    tbl[1] := 1;
    var n := 2;
    assert tbl[..2] == [0, 1];
    for i := 2 to 256
      invariant n == i && Lists(tbl[..n], n) && Falling(tbl[..n], count)
    {
      ghost var t := tbl[..n];
      var j := InsertLabel(tbl, count, n);
      InsertLists(t, j);
      InsertFalls(t, count, j);
      n := n + 1;
    }
    assert tbl[..256] == tbl[..];
  }
}
