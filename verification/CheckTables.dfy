/** The table of check points that init_blockmap of client.c makes from the map. */
module CheckTables {
  import opened Bytes
  import opened BlockTables

  predicate IsCheck(block: Byte) { KindOf(block).Check? }

  function Number(block: Byte): int { block - SETUP_CHECK }

  ghost function CountChecks(d: seq<Byte>): nat { |Places(d, Check, |d|)| }

  // No check point is numbered beyond the number of check points.
  ghost predicate NumbersFit(d: seq<Byte>) {
    forall i :: 0 <= i < |d| && IsCheck(d[i]) ==> Number(d[i]) < CountChecks(d)
  }

  ghost predicate NumbersDiffer(d: seq<Byte>) {
    forall i, j :: 0 <= i < j < |d| && IsCheck(d[i]) ==> d[i] != d[j]
  }

  ghost predicate HasNumber(d: seq<Byte>, c: int) {
    exists i :: 0 <= i < |d| && IsCheck(d[i]) && Number(d[i]) == c
  }

  // Each check point among the first n blocks has the last place with its number.
  ghost predicate IsCheckTable(t: seq<int>, d: seq<Byte>, n: nat)
    requires n <= |d|
  {
    && |t| == CountChecks(d) && NumbersFit(d)
    && forall i :: 0 <= i < n && IsCheck(d[i]) ==> IsPlace(t[Number(d[i])], d, i, n)
  }

  ghost predicate IsPlace(p: int, d: seq<Byte>, i: nat, n: nat)
    requires i < n <= |d|
  {
    i <= p < n && d[p] == d[i]
  }

  lemma CheckTableGrows(t: seq<int>, d: seq<Byte>, n: nat)
    requires n < |d| && IsCheckTable(t, d, n)
    ensures IsCheckTable(if IsCheck(d[n]) then t[Number(d[n]) := n] else t, d, n + 1)
  {
    var t' := if IsCheck(d[n]) then t[Number(d[n]) := n] else t;
    forall i | 0 <= i < n + 1 && IsCheck(d[i])
      ensures IsPlace(t'[Number(d[i])], d, i, n + 1)
    {
      assert i < n ==> IsPlace(t[Number(d[i])], d, i, n);
    }
  }

  class CheckTable {
    const places: array<int>

    constructor (size: nat)
      ensures fresh(places) && places.Length == size
    {
      places := new int[size];
    }

    ghost predicate Holds(d: seq<Byte>, n: nat)
      reads places
      requires n <= |d|
    {
      IsCheckTable(places[..], d, n)
    }

    method Add(block: Byte, ghost d: seq<Byte>, n: int)
      requires 0 <= n < |d| && d[n] == block && Holds(d, n)
      modifies places
      ensures Holds(d, n + 1)
    {
      CheckTableGrows(places[..], d, n);
      if IsCheck(block) {
        ghost var t := places[..];
        places[Number(block)] := n;
        assert places[..] == t[Number(block) := n];
      }
    }
  }

  // ---- When the table is complete ----

  ghost function Elements(s: seq<int>): set<int> { set k | 0 <= k < |s| :: s[k] }

  ghost predicate Distinct(s: seq<int>) {
    forall i, j :: 0 <= i < j < |s| ==> s[i] != s[j]
  }

  lemma {:induction false} CountElements(s: seq<int>)
    ensures |Elements(s)| <= |s| && (|Elements(s)| == |s| <==> Distinct(s))
  {
    if s != [] {
      var t, last := s[..|s| - 1], s[|s| - 1];
      CountElements(t);
      assert Elements(s) == Elements(t) + {last};
      if last in Elements(t) {
        assert Elements(s) == Elements(t);
      }
    }
  }

  ghost function UpTo(n: nat): (r: set<int>)
    ensures |r| == n && forall c :: c in r <==> 0 <= c < n
  {
    if n == 0 then {} else UpTo(n - 1) + {n - 1}
  }

  lemma {:induction false} WithinUpTo(a: set<int>, n: nat)
    requires a <= UpTo(n)
    ensures |a| <= n && (|a| == n ==> a == UpTo(n))
  {
    if n > 0 {
      WithinUpTo(a - {n - 1}, n - 1);
    }
  }

  // Of n numbers below n, all occur exactly when none occurs twice.
  lemma AllOrTwice(s: seq<int>)
    requires forall k :: 0 <= k < |s| ==> 0 <= s[k] < |s|
    ensures Distinct(s) <==> Elements(s) == UpTo(|s|)
  {
    CountElements(s);
    WithinUpTo(Elements(s), |s|);
  }

  ghost function Numbers(d: seq<Byte>): (s: seq<int>)
    ensures |s| == CountChecks(d)
  {
    PlacesAreExact(d, Check, |d|);
    var places := Places(d, Check, |d|);
    seq(|places|, k requires 0 <= k < |places| => Number(d[PlaceIn(d, places, k)]))
  }

  ghost function PlaceIn(d: seq<Byte>, places: seq<int>, k: nat): (p: int)
    requires places == Places(d, Check, |d|) && k < |places|
    ensures p == places[k] && 0 <= p < |d| && IsCheck(d[p])
  {
    PlacesAreExact(d, Check, |d|);
    assert places[k] in places;
    places[k]
  }

  // The table has a place for every number exactly when no number is used twice, and
  // then it has the place of each check point.
  lemma ChecksAreExact(t: seq<int>, d: seq<Byte>)
    requires IsCheckTable(t, d, |d|)
    ensures (forall c :: 0 <= c < |t| ==> HasNumber(d, c)) <==> NumbersDiffer(d)
    ensures NumbersDiffer(d) ==> forall i :: 0 <= i < |d| && IsCheck(d[i]) ==> t[Number(d[i])] == i
  {
    AllOccur(d, |t|);
    if NumbersDiffer(d) {
      forall i | 0 <= i < |d| && IsCheck(d[i]) ensures t[Number(d[i])] == i {
        assert IsPlace(t[Number(d[i])], d, i, |d|);
      }
    }
  }

  lemma AllOccur(d: seq<Byte>, n: nat)
    requires NumbersFit(d) && n == CountChecks(d)
    ensures (forall c :: 0 <= c < n ==> HasNumber(d, c)) <==> NumbersDiffer(d)
  {
    NumbersAreDistinct(d);
    AllOrTwice(Numbers(d));
    NumbersOccur(d);
    if NumbersDiffer(d) {
      forall c | 0 <= c < n ensures HasNumber(d, c) {
        assert c in UpTo(n);
      }
    }
    if forall c :: 0 <= c < n ==> HasNumber(d, c) {
      forall c ensures c in Elements(Numbers(d)) <==> c in UpTo(n) {
      }
      assert Elements(Numbers(d)) == UpTo(n);
    }
  }

  lemma NumbersAreDistinct(d: seq<Byte>)
    requires NumbersFit(d)
    ensures Distinct(Numbers(d)) <==> NumbersDiffer(d)
    ensures forall k :: 0 <= k < |Numbers(d)| ==> 0 <= Numbers(d)[k] < |Numbers(d)|
  {
    var places := Places(d, Check, |d|);
    PlacesAreExact(d, Check, |d|);
    forall k | 0 <= k < |Numbers(d)| ensures 0 <= Numbers(d)[k] < |Numbers(d)| {
      var p := PlaceIn(d, places, k);
    }
    if Distinct(Numbers(d)) {
      forall i, j | 0 <= i < j < |d| && IsCheck(d[i]) ensures d[i] != d[j] {
        if IsCheck(d[j]) {
          assert AtPlace(d, i) != AtPlace(d, j);
        }
      }
    }
    if NumbersDiffer(d) {
      forall a, b | 0 <= a < b < |Numbers(d)| ensures Numbers(d)[a] != Numbers(d)[b] {
        assert PlaceIn(d, places, a) < PlaceIn(d, places, b);
      }
    }
  }

  ghost function AtPlace(d: seq<Byte>, i: int): (k: int)
    requires 0 <= i < |d| && IsCheck(d[i])
    ensures 0 <= k < CountChecks(d) && Places(d, Check, |d|)[k] == i && Numbers(d)[k] == Number(d[i])
  {
    PlacesAreExact(d, Check, |d|);
    assert i in Places(d, Check, |d|);
    var k :| 0 <= k < CountChecks(d) && Places(d, Check, |d|)[k] == i;
    assert PlaceIn(d, Places(d, Check, |d|), k) == i;
    k
  }

  lemma NumbersOccur(d: seq<Byte>)
    ensures forall c :: c in Elements(Numbers(d)) <==> HasNumber(d, c)
  {
    forall c ensures c in Elements(Numbers(d)) <==> HasNumber(d, c) {
      if c in Elements(Numbers(d)) {
        var k :| 0 <= k < CountChecks(d) && Numbers(d)[k] == c;
        var p := PlaceIn(d, Places(d, Check, |d|), k);
        assert Number(d[p]) == c;
      }
      if HasNumber(d, c) {
        var i :| 0 <= i < |d| && IsCheck(d[i]) && Number(d[i]) == c;
        assert Numbers(d)[AtPlace(d, i)] == c;
      }
    }
  }

  // ---- Maps for which the table does not do ----

  // A single check point, numbered 1: its number is beyond the table.
  lemma NumberBeyondTable()
    ensures CountChecks([81]) == 1 && !NumbersFit([81])
  {
    assert Places([81], Check, 1) == [0];
    assert IsCheck([81][0]) && Number([81][0]) == 1;
  }

  // Two check points numbered 0: no place for number 1, and the place of the second one only.
  lemma NumberUsedTwice(t: seq<int>)
    requires IsCheckTable(t, [80, 80], 2)
    ensures CountChecks([80, 80]) == |t| == 2 && t[0] == 1 && !HasNumber([80, 80], 1)
  {
    assert Places([80, 80], Check, 1) == [0] && Places([80, 80], Check, 2) == [0, 1];
    assert IsCheck([80, 80][1]) && IsPlace(t[Number([80, 80][1])], [80, 80], 1, 2);
  }
}
