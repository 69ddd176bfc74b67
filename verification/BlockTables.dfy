/** The tables of fuel stations, cannons, targets and bases that init_blockmap of
    client.c makes from the map, and the searches in them. */
module BlockTables {
  import opened Bytes

  const SETUP_FUEL := 3
  const SETUP_CANNON_UP := 15
  const SETUP_CANNON_LEFT := 18
  const SETUP_BASE_LOWEST := 30
  const SETUP_BASE_HIGHEST := 69
  const SETUP_TARGET := 70
  const SETUP_CHECK := 80
  const OLD_MAX_CHECKS := 26

  datatype Kind = Fuel | Cannon | Target | Base | Check | Other

  function KindOf(block: Byte): Kind {
    if block == SETUP_FUEL then Fuel
    else if SETUP_CANNON_UP <= block <= SETUP_CANNON_LEFT then Cannon
    else if SETUP_TARGET <= block < SETUP_TARGET + 10 then Target
    else if SETUP_BASE_LOWEST <= block <= SETUP_BASE_HIGHEST then Base
    else if SETUP_CHECK <= block < SETUP_CHECK + OLD_MAX_CHECKS then Check
    else Other
  }

  // The places of the blocks of a kind among the first n.
  ghost function Places(d: seq<Byte>, k: Kind, n: nat): seq<int>
    requires n <= |d|
  {
    if n == 0 then [] else Places(d, k, n - 1) + if KindOf(d[n - 1]) == k then [n - 1] else []
  }

  ghost predicate Increasing(s: seq<int>) {
    forall i, j :: 0 <= i < j < |s| ==> s[i] < s[j]
  }

  // They come in order, and are exactly those of the kind.
  lemma {:induction false} PlacesAreExact(d: seq<Byte>, k: Kind, n: nat)
    requires n <= |d|
    ensures Increasing(Places(d, k, n))
    ensures forall p :: p in Places(d, k, n) <==> 0 <= p < n && KindOf(d[p]) == k
  {
    if n > 0 {
      PlacesAreExact(d, k, n - 1);
      var before := Places(d, k, n - 1);
      forall i | 0 <= i < |before|
        ensures before[i] < n - 1
      {
        assert before[i] in before;
      }
    }
  }

  lemma {:induction false} PlacesGrow(d: seq<Byte>, k: Kind, m: nat, n: nat)
    requires m <= n <= |d|
    ensures Places(d, k, m) <= Places(d, k, n)
  {
    if m < n {
      PlacesGrow(d, k, m, n - 1);
    }
  }

  // A table keeps, for each entry, the place of the block and its type.
  datatype Entry = Entry(pos: int, block: int, team: int)

  function EntryOf(block: Byte, pos: int): Entry {
    if KindOf(block).Base? then Entry(pos, block - block as int % 10, block as int % 10) else Entry(pos, block, 0)
  }

  ghost predicate IsTable(t: seq<Entry>, d: seq<Byte>, k: Kind, n: nat)
    requires n <= |d|
  {
    |t| == |Places(d, k, n)| && forall i :: 0 <= i < |t| ==> IsEntry(t[i], d, k, n, i)
  }

  ghost predicate IsEntry(e: Entry, d: seq<Byte>, k: Kind, n: nat, i: int)
    requires n <= |d| && 0 <= i < |Places(d, k, n)|
  {
    0 <= Places(d, k, n)[i] < |d| && e == EntryOf(d[Places(d, k, n)[i]], Places(d, k, n)[i])
  }

  // What is left on the map: bases without their team, check points without their number.
  function Plain(block: Byte): Byte {
    if KindOf(block).Base? then block - block as int % 10
    else if KindOf(block).Check? then SETUP_CHECK
    else block
  }

  lemma TableGrows(t: seq<Entry>, d: seq<Byte>, k: Kind, n: nat)
    requires n < |d| && IsTable(t, d, k, n)
    ensures IsTable(if KindOf(d[n]) == k then t + [EntryOf(d[n], n)] else t, d, k, n + 1)
  {
    var t' := if KindOf(d[n]) == k then t + [EntryOf(d[n], n)] else t;
    assert Places(d, k, n) <= Places(d, k, n + 1);
    forall i | 0 <= i < |t'|
      ensures IsEntry(t'[i], d, k, n + 1, i)
    {
      assert i < |t| ==> IsEntry(t[i], d, k, n, i);
    }
  }

  // The entries of a full table are the blocks received, a base as its type, one for each
  // direction, and its team, and that type is what stays on the map.
  lemma EntriesAreReceived(t: seq<Entry>, d: seq<Byte>, k: Kind, i: nat)
    requires IsTable(t, d, k, |d|) && i < |t|
    ensures var e := t[i];
      && 0 <= e.pos < |d| && KindOf(d[e.pos]) == k && e.block + e.team == d[e.pos]
      && (k.Base? ==> 0 <= e.team < 10 && e.block % 10 == 0) && (!k.Base? ==> e.team == 0)
      && (!k.Check? ==> Plain(d[e.pos]) == e.block)
  {
    assert IsEntry(t[i], d, k, |d|, i);
    PlacesAreExact(d, k, |d|);
    assert Places(d, k, |d|)[i] in Places(d, k, |d|);
    PlainKeepsKind(d[t[i].pos]);
  }

  // A block stays of its kind, and only bases and check points change.
  lemma PlainKeepsKind(block: Byte)
    ensures KindOf(Plain(block)) == KindOf(block) && Plain(Plain(block)) == Plain(block)
    ensures Plain(block) != block ==> KindOf(block).Base? || KindOf(block).Check?
    ensures KindOf(block).Check? ==> Plain(block) == SETUP_CHECK
  {
  }

  // The blocks that the server puts on the map for these kinds: cannons in four directions,
  // up, right, down and left, the targets of ten teams, bases that have both, and numbered
  // check points.
  datatype Sent =
    | SentFuel
    | SentCannon(dir: int)
    | SentTarget(team: int)
    | SentBase(dir: int, team: int)
    | SentCheck(number: int)

  predicate IsSent(b: Sent) {
    match b
    case SentFuel => true
    case SentCannon(dir) => 0 <= dir < 4
    case SentTarget(team) => 0 <= team < 10
    case SentBase(dir, team) => 0 <= dir < 4 && 0 <= team < 10
    case SentCheck(number) => 0 <= number < OLD_MAX_CHECKS
  }

  const SETUP_CANNONS := [15, 16, 17, 18]
  const SETUP_BASES := [30, 40, 50, 60]

  function SentByte(b: Sent): Byte
    requires IsSent(b)
  {
    match b
    case SentFuel => 3
    case SentCannon(dir) => SETUP_CANNONS[dir]
    case SentTarget(team) => 70 + team
    case SentBase(dir, team) => SETUP_BASES[dir] + team
    case SentCheck(number) => 80 + number
  }

  // The client takes each block for what it was sent as, and a base's entry holds its
  // direction, as a type, and its team.
  lemma SentIsKnown(b: Sent, pos: int)
    requires IsSent(b)
    ensures match b
            case SentFuel => KindOf(SentByte(b)).Fuel?
            case SentCannon(_) => KindOf(SentByte(b)).Cannon?
            case SentTarget(_) => KindOf(SentByte(b)).Target?
            case SentBase(dir, team) =>
              KindOf(SentByte(b)).Base? && EntryOf(SentByte(b), pos) == Entry(pos, SETUP_BASES[dir], team)
            case SentCheck(_) => KindOf(SentByte(b)).Check?
  {
  }

  // And it takes no other block for one of these kinds.
  lemma KnownIsSent(block: Byte)
    ensures KindOf(block).Other? <==> forall b :: IsSent(b) ==> SentByte(b) != block
  {
    match KindOf(block)
    case Fuel => assert SentByte(SentFuel) == block;
    case Cannon => assert SentByte(SentCannon(block - 15)) == block;
    case Target => assert SentByte(SentTarget(block - 70)) == block;
    case Base => assert SentByte(SentBase(block / 10 - 3, block % 10)) == block;
    case Check => assert SentByte(SentCheck(block - 80)) == block;
    case Other =>
      forall b | IsSent(b)
        ensures SentByte(b) != block
      {
        SentIsKnown(b, 0);
      }
  }

  // One of the tables, filled up to some entry.
  class Table {
    const entries: array<Entry>
    var filled: nat

    constructor (size: nat)
      ensures entries.Length == size && filled == 0 && fresh(entries)
    {
      entries := new Entry[size](i => Entry(0, 0, 0));
      filled := 0;
    }

    ghost predicate Holds(d: seq<Byte>, k: Kind, n: nat)
      reads this, entries
      requires n <= |d|
    {
      entries.Length == |Places(d, k, |d|)| && filled <= entries.Length && IsTable(entries[..filled], d, k, n)
    }

    method Add(block: Byte, ghost d: seq<Byte>, ghost k: Kind, n: int)
      requires 0 <= n < |d| && d[n] == block && Holds(d, k, n) && KindOf(block) == k
      modifies this, entries
      ensures Holds(d, k, n + 1)
    {
      PlacesGrow(d, k, n + 1, |d|);
      TableGrows(entries[..filled], d, k, n);
      ghost var before := entries[..filled];
      entries[filled] := EntryOf(block, n);
      filled := filled + 1;
      assert entries[..filled] == before + [EntryOf(block, n)];
    }

    // The entry for a block of the map, or -1.
    method Search(x: int, y: int, height: int, ghost d: seq<Byte>, ghost k: Kind) returns (found: int)
      requires Holds(d, k, |d|) && filled == entries.Length
      ensures found != -1 ==> 0 <= found < entries.Length && entries[found].pos == x * height + y
      ensures var pos := x * height + y; found != -1 <==> 0 <= pos < |d| && KindOf(d[pos]) == k
    {
      ghost var places := Places(d, k, |d|);
      PlacesAreExact(d, k, |d|);
      EntriesAreAt(entries[..filled], d, k);
      assert entries[..filled] == entries[..];
      var lo, hi, pos := 0, entries.Length - 1, x * height + y;
      while lo < hi
        invariant 0 <= lo <= hi + 1 && hi < entries.Length && (lo > hi ==> entries.Length == 0)
        invariant Between(places, pos, lo, hi)
      {
        var i := (lo + hi) / 2;
        assert entries[i].pos == places[i];
        if pos > entries[i].pos {
          lo := i + 1;
        } else {
          hi := i;
        }
      }
      if lo == hi && pos == entries[lo].pos {
        assert places[lo] in places;
        return lo;
      }
      NotBetween(places, pos, lo, hi);
      return -1;
    }
  }

  lemma EntriesAreAt(t: seq<Entry>, d: seq<Byte>, k: Kind)
    requires IsTable(t, d, k, |d|)
    ensures forall i :: 0 <= i < |t| ==> t[i].pos == Places(d, k, |d|)[i]
  {
    forall i | 0 <= i < |t|
      ensures t[i].pos == Places(d, k, |d|)[i]
    {
      assert IsEntry(t[i], d, k, |d|, i);
    }
  }

  // The number can only be in the list from lo to hi.
  ghost predicate Between(s: seq<int>, pos: int, lo: int, hi: int) {
    Increasing(s) && forall i :: 0 <= i < |s| && s[i] == pos ==> lo <= i <= hi
  }

  lemma NotBetween(s: seq<int>, pos: int, lo: int, hi: int)
    requires Between(s, pos, lo, hi) && 0 <= lo && hi <= lo && (lo == hi ==> lo < |s| && s[lo] != pos)
    ensures pos !in s
  {
  }

  function PlainMap(d: seq<Byte>): seq<Byte> {
    seq(|d|, i requires 0 <= i < |d| => Plain(d[i]))
  }

  lemma PlainMapGrows(d: seq<Byte>, i: int)
    requires 0 <= i < |d|
    ensures (PlainMap(d[..i]) + d[i..])[i] == d[i]
    ensures (PlainMap(d[..i]) + d[i..])[i := Plain(d[i])] == PlainMap(d[..i + 1]) + d[i + 1..]
  {
  }

  lemma PlainMapEnds(d: seq<Byte>)
    ensures PlainMap(d[..0]) + d[0..] == d && PlainMap(d[..|d|]) + d[|d|..] == PlainMap(d)
  {
    assert d[..|d|] == d;
  }

  ghost predicate Apart(a: Table, b: Table) {
    a != b && a.entries != b.entries
  }

  ghost predicate AllHold(fuels: Table, cannons: Table, targets: Table, bases: Table, d: seq<Byte>, n: nat)
    reads fuels, cannons, targets, bases, fuels.entries, cannons.entries, targets.entries, bases.entries
    requires n <= |d|
  {
    && fuels.Holds(d, Fuel, n) && cannons.Holds(d, Cannon, n) && targets.Holds(d, Target, n) && bases.Holds(d, Base, n)
    && Apart(fuels, cannons) && Apart(fuels, targets) && Apart(fuels, bases)
    && Apart(cannons, targets) && Apart(cannons, bases) && Apart(targets, bases)
  }

  ghost predicate AllFull(fuels: Table, cannons: Table, targets: Table, bases: Table)
    reads fuels, cannons, targets, bases
  {
    && fuels.filled == fuels.entries.Length && cannons.filled == cannons.entries.Length
    && targets.filled == targets.entries.Length && bases.filled == bases.entries.Length
  }

  lemma HoldsOn(t: Table, d: seq<Byte>, k: Kind, n: int)
    requires 0 <= n < |d| && t.Holds(d, k, n) && KindOf(d[n]) != k
    ensures t.Holds(d, k, n + 1)
  {
    TableGrows(t.entries[..t.filled], d, k, n);
  }

  method AddBlock(block: Byte, n: int, fuels: Table, cannons: Table, targets: Table, bases: Table, ghost d: seq<Byte>)
    requires 0 <= n < |d| && d[n] == block && AllHold(fuels, cannons, targets, bases, d, n)
    modifies fuels, cannons, targets, bases, fuels.entries, cannons.entries, targets.entries, bases.entries
    ensures AllHold(fuels, cannons, targets, bases, d, n + 1)
  {
    var k := KindOf(block);
    if k.Fuel? {
      fuels.Add(block, d, Fuel, n);
    } else {
      HoldsOn(fuels, d, Fuel, n);
    }
    if k.Cannon? {
      cannons.Add(block, d, Cannon, n);
    } else {
      HoldsOn(cannons, d, Cannon, n);
    }
    if k.Target? {
      targets.Add(block, d, Target, n);
    } else {
      HoldsOn(targets, d, Target, n);
    }
    if k.Base? {
      bases.Add(block, d, Base, n);
    } else {
      HoldsOn(bases, d, Base, n);
    }
  }
}
