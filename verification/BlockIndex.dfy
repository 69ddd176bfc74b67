/** init_blockmap of client.c. */
module BlockIndex {
  import opened Bytes
  import opened BlockTables
  import opened CheckTables

  class Blockmap {
    const data: array<Byte>

    constructor (d: seq<Byte>)
      ensures data[..] == d && fresh(data)
    {
      data := new Byte[|d|](i requires 0 <= i < |d| => d[i]);
    }

    method CountKind(k: Kind) returns (n: nat)
      ensures n == |Places(data[..], k, data.Length)|
    {
      n := 0;
      var i := 0;
      while i < data.Length
        invariant 0 <= i <= data.Length && n == |Places(data[..], k, i)|
      {
        if KindOf(data[i]) == k {
          n := n + 1;
        }
        i := i + 1;
      }
    }

    // The first pass over the map finds out how large the tables are.
    method MakeTables() returns (fuels: Table, cannons: Table, targets: Table, bases: Table, checks: CheckTable)
      requires NumbersFit(data[..])
      ensures fresh({fuels, cannons, targets, bases}) && fresh(checks.places)
      ensures fresh({fuels.entries, cannons.entries, targets.entries, bases.entries})
      ensures AllHold(fuels, cannons, targets, bases, data[..], 0) && checks.Holds(data[..], 0)
    {
      var numFuels := CountKind(Fuel);
      var numCannons := CountKind(Cannon);
      var numTargets := CountKind(Target);
      var numBases := CountKind(Base);
      var numChecks := CountKind(Check);
      fuels := new Table(numFuels);
      cannons := new Table(numCannons);
      targets := new Table(numTargets);
      bases := new Table(numBases);
      checks := new CheckTable(numChecks);
    }

    // The second pass fills them, and takes teams and numbers off the map.
    method InitBlockmap() returns (fuels: Table, cannons: Table, targets: Table, bases: Table, checks: CheckTable)
      requires NumbersFit(data[..])
      modifies data
      ensures data[..] == PlainMap(old(data[..]))
      ensures AllHold(fuels, cannons, targets, bases, old(data[..]), data.Length)
      ensures AllFull(fuels, cannons, targets, bases) && checks.Holds(old(data[..]), data.Length)
    {
      fuels, cannons, targets, bases, checks := MakeTables();
      FillTables(fuels, cannons, targets, bases, checks);
    }

    method FillTables(fuels: Table, cannons: Table, targets: Table, bases: Table, checks: CheckTable)
      requires AllHold(fuels, cannons, targets, bases, data[..], 0)
      requires checks.Holds(data[..], 0) && checks.places != data as object
      modifies data, fuels, cannons, targets, bases, fuels.entries, cannons.entries, targets.entries, bases.entries
      modifies checks.places
      ensures data[..] == PlainMap(old(data[..]))
      ensures AllHold(fuels, cannons, targets, bases, old(data[..]), data.Length)
      ensures AllFull(fuels, cannons, targets, bases) && checks.Holds(old(data[..]), data.Length)
    {
      ghost var d := data[..];
      PlainMapEnds(d);
      var i := 0;
      while i < data.Length
        invariant 0 <= i <= data.Length && data[..] == PlainMap(d[..i]) + d[i..]
        invariant AllHold(fuels, cannons, targets, bases, d, i) && checks.Holds(d, i)
      {
        FillOne(i, fuels, cannons, targets, bases, checks, d);
        i := i + 1;
      }
    }

    method FillOne(i: int, fuels: Table, cannons: Table, targets: Table, bases: Table, checks: CheckTable,
            ghost d: seq<Byte>)
      requires 0 <= i < |d| == data.Length && data[..] == PlainMap(d[..i]) + d[i..]
      requires AllHold(fuels, cannons, targets, bases, d, i)
      requires checks.Holds(d, i) && checks.places != data as object
      modifies data, fuels, cannons, targets, bases, fuels.entries, cannons.entries, targets.entries, bases.entries
      modifies checks.places
      ensures data[..] == PlainMap(d[..i + 1]) + d[i + 1..]
      ensures AllHold(fuels, cannons, targets, bases, d, i + 1) && checks.Holds(d, i + 1)
    {
      PlainMapGrows(d, i);
      AddBlock(data[i], i, fuels, cannons, targets, bases, d);
      checks.Add(data[i], d, i);
      PlainBlock(i);
    }

    method PlainBlock(i: int)
      requires 0 <= i < data.Length
      modifies data
      ensures data[..] == old(data[..])[i := Plain(old(data[i]))]
    {
      data[i] := Plain(data[i]);
    }
  }
}
