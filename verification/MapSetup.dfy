/** Uncompress_map of netclient.c. */
module MapSetup {
  import opened Options
  import opened Bytes
  import opened RunLength
  import opened MapCompression
  import opened Unpacker

  const SETUP_MAP_ORDER_XY := 1
  const SETUP_MAP_UNCOMPRESSED := 3

  // The map is the one that the server has encoded.
  ghost predicate GivesBack(encoded: seq<Byte>, data: seq<Byte>) {
    forall d: seq<Byte> {:trigger Compressed(d)} :: Low(d) && Compressed(d) == encoded && |d| == |data| ==> d == data
  }

  lemma DecodedIsGivenBack(encoded: seq<Byte>)
    requires Decode(encoded).Some?
    ensures GivesBack(encoded, Decode(encoded).value)
  {
    forall d: seq<Byte> | Low(d) && Compressed(d) == encoded
      ensures d == Decode(encoded).value
    {
      LowIsDecoded(d);
    }
  }

  class Setup {
    var mapOrder: int
    const x: nat
    const y: nat
    const mapDataLen: nat
    const mapData: array<Byte>

    // The last byte stands for itself.
    method CopyLiteral(cmp0: int, ump0: int, ghost s: seq<Byte>, ghost slack: nat) returns (cmp: int, ump: int)
      requires Unpacking(mapData[..], s, x * y, cmp0, ump0, slack) && cmp0 >= 0 && EndsInLiteral(s[..cmp0 + 1])
      modifies mapData
      ensures cmp == cmp0 - 1 && Unpacking(mapData[..], s, x * y, cmp, ump, slack)
    {
      cmp, ump := cmp0 - 1, ump0 - 1;
      LiteralUnpacked(mapData[..], s, x * y, cmp0, ump0, slack);
      ghost var before := mapData[..];
      mapData[ump0] := mapData[cmp0];
      assert mapData[..] == before[ump0 := before[cmp0]];
    }

    // Clear the high bit at cmp and write the byte count times, downwards from ump.
    method FillRun(cmp: int, ump0: int, count: int) returns (ump: int)
      requires 0 <= cmp <= ump0 - count + 1 && 2 <= count && ump0 < mapData.Length
      modifies mapData
      ensures ump == ump0 - count && Filled(old(mapData[..]), mapData[..], cmp, ump0, count)
    {
      mapData[cmp] := ClearHigh(mapData[cmp]);
      ghost var b := mapData[cmp];
      ump := ump0;
      var i := 0;
      while i < count
        invariant 0 <= i <= count && ump == ump0 - i
        invariant mapData[cmp] == b
        invariant forall k :: 0 <= k < cmp ==> mapData[k] == old(mapData[k])
        invariant forall k :: ump < k <= ump0 ==> mapData[k] == b
        invariant forall k :: ump0 < k < mapData.Length ==> mapData[k] == old(mapData[k])
      {
        mapData[ump] := mapData[cmp];
        ump := ump - 1;
        i := i + 1;
      }
    }

    // The last byte is a count for the byte before it.
    method ExpandRun(cmp0: int, ump0: int, ghost s: seq<Byte>, ghost slack: nat) returns (ok: bool, cmp: int, ump: int)
      requires Unpacking(mapData[..], s, x * y, cmp0, ump0, slack) && cmp0 >= 0 && EndsInRun(s[..cmp0 + 1])
      modifies mapData
      ensures ok && cmp == cmp0 - 2 && Unpacking(mapData[..], s, x * y, cmp, ump, slack)
    {
      ghost var before := mapData[..];
      RoomForRun(before, s, x * y, cmp0, ump0, slack);
      cmp := cmp0;
      var count := mapData[cmp];
      cmp := cmp - 1;
      if count < 2 {
        return false, cmp, ump0;
      }
      ump := FillRun(cmp, ump0, count);
      cmp := cmp - 1;
      RunUnpacked(before, mapData[..], s, x * y, cmp0, cmp, ump0, ump, slack);
      if ump < cmp {
        return false, cmp, ump;
      }
      return true, cmp, ump;
    }

    // The place of the first byte of the high-bit run before cmp.
    method FindRun(cmp: int, ghost s: seq<Byte>) returns (p: int)
      requires 0 <= cmp < |s| && cmp < mapData.Length && mapData[..cmp + 1] == s[..cmp + 1]
      ensures RunBefore(s, cmp, p)
    {
      p := cmp;
      while p > 0
        invariant 0 <= p <= cmp
        invariant forall i :: p <= i < cmp ==> High(s[i])
      {
        assert mapData[p - 1] == mapData[..cmp + 1][p - 1];
        if !High(mapData[p - 1]) {
          break;
        }
        p := p - 1;
      }
    }

    // Expand all the runs from p up to the count at cmp0.
    method ExpandRuns(p: int, cmp0: int, ump0: int, ghost s: seq<Byte>, ghost slack: nat)
      returns (ok: bool, cmp: int, ump: int)
      requires Unpacking(mapData[..], s, x * y, cmp0, ump0, slack)
      requires RunBefore(s, cmp0, p) && !Even(cmp0 - p)
      modifies mapData
      ensures ok && cmp < cmp0 && Unpacking(mapData[..], s, x * y, cmp, ump, slack)
    {
      ok, cmp, ump := true, cmp0, ump0;
      while p < cmp
        invariant Unpacking(mapData[..], s, x * y, cmp, ump, slack) && ok
        invariant p - 1 <= cmp <= cmp0 && !Even(cmp - p)
        invariant cmp == cmp0 ==> p < cmp
      {
        TokenAt(s, cmp, p);
        EvenSteps(cmp - p);
        ok, cmp, ump := ExpandRun(cmp, ump, s, slack);
        if !ok {
          return;
        }
      }
    }

    // Decode the tokens up to cmp0 and all others of the same high-bit run.
    method UnpackTokens(cmp0: int, ump0: int, ghost s: seq<Byte>, ghost slack: nat)
      returns (ok: bool, cmp: int, ump: int)
      requires Unpacking(mapData[..], s, x * y, cmp0, ump0, slack) && cmp0 >= 0
      modifies mapData
      ensures ok && cmp < cmp0 && Unpacking(mapData[..], s, x * y, cmp, ump, slack)
    {
      ok, cmp, ump := true, cmp0, ump0;
      var p := FindRun(cmp, s);
      TokenAt(s, cmp, p);
      if p == cmp {
        cmp, ump := CopyLiteral(cmp, ump, s, slack);
        return;
      }
      ok, cmp, ump := UnpackRun(p, cmp, ump, s, slack);
    }

    // A run of bytes with the high bit set ends in a count, or in a count and a literal.
    method UnpackRun(p: int, cmp0: int, ump0: int, ghost s: seq<Byte>, ghost slack: nat)
      returns (ok: bool, cmp: int, ump: int)
      requires Unpacking(mapData[..], s, x * y, cmp0, ump0, slack) && p < cmp0 && RunBefore(s, cmp0, p)
      requires Even(cmp0 - p) ==> EndsInLiteral(s[..cmp0 + 1])
      modifies mapData
      ensures ok && cmp < cmp0 && Unpacking(mapData[..], s, x * y, cmp, ump, slack)
    {
      cmp, ump := CopyLastLiteral(p, cmp0, ump0, s, slack);
      ok, cmp, ump := ExpandRuns(p, cmp, ump, s, slack);
    }

    method CopyLastLiteral(p: int, cmp0: int, ump0: int, ghost s: seq<Byte>, ghost slack: nat)
      returns (cmp: int, ump: int)
      requires Unpacking(mapData[..], s, x * y, cmp0, ump0, slack) && p < cmp0 && RunBefore(s, cmp0, p)
      requires Even(cmp0 - p) ==> EndsInLiteral(s[..cmp0 + 1])
      modifies mapData
      ensures Unpacking(mapData[..], s, x * y, cmp, ump, slack)
      ensures cmp <= cmp0 && RunBefore(s, cmp, p) && !Even(cmp - p)
    {
      cmp, ump := cmp0, ump0;
      if Even(cmp - p) {
        RunWithoutLiteral(s, cmp, p);
        cmp, ump := CopyLiteral(cmp, ump, s, slack);
      }
    }

    // Returns 0 when the map data fill the map exactly, and then holds the decoded
    // map; -1 otherwise.
    method UncompressMap() returns (r: int)
      requires mapDataLen <= mapData.Length && x * y <= mapData.Length
      requires Decode(mapData[..mapDataLen]).Some?
      requires |Decode(mapData[..mapDataLen]).value| <= x * y
      modifies mapData, `mapOrder
      ensures if old(mapOrder) == SETUP_MAP_ORDER_XY && |Decode(old(mapData[..mapDataLen])).value| == x * y
        then r == 0 && mapOrder == SETUP_MAP_UNCOMPRESSED
          && mapData[..x * y] == Decode(old(mapData[..mapDataLen])).value
        else r == -1 && mapOrder == old(mapOrder)
      ensures r == 0 ==> GivesBack(old(mapData[..mapDataLen]), mapData[..x * y])
    {
      if mapOrder != SETUP_MAP_ORDER_XY {
        return -1;
      }
      ghost var s := mapData[..mapDataLen];
      ghost var slack := x * y - |Decode(s).value|;
      DecodeIsLonger(s);
      assert s[..mapDataLen] == s;
      var cmp, ump := mapDataLen - 1, x * y - 1;
      while cmp >= 0
        invariant Unpacking(mapData[..], s, x * y, cmp, ump, slack)
        invariant mapOrder == old(mapOrder)
      {
        var ok;
        ok, cmp, ump := UnpackTokens(cmp, ump, s, slack);
        if !ok {
          return -1;
        }
      }
      Unpacked(mapData[..], s, x * y, cmp, ump, slack);
      if ump != cmp {
        return -1;
      }
      DecodedIsGivenBack(s);
      mapOrder := SETUP_MAP_UNCOMPRESSED;
      return 0;
    }
  }
}
