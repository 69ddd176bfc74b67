/** Compress_map of the server, xpmap.c: the encoding that the client's Uncompress_map
    takes back. */
module MapCompression {
  import opened Options
  import opened Bytes
  import opened RunLength

  const LONGEST_RUN := 255

  // The high bit of a byte is set.
  function SetHigh(b: Byte): Byte {
    if b < SETUP_COMPRESSED then b + SETUP_COMPRESSED else b
  }

  // How many bytes at the front are the same, counted from k on, and no more than the
  // longest run.
  function RunAhead(s: seq<Byte>, k: nat): (n: nat)
    requires s != [] && k <= |s| && k <= LONGEST_RUN
    ensures k <= n <= |s| && n <= LONGEST_RUN
    ensures forall i :: k <= i < n ==> s[i] == s[0]
    decreases |s| - k
  {
    if k < |s| && s[k] == s[0] && k < LONGEST_RUN then RunAhead(s, k + 1) else k
  }

  // A byte that is repeated is written once with its high bit set and then its number.
  function Compressed(s: seq<Byte>): seq<Byte> {
    if s == [] then []
    else if |s| > 1 && s[0] == s[1] then
      var k := RunAhead(s, 2);
      [SetHigh(s[0]), k] + Compressed(s[k..])
    else [s[0]] + Compressed(s[1..])
  }

  // A run is written as one pair of bytes when it ends within 255 bytes, and cut there
  // when it does not.
  lemma RunIsCompressed(b: Byte, n: Byte, rest: seq<Byte>)
    requires 2 <= n <= 255 && (rest != [] && rest[0] == b ==> n == 255)
    ensures Compressed(Repeat(b, n) + rest) == [SetHigh(b), n] + Compressed(rest)
  {
    var s := Repeat(b, n) + rest;
    RunEnds(s, 2, n);
    assert s[n..] == rest;
  }

  lemma {:induction false} RunEnds(s: seq<Byte>, k: nat, n: nat)
    requires s != [] && 2 <= k <= n <= |s| && n <= 255 && (n < |s| && s[n] == s[0] ==> n == 255)
    requires forall i :: 0 <= i < n ==> s[i] == s[0]
    ensures RunAhead(s, k) == n
    decreases n - k
  {
    if k < n {
      RunEnds(s, k + 1, n);
    }
  }

  // No byte has its high bit set.
  predicate Low(s: seq<Byte>) { forall i :: 0 <= i < |s| ==> s[i] < SETUP_COMPRESSED }

  // The client decodes what the server has encoded exactly when no byte of the map has its
  // high bit set.
  lemma CompressedIsDecoded(d: seq<Byte>)
    ensures Decode(Compressed(d)) == Some(d) <==> Low(d)
  {
    if Low(d) {
      LowIsDecoded(d);
    } else if Decode(Compressed(d)).Some? {
      DecodedIsLow(Compressed(d));
    }
  }

  lemma {:induction false} LowIsDecoded(d: seq<Byte>)
    requires Low(d)
    ensures Decode(Compressed(d)) == Some(d)
  {
    if d == [] {
    } else if |d| > 1 && d[0] == d[1] {
      var k := RunAhead(d, 2);
      RestIsLow(d, k);
      LowIsDecoded(d[k..]);
      LowRun(d, k);
    } else {
      RestIsLow(d, 1);
      LowIsDecoded(d[1..]);
      LiteralIsDecoded(d[0], Compressed(d[1..]));
      assert d == [d[0]] + d[1..];
    }
  }

  lemma LowRun(d: seq<Byte>, k: nat)
    requires Low(d) && |d| > 1 && d[0] == d[1] && k == RunAhead(d, 2) && Decode(Compressed(d[k..])) == Some(d[k..])
    ensures Decode(Compressed(d)) == Some(d)
  {
    RunIsDecoded(d[0], k, Compressed(d[k..]));
    RunAndRest(d, k);
  }

  lemma RestIsLow(d: seq<Byte>, k: nat)
    requires Low(d) && k <= |d|
    ensures Low(d[k..])
  {
  }

  lemma RunAndRest(d: seq<Byte>, k: nat)
    requires 2 <= k <= |d| && d[0] == d[1] && forall i :: 2 <= i < k ==> d[i] == d[0]
    ensures d == Repeat(d[0], k) + d[k..]
  {
  }

  lemma RunIsDecoded(b: Byte, k: Byte, rest: seq<Byte>)
    requires b < SETUP_COMPRESSED && 2 <= k && Decode(rest).Some?
    ensures Decode([b + SETUP_COMPRESSED, k] + rest) == Some(Repeat(b, k) + Decode(rest).value)
  {
    OneRun(b + SETUP_COMPRESSED, k);
    DecodeJoined([b + SETUP_COMPRESSED, k], rest);
  }

  lemma LiteralIsDecoded(b: Byte, rest: seq<Byte>)
    requires b < SETUP_COMPRESSED && Decode(rest).Some?
    ensures Decode([b] + rest) == Some([b] + Decode(rest).value)
  {
    OneLiteral(b);
    DecodeJoined([b], rest);
  }

  lemma {:induction false} DecodedIsLow(s: seq<Byte>)
    requires Decode(s).Some?
    ensures Low(Decode(s).value)
  {
    if s != [] {
      DecodedIsLow(s[if High(s[0]) then 2 else 1..]);
    }
  }

  // The encoding needs no more room than the map, so it can be written in its place.
  lemma {:induction false} CompressedIsShorter(s: seq<Byte>)
    ensures |Compressed(s)| <= |s|
  {
    if s == [] {
    } else if |s| > 1 && s[0] == s[1] {
      CompressedIsShorter(s[RunAhead(s, 2)..]);
    } else {
      CompressedIsShorter(s[1..]);
    }
  }

  // ---- Encoding in place ----

  // Of the bytes s of the map those up to i have been encoded into the first j; the bytes
  // behind them are still there.
  ghost predicate Packing(data: seq<Byte>, whole: seq<Byte>, size: nat, i: int, j: int) {
    && 0 <= j <= i <= size <= |whole| && |data| == |whole| && data[i..] == whole[i..]
    && Compressed(whole[..size]) == data[..j] + Compressed(whole[i..size])
  }

  lemma LiteralPacked(data: seq<Byte>, whole: seq<Byte>, size: nat, i: int, j: int)
    requires Packing(data, whole, size, i, j) && i < size && !(i + 1 < size && data[i] == data[i + 1])
    ensures Packing(data[j := data[i]], whole, size, i + 1, j + 1)
  {
    var s := whole[i..size];
    assert data[i..][0] == whole[i..][0] && (i + 1 < size ==> data[i..][1] == whole[i..][1]);
    assert s[1..] == whole[i + 1..size];
    assert data[j := data[i]][..j + 1] == data[..j] + [s[0]];
    Joined(data[..j], [s[0]], Compressed(s[1..]));
    assert data[j := data[i]][i + 1..] == data[i..][1..] == whole[i..][1..] == whole[i + 1..];
  }

  lemma RunPacked(data: seq<Byte>, whole: seq<Byte>, size: nat, i: int, j: int, k: Byte)
    requires Packing(data, whole, size, i, j) && i + 1 < size && data[i] == data[i + 1]
    requires k == RunAhead(whole[i..size], 2)
    ensures 2 <= k <= size - i
    ensures Packing(data[j := SetHigh(data[i])][j + 1 := k], whole, size, i + k, j + 2)
  {
    var s, data' := whole[i..size], data[j := SetHigh(data[i])][j + 1 := k];
    assert data[i..][0] == whole[i..][0] && data[i..][1] == whole[i..][1];
    assert s[k..] == whole[i + k..size];
    assert data'[..j + 2] == data[..j] + [SetHigh(s[0]), k];
    Joined(data[..j], [SetHigh(s[0]), k], Compressed(s[k..]));
    assert data'[i + k..] == data[i..][k..] == whole[i..][k..] == whole[i + k..];
  }

  lemma Joined(a: seq<Byte>, b: seq<Byte>, c: seq<Byte>)
    ensures a + (b + c) == a + b + c
  {
  }

  // The number of times that the byte at i is repeated.
  method CountRun(data: array<Byte>, i: nat, size: nat, ghost whole: seq<Byte>) returns (k: nat)
    requires i + 1 < size <= data.Length == |whole| && data[i..] == whole[i..] && data[i] == data[i + 1]
    ensures k == RunAhead(whole[i..size], 2)
  {
    ghost var s := whole[i..size];
    assert forall q :: i <= q < size ==> data[q] == data[i..][q - i] == whole[i..][q - i] == s[q - i];
    k := 2;
    while i + k < size && data[i] == data[i + k] && k < LONGEST_RUN
      invariant 2 <= k <= LONGEST_RUN && i + k <= size && RunAhead(s, 2) == RunAhead(s, k)
    {
      k := k + 1;
    }
  }

  // One token: a byte that is repeated and its number, or a byte alone.
  method PackToken(data: array<Byte>, size: nat, i0: nat, j0: nat, ghost whole: seq<Byte>) returns (i: nat, j: nat)
    requires Packing(data[..], whole, size, i0, j0) && i0 < size
    modifies data
    ensures i0 < i && Packing(data[..], whole, size, i, j)
  {
    ghost var before := data[..];
    if i0 + 1 < size && data[i0] == data[i0 + 1] {
      assert data[i0..] == before[i0..];
      var k := CountRun(data, i0, size, whole);
      RunPacked(before, whole, size, i0, j0, k);
      data[j0] := SetHigh(data[i0]);
      data[j0 + 1] := k;
      assert data[..] == before[j0 := SetHigh(before[i0])][j0 + 1 := k];
      return i0 + k, j0 + 2;
    }
    LiteralPacked(before, whole, size, i0, j0);
    data[j0] := data[i0];
    assert data[..] == before[j0 := before[i0]];
    return i0 + 1, j0 + 1;
  }

  // Writes the encoding of the first bytes over them, and returns its length.
  method CompressMap(data: array<Byte>, size: nat) returns (j: nat)
    requires size <= data.Length
    modifies data
    ensures j <= size && data[..j] == Compressed(old(data[..size]))
    ensures data[size..] == old(data[size..])
  {
    ghost var whole := data[..];
    var i := 0;
    j := 0;
    while i < size
      invariant i <= size && Packing(data[..], whole, size, i, j)
    {
      i, j := PackToken(data, size, i, j, whole);
    }
    assert data[..][size..] == whole[size..];
  }
}
