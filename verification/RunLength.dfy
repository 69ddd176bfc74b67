/** The run-length encoding of the map data, read from its front as the server
    wrote it, and what can be told about its last token from its back. */
module RunLength {
  import opened Options
  import opened Bytes


  const SETUP_COMPRESSED := 0x80

  predicate High(b: Byte) { b >= SETUP_COMPRESSED }

  function ClearHigh(b: Byte): Byte { b % SETUP_COMPRESSED }

  function Repeat(b: Byte, n: nat): (r: seq<Byte>)
    ensures |r| == n && forall i :: 0 <= i < n ==> r[i] == b
  {
    seq(n, _ => b)
  }

  // Decoding from the front: a byte with its high bit set is followed by a count
  // of at least 2, any other byte stands for itself.
  function Decode(s: seq<Byte>): Option<seq<Byte>> {
    if s == [] then Some([])
    else if !High(s[0]) then
      match Decode(s[1..])
      case None => None
      case Some(rest) => Some([s[0]] + rest)
    else if |s| == 1 || s[1] < 2 then None
    else
      match Decode(s[2..])
      case None => None
      case Some(rest) => Some(Repeat(ClearHigh(s[0]), s[1]) + rest)
  }

  // Decoding never shortens: every token stands for at least its own length.
  lemma {:induction false} DecodeIsLonger(s: seq<Byte>)
    requires Decode(s).Some?
    ensures |Decode(s).value| >= |s|
  {
    if s == [] {
    } else if !High(s[0]) {
      DecodeIsLonger(s[1..]);
    } else {
      DecodeIsLonger(s[2..]);
    }
  }

  // Exactly n bytes with the high bit set stand directly before the last byte.
  ghost predicate HighRun(s: seq<Byte>, n: int) {
    && 0 <= n < |s|
    && (forall i :: |s| - 1 - n <= i < |s| - 1 ==> High(s[i]))
    && (n < |s| - 1 ==> !High(s[|s| - 2 - n]))
  }

  // Decoding is done token by token: two encodings can be joined.
  lemma {:induction false} DecodeJoined(s: seq<Byte>, t: seq<Byte>)
    requires Decode(s).Some? && Decode(t).Some?
    ensures Decode(s + t) == Some(Decode(s).value + Decode(t).value)
  {
    if s == [] {
      assert s + t == t && [] + Decode(t).value == Decode(t).value;
    } else {
      var k := if High(s[0]) then 2 else 1;
      DecodeJoined(s[k..], t);
      assert (s + t)[k..] == s[k..] + t && (s + t)[0] == s[0] && (k == 2 ==> (s + t)[1] == s[1]);
      var head := if High(s[0]) then Repeat(ClearHigh(s[0]), s[1]) else [s[0]];
      Associated(head, Decode(s[k..]).value, Decode(t).value);
    }
  }

  lemma Associated(a: seq<Byte>, b: seq<Byte>, c: seq<Byte>)
    ensures a + (b + c) == a + b + c
  {
  }

  // The last byte is a token of its own.
  ghost predicate EndsInLiteral(s: seq<Byte>) {
    1 <= |s| && !High(s[|s| - 1]) && Decode(s[..|s| - 1]).Some?
  }

  // The last two bytes are a token: a byte to repeat and a count.
  ghost predicate EndsInRun(s: seq<Byte>) {
    2 <= |s| && High(s[|s| - 2]) && s[|s| - 1] >= 2 && Decode(s[..|s| - 2]).Some?
  }

  // The parity of the high-bit run before the last byte tells what the last byte
  // is: a literal after an even run, a count after an odd one.
  lemma {:induction false} LastToken(s: seq<Byte>, n: int)
    requires Decode(s).Some? && HighRun(s, n)
    ensures if Even(n) then EndsInLiteral(s) else EndsInRun(s)
    decreases |s|
  {
    var k := if High(s[0]) then 2 else 1;
    if |s| > k {
      var t := s[k..];
      LastToken(t, if n < |t| then n else n - 2);
      assert s[..|s| - 1][k..] == t[..|t| - 1];
      if |t| >= 2 {
        assert s[..|s| - 2][k..] == t[..|t| - 2];
      }
    }
  }

  lemma LiteralDecodes(s: seq<Byte>)
    requires EndsInLiteral(s)
    ensures Decode(s) == Some(Decode(s[..|s| - 1]).value + [s[|s| - 1]])
  {
    var last := [s[|s| - 1]];
    OneLiteral(s[|s| - 1]);
    DecodeJoined(s[..|s| - 1], last);
    assert s[..|s| - 1] + last == s;
  }

  lemma OneLiteral(b: Byte)
    requires !High(b)
    ensures Decode([b]) == Some([b])
  {
    assert [b][1..] == [] && [b] + [] == [b];
  }

  lemma RunDecodes(s: seq<Byte>)
    requires EndsInRun(s)
    ensures Decode(s) == Some(Decode(s[..|s| - 2]).value + Repeat(ClearHigh(s[|s| - 2]), s[|s| - 1]))
  {
    var front, last := s[..|s| - 2], [s[|s| - 2], s[|s| - 1]];
    assert s == front + last;
    OneRun(s[|s| - 2], s[|s| - 1]);
    DecodeJoined(front, last);
  }

  lemma OneRun(b: Byte, n: Byte)
    requires High(b) && n >= 2
    ensures Decode([b, n]) == Some(Repeat(ClearHigh(b), n))
  {
    var run := Repeat(ClearHigh(b), n);
    assert [b, n][2..] == [] && run + [] == run;
  }

  predicate Even(n: int) { n % 2 == 0 }

  lemma EvenSteps(n: int)
    ensures Even(n - 1) != Even(n) && Even(n - 2) == Even(n)
  {
  }

  // Without a literal at its end, an even run before it has an odd one before
  // its own last byte.
  lemma RunWithoutLiteral(s: seq<Byte>, cmp: int, p: int)
    requires RunBefore(s, cmp, p) && p < cmp && Even(cmp - p)
    ensures RunBefore(s, cmp - 1, p) && !Even(cmp - 1 - p)
  {
    EvenSteps(cmp - p);
  }

  // The run of high bytes from p up to the byte at cmp.
  ghost predicate RunBefore(s: seq<Byte>, cmp: int, p: int) {
    && 0 <= p <= cmp < |s|
    && (forall i :: p <= i < cmp ==> High(s[i]))
    && (p > 0 ==> !High(s[p - 1]))
  }

  lemma TokenAt(s: seq<Byte>, cmp: int, p: int)
    requires RunBefore(s, cmp, p) && Decode(s[..cmp + 1]).Some?
    ensures if Even(cmp - p) then EndsInLiteral(s[..cmp + 1]) else EndsInRun(s[..cmp + 1])
  {
    LastToken(s[..cmp + 1], cmp - p);
  }
}
