/** Utf8_prefix of native_text.c, against the UTF-8 encodings of RFC 3629. */
module Utf8 {
  import opened Bytes

  // ---- The encodings of section 3 of RFC 3629 ----

  // A code point that may be encoded: not a surrogate.
  predicate IsScalar(x: int) {
    0 <= x <= 0x10FFFF && !(0xD800 <= x <= 0xDFFF)
  }

  function Encode(x: int): (s: seq<Byte>)
    requires IsScalar(x)
    ensures 1 <= |s| <= 4
  {
    var p, q, r := x / 64, x / 64 / 64, x / 64 / 64 / 64;
    if x < 0x80 then [x]
    else if x < 0x800 then [0xC0 + p, Tail(x)]
    else if x < 0x10000 then [0xE0 + q, Tail(p), Tail(x)]
    else [0xF0 + r, Tail(q), Tail(p), Tail(x)]
  }

  // A byte with the last six bits.
  function Tail(x: nat): Byte { 0x80 + x % 64 }

  function EncodeAll(text: seq<int>): seq<Byte>
    requires forall i :: 0 <= i < |text| ==> IsScalar(text[i])
  {
    if text == [] then [] else Encode(text[0]) + EncodeAll(text[1..])
  }

  ghost predicate IsText(text: seq<int>) {
    forall i :: 0 <= i < |text| ==> IsScalar(text[i])
  }

  ghost predicate IsUtf8(s: seq<Byte>) {
    exists text :: IsText(text) && EncodeAll(text) == s
  }

  // ---- The byte sequences of section 4 ----

  predicate IsTail(b: Byte) { 0x80 <= b <= 0xBF }

  ghost predicate IsChar(s: seq<Byte>) {
    || (|s| == 1 && s[0] <= 0x7F)
    || (|s| == 2 && 0xC2 <= s[0] <= 0xDF && IsTail(s[1]))
    || (|s| == 3 && IsTail(s[2])
        && (|| (s[0] == 0xE0 && 0xA0 <= s[1] <= 0xBF)
            || (0xE1 <= s[0] <= 0xEC && IsTail(s[1]))
            || (s[0] == 0xED && 0x80 <= s[1] <= 0x9F)
            || (0xEE <= s[0] <= 0xEF && IsTail(s[1]))))
    || (|s| == 4 && IsTail(s[2]) && IsTail(s[3])
        && (|| (s[0] == 0xF0 && 0x90 <= s[1] <= 0xBF)
            || (0xF1 <= s[0] <= 0xF3 && IsTail(s[1]))
            || (s[0] == 0xF4 && 0x80 <= s[1] <= 0x8F)))
  }

  // How many bytes a sequence has that starts with this one; 0 if none does.
  function LengthFor(lead: Byte): nat {
    if lead <= 0x7F then 1
    else if 0xC2 <= lead <= 0xDF then 2
    else if 0xE0 <= lead <= 0xEF then 3
    else if 0xF0 <= lead <= 0xF4 then 4
    else 0
  }

  // The bits of a first byte of a sequence of n, and six more bits behind others.
  function LeadBits(lead: Byte, n: nat): int {
    if n == 1 then lead else if n == 2 then lead as int % 32 else if n == 3 then lead as int % 16 else lead as int % 8
  }

  function Join(bits: int, tail: Byte): int { bits * 64 + tail as int % 64 }

  // The code point of a sequence, from its first n bytes.
  function Joined(s: seq<Byte>, n: nat): int
    requires 1 <= n <= |s|
  {
    if n == 1 then LeadBits(s[0], |s|) else Join(Joined(s, n - 1), s[n - 1])
  }

  function Decode(s: seq<Byte>): int
    requires s != []
  {
    Joined(s, |s|)
  }

  lemma JoinedSteps(s: seq<Byte>)
    requires 1 <= |s| <= 4
    ensures Joined(s, 1) == LeadBits(s[0], |s|)
    ensures |s| >= 2 ==> Joined(s, 2) == Join(Joined(s, 1), s[1])
    ensures |s| >= 3 ==> Joined(s, 3) == Join(Joined(s, 2), s[2])
    ensures |s| >= 4 ==> Joined(s, 4) == Join(Joined(s, 3), s[3])
  {
  }

  // A code point as the sum of what the bytes stand for.
  function Weighed(s: seq<Byte>): int
    requires 1 <= |s| <= 4
  {
    if |s| == 1 then s[0]
    else if |s| == 2 then (s[0] as int - 0xC0) * 64 + (s[1] as int - 0x80)
    else if |s| == 3 then (s[0] as int - 0xE0) * 4096 + (s[1] as int - 0x80) * 64 + (s[2] as int - 0x80)
    else (s[0] as int - 0xF0) * 262144 + (s[1] as int - 0x80) * 4096 + (s[2] as int - 0x80) * 64 + (s[3] as int - 0x80)
  }

  ghost predicate HasTails(s: seq<Byte>) {
    1 <= |s| <= 4 && LengthFor(s[0]) == |s| && forall i :: 1 <= i < |s| ==> IsTail(s[i])
  }

  lemma LeadIsOffset(lead: Byte)
    ensures LengthFor(lead) == 2 ==> LeadBits(lead, 2) == lead as int - 0xC0
    ensures LengthFor(lead) == 3 ==> LeadBits(lead, 3) == lead as int - 0xE0
    ensures LengthFor(lead) == 4 ==> LeadBits(lead, 4) == lead as int - 0xF0
  {
  }

  lemma JoinAdds(bits: int, tail: Byte)
    requires IsTail(tail)
    ensures Join(bits, tail) == bits * 64 + (tail as int - 0x80)
  {
  }

  lemma DecodeWeighs(s: seq<Byte>)
    requires HasTails(s)
    ensures Decode(s) == Weighed(s)
  {
    JoinedSteps(s);
    LeadIsOffset(s[0]);
    if |s| >= 2 {
      JoinAdds(Joined(s, 1), s[1]);
    }
    if |s| >= 3 {
      JoinAdds(Joined(s, 2), s[2]);
    }
    if |s| == 4 {
      JoinAdds(Joined(s, 3), s[3]);
    }
  }

  lemma SplitByTail(x: nat)
    ensures x == x / 64 * 64 + (Tail(x) as int - 0x80) && IsTail(Tail(x))
  {
  }

  lemma EncodedIsChar(x: int)
    requires IsScalar(x)
    ensures IsChar(Encode(x)) && Decode(Encode(x)) == x
  {
    SplitByTail(x);
    SplitByTail(x / 64);
    SplitByTail(x / 64 / 64);
    DecodeWeighs(Encode(x));
  }

  lemma SplitIsUnique(x: nat, p: nat, tail: Byte)
    requires IsTail(tail) && x == p * 64 + (tail as int - 0x80)
    ensures x / 64 == p && Tail(x) == tail
  {
  }

  lemma CharIsEncoded(s: seq<Byte>)
    requires IsChar(s)
    ensures IsScalar(Decode(s)) && Encode(Decode(s)) == s
  {
    DecodeWeighs(s);
    var x := Decode(s);
    if |s| == 2 {
      SplitIsUnique(x, s[0] as int - 0xC0, s[1]);
    } else if |s| == 3 {
      SplitThree(x, s[0] as int - 0xE0, s[1], s[2]);
    } else if |s| == 4 {
      SplitThree(x, (s[0] as int - 0xF0) * 64 + (s[1] as int - 0x80), s[2], s[3]);
      SplitIsUnique(x / 64 / 64, s[0] as int - 0xF0, s[1]);
    }
  }

  lemma SplitThree(x: nat, p: nat, b: Byte, c: Byte)
    requires IsTail(b) && IsTail(c) && x == p * 4096 + (b as int - 0x80) * 64 + (c as int - 0x80)
    ensures x / 64 / 64 == p && Tail(x / 64) == b && Tail(x) == c
  {
    SplitIsUnique(x, p * 64 + (b as int - 0x80), c);
    SplitIsUnique(x / 64, p, b);
  }

  // ---- The function ----

  datatype Status = Ok(prefix: nat) | Invalid

  ghost function PrefixOf(s: seq<Byte>, allowIncomplete: bool): Status
    decreases |s|
  {
    if s == [] then Ok(0)
    else
      var n := LengthFor(s[0]);
      if n == 0 then Invalid
      else if n > |s| then (if allowIncomplete then Ok(0) else Invalid)
      else if !IsChar(s[..n]) then Invalid
      else
        match PrefixOf(s[n..], allowIncomplete)
        case Ok(k) => Ok(n + k)
        case Invalid => Invalid
  }

  // Up to offset there are whole characters.
  ghost predicate Reached(s: seq<Byte>, allow: bool, offset: nat) {
    offset <= |s| && PrefixOf(s, allow) == Plus(offset, PrefixOf(s[offset..], allow))
  }

  lemma NextReached(s: seq<Byte>, allow: bool, offset: nat)
    requires offset < |s| && Reached(s, allow, offset)
    ensures var n := LengthFor(s[offset]);
      if n == 0 then PrefixOf(s, allow) == Invalid
      else if n > |s| - offset then PrefixOf(s, allow) == if allow then Ok(offset) else Invalid
      else if !IsChar(s[offset..offset + n]) then PrefixOf(s, allow) == Invalid
      else Reached(s, allow, offset + n)
  {
    var n, here := LengthFor(s[offset]), s[offset..];
    if n <= |here| {
      assert here[..n] == s[offset..offset + n] && here[n..] == s[offset + n..];
    }
  }

  method Prefix(s: seq<Byte>, allowIncomplete: bool) returns (status: Status)
    ensures status == PrefixOf(s, allowIncomplete)
  {
    var offset := 0;
    assert s[0..] == s;
    while offset < |s|
      invariant 0 <= offset <= |s| && Reached(s, allowIncomplete, offset)
    {
      var lead := s[offset];
      NextReached(s, allowIncomplete, offset);
      if lead <= 0x7F {
        offset := offset + 1;
        continue;
      }
      var length := 0;
      if 0xC2 <= lead <= 0xDF {
        length := 2;
      } else if 0xE0 <= lead <= 0xEF {
        length := 3;
      } else if 0xF0 <= lead <= 0xF4 {
        length := 4;
      } else {
        return Invalid;
      }
      if length > |s| - offset {
        return if allowIncomplete then Ok(offset) else Invalid;
      }
      var c := s[offset..offset + length];
      var codepoint, tails := ReadTails(c);
      CheckedIsChar(c);
      if !tails || !Checked(length, codepoint) {
        return Invalid;
      }
      offset := offset + length;
    }
    return Ok(offset);
  }

  function Plus(offset: nat, r: Status): Status {
    match r
    case Ok(k) => Ok(offset + k)
    case Invalid => Invalid
  }

  // The bits of the sequence after its first byte, unless one of them is no tail.
  method ReadTails(c: seq<Byte>) returns (codepoint: int, tails: bool)
    requires 2 <= |c| <= 4
    ensures tails <==> forall i :: 1 <= i < |c| ==> IsTail(c[i])
    ensures tails ==> codepoint == Decode(c)
  {
    codepoint := LeadBits(c[0], |c|);
    var i := 1;
    while i < |c|
      invariant 1 <= i <= |c| && codepoint == Joined(c, i)
      invariant forall j :: 1 <= j < i ==> IsTail(c[j])
    {
      if c[i] as int / 64 != 2 {
        return codepoint, false;
      }
      codepoint := Join(codepoint, c[i]);
      i := i + 1;
    }
    tails := true;
  }

  predicate Checked(n: nat, codepoint: int) {
    && !(n == 3 && codepoint < 0x800) && !(n == 4 && codepoint < 0x10000)
    && codepoint <= 0x10FFFF && !(0xD800 <= codepoint <= 0xDFFF)
  }

  // With a fitting first byte and tails after it, the checks on the code point leave
  // exactly the sequences of the standard.
  lemma CheckedIsChar(c: seq<Byte>)
    requires 2 <= |c| <= 4 && LengthFor(c[0]) == |c|
    ensures IsChar(c) <==> (forall i :: 1 <= i < |c| ==> IsTail(c[i])) && Checked(|c|, Decode(c))
  {
    if HasTails(c) {
      DecodeWeighs(c);
    }
  }

  // ---- Strict mode accepts exactly UTF-8 ----

  lemma FirstChar(c: seq<Byte>, rest: seq<Byte>, allow: bool)
    requires IsChar(c)
    ensures PrefixOf(c + rest, allow) == Plus(|c|, PrefixOf(rest, allow))
  {
    var s := c + rest;
    assert s[0] == c[0] && LengthFor(c[0]) == |c| && s[..|c|] == c && s[|c|..] == rest;
  }

  lemma {:induction false} EncodedHasPrefix(text: seq<int>, allow: bool)
    requires IsText(text)
    ensures PrefixOf(EncodeAll(text), allow) == Ok(|EncodeAll(text)|)
  {
    if text != [] {
      EncodedIsChar(text[0]);
      FirstChar(Encode(text[0]), EncodeAll(text[1..]), allow);
      EncodedHasPrefix(text[1..], allow);
    }
  }

  // The prefix is a text, and what is left of it, if anything, is a lead byte that
  // asks for more bytes than there are.
  lemma {:induction false} PrefixIsText(s: seq<Byte>, allow: bool) returns (text: seq<int>)
    requires PrefixOf(s, allow).Ok?
    ensures PrefixOf(s, allow).prefix <= |s|
    ensures IsText(text) && EncodeAll(text) == s[..PrefixOf(s, allow).prefix]
    ensures var k := PrefixOf(s, allow).prefix; k == |s| || (allow && LengthFor(s[k]) > |s| - k)
    decreases |s|
  {
    text := [];
    if s != [] && LengthFor(s[0]) <= |s| {
      var n := LengthFor(s[0]);
      var k := PrefixOf(s[n..], allow).prefix;
      CharIsEncoded(s[..n]);
      var rest := PrefixIsText(s[n..], allow);
      text := [Decode(s[..n])] + rest;
      assert text[1..] == rest;
      SliceOfSlice(s, n, n + k);
    }
  }

  lemma StrictIsExact(s: seq<Byte>)
    ensures PrefixOf(s, false).Ok? <==> IsUtf8(s)
    ensures PrefixOf(s, false).Ok? ==> PrefixOf(s, false) == Ok(|s|)
  {
    if PrefixOf(s, false).Ok? {
      var text := PrefixIsText(s, false);
      assert s[..|s|] == s;
    }
    if IsUtf8(s) {
      var text :| IsText(text) && EncodeAll(text) == s;
      EncodedHasPrefix(text, false);
    }
  }

  // A string has at most one reading.
  lemma {:induction false} DecodingIsUnique(a: seq<int>, b: seq<int>)
    requires IsText(a) && IsText(b) && EncodeAll(a) == EncodeAll(b)
    ensures a == b
  {
    if a != [] && b != [] {
      var s, c, d := EncodeAll(a), Encode(a[0]), Encode(b[0]);
      EncodedIsChar(a[0]);
      EncodedIsChar(b[0]);
      assert c[0] == s[0] && d[0] == s[0];
      assert |c| == LengthFor(s[0]) && |d| == LengthFor(s[0]);
      assert c == s[..|c|] && d == s[..|d|];
      assert EncodeAll(a[1..]) == s[|c|..] && EncodeAll(b[1..]) == s[|d|..];
      DecodingIsUnique(a[1..], b[1..]);
      assert a == [a[0]] + a[1..] && b == [b[0]] + b[1..];
    }
  }

  // ---- Prefix mode ----

  // Cut within its first character, a text has no prefix.
  lemma CutInFirst(text: seq<int>, cut: nat)
    requires IsText(text) && text != [] && cut < |Encode(text[0])|
    ensures PrefixOf(EncodeAll(text)[..cut], true) == Ok(0)
  {
    EncodedIsChar(text[0]);
    var c := Encode(text[0]);
    assert cut > 0 ==> EncodeAll(text)[..cut][0] == c[0];
    assert LengthFor(c[0]) == |c|;
  }

  // Cut behind it, it has that character and the prefix of the rest.
  lemma CutBehindFirst(text: seq<int>, cut: nat)
    requires IsText(text) && text != [] && |Encode(text[0])| <= cut <= |EncodeAll(text)|
    ensures var c := Encode(text[0]);
      PrefixOf(EncodeAll(text)[..cut], true) == Plus(|c|, PrefixOf(EncodeAll(text[1..])[..cut - |c|], true))
  {
    EncodedIsChar(text[0]);
    var c, rest := Encode(text[0]), EncodeAll(text[1..]);
    CutRest(c, rest, cut);
    FirstChar(c, rest[..cut - |c|], true);
  }

  lemma CutRest(c: seq<Byte>, rest: seq<Byte>, cut: nat)
    requires |c| <= cut <= |c| + |rest|
    ensures (c + rest)[..cut] == c + rest[..cut - |c|]
  {
  }

  lemma FirstAdds(text: seq<int>, j: nat)
    requires IsText(text) && 0 < j <= |text|
    ensures |EncodeAll(text[..j])| == |Encode(text[0])| + |EncodeAll(text[1..][..j - 1])|
  {
    assert text[..j][1..] == text[1..][..j - 1];
  }

  // However a text is cut, the prefix is its largest part of whole code points that
  // is not past the cut.
  lemma {:induction false} CutAtBoundary(text: seq<int>, cut: nat) returns (j: nat)
    requires IsText(text) && cut <= |EncodeAll(text)|
    ensures j <= |text| && PrefixOf(EncodeAll(text)[..cut], true) == Ok(|EncodeAll(text[..j])|)
    ensures |EncodeAll(text[..j])| <= cut && (j < |text| ==> cut < |EncodeAll(text[..j + 1])|)
  {
    j := 0;
    if text != [] {
      var n := |Encode(text[0])|;
      if cut < n {
        CutInFirst(text, cut);
        FirstAdds(text, 1);
      } else {
        CutBehindFirst(text, cut);
        j := CutAtBoundary(text[1..], cut - n);
        j := j + 1;
        FirstAdds(text, j);
        if j < |text| {
          FirstAdds(text, j + 1);
        }
      }
    }
  }

  // Exactly what prefix mode accepts. The bytes after an incomplete lead byte are
  // not looked at, so this is more than all the cuts of texts.
  lemma PrefixIsExact(s: seq<Byte>, k: nat)
    requires k <= |s|
    ensures PrefixOf(s, true) == Ok(k) <==> IsUtf8(s[..k]) && (k == |s| || LengthFor(s[k]) > |s| - k)
  {
    if PrefixOf(s, true) == Ok(k) {
      var text := PrefixIsText(s, true);
    }
    if IsUtf8(s[..k]) && (k == |s| || LengthFor(s[k]) > |s| - k) {
      var text :| IsText(text) && EncodeAll(text) == s[..k];
      TextThenRest(text, s, k);
    }
  }

  lemma {:induction false} TextThenRest(text: seq<int>, s: seq<Byte>, k: nat)
    requires IsText(text) && k <= |s| && EncodeAll(text) == s[..k] && (k == |s| || LengthFor(s[k]) > |s| - k)
    ensures PrefixOf(s, true) == Ok(k)
  {
    if text != [] {
      var c := Encode(text[0]);
      EncodedIsChar(text[0]);
      BehindFirst(c, EncodeAll(text[1..]), s, k);
      FirstChar(c, s[|c|..], true);
      TextThenRest(text[1..], s[|c|..], k - |c|);
    }
  }

  lemma BehindFirst(c: seq<Byte>, rest: seq<Byte>, s: seq<Byte>, k: nat)
    requires k <= |s| && c + rest == s[..k]
    ensures s == c + s[|c|..] && rest == s[|c|..][..k - |c|]
  {
    SliceOfSlice(s, |c|, k);
    assert s[..k][..|c|] == c && s[..k][|c|..] == rest;
  }

  lemma SliceOfSlice(s: seq<Byte>, n: nat, k: nat)
    requires n <= k <= |s|
    ensures s[..k][n..] == s[n..][..k - n] && s[..k] == s[..n] + s[n..][..k - n]
  {
  }

  // A lead byte and a letter: accepted as an empty prefix, though no text begins so.
  lemma NotACut(text: seq<int>)
    requires IsText(text)
    ensures PrefixOf([0xE2, 0x41], true) == Ok(0) && !([0xE2, 0x41] <= EncodeAll(text))
  {
    if text != [] {
      EncodedIsChar(text[0]);
      assert |Encode(text[0])| == 1 ==> EncodeAll(text)[0] <= 0x7F;
      assert |Encode(text[0])| > 1 ==> EncodeAll(text)[1] == Encode(text[0])[1];
    }
  }
}
