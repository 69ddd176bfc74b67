/** The buffer of Uncompress_map of netclient.c while the run-length encoding is undone
    in place, from the back of the buffer to its front. */
module Unpacker {
  import opened Options
  import opened Bytes
  import opened RunLength

  // The buffer during decompression: the bytes up to cmp are still to be read,
  // those above ump are written, and `slack` places will be left over.
  ghost predicate Unpacking(a: seq<Byte>, s: seq<Byte>, size: int, cmp: int, ump: int, slack: nat) {
    && -1 <= cmp < |s| && cmp <= ump < size <= |a|
    && Decode(s).Some? && Decode(s[..cmp + 1]).Some?
    && a[..cmp + 1] == s[..cmp + 1]
    && ump + 1 == |Decode(s[..cmp + 1]).value| + slack
    && Decode(s).value == Decode(s[..cmp + 1]).value + a[ump + 1..size]
  }

  // The last run fits between the unread bytes and the bytes written.
  lemma RoomForRun(a: seq<Byte>, s: seq<Byte>, size: int, cmp: int, ump: int, slack: nat)
    requires Unpacking(a, s, size, cmp, ump, slack) && cmp >= 0 && EndsInRun(s[..cmp + 1])
    ensures a[cmp] == s[cmp] >= 2 && a[cmp - 1] == s[cmp - 1]
    ensures cmp - 1 <= ump - s[cmp] + 1
    ensures s[..cmp + 1][..cmp - 1] == s[..cmp - 1] && Decode(s[..cmp - 1]).Some?
    ensures Decode(s[..cmp + 1]) == Some(Decode(s[..cmp - 1]).value + Repeat(ClearHigh(s[cmp - 1]), s[cmp]))
  {
    var t := s[..cmp + 1];
    assert t[..cmp - 1] == s[..cmp - 1];
    assert a[cmp] == a[..cmp + 1][cmp] && a[cmp - 1] == a[..cmp + 1][cmp - 1];
    DecodeIsLonger(s[..cmp - 1]);
    RunDecodes(t);
  }

  // The buffer after the byte at cmp has been cleared and written n times.
  ghost predicate Filled(a: seq<Byte>, b: seq<Byte>, cmp: int, ump: int, n: int) {
    && 0 <= cmp <= ump - n + 1 && 0 <= n && ump < |a| == |b|
    && (forall k :: 0 <= k < cmp ==> b[k] == a[k])
    && (forall k :: ump - n < k <= ump ==> b[k] == ClearHigh(a[cmp]))
    && (forall k :: ump < k < |a| ==> b[k] == a[k])
  }

  lemma FilledSlices(a: seq<Byte>, b: seq<Byte>, cmp: int, ump: int, n: int, size: int)
    requires Filled(a, b, cmp, ump, n) && cmp <= ump < size <= |a|
    ensures b[..cmp] == a[..cmp]
    ensures b[ump - n + 1..size] == Repeat(ClearHigh(a[cmp]), n) + a[ump + 1..size]
  {
  }

  // Writing the last run over the place below the written bytes unpacks it.
  lemma RunUnpacked(a: seq<Byte>, b: seq<Byte>, s: seq<Byte>, size: int, cmp: int, cmp1: int,
                    ump: int, ump1: int, slack: nat)
    requires Unpacking(a, s, size, cmp, ump, slack) && cmp >= 0 && EndsInRun(s[..cmp + 1])
    requires Filled(a, b, cmp - 1, ump, s[cmp]) && cmp1 == cmp - 2 && ump1 == ump - s[cmp]
    ensures Unpacking(b, s, size, cmp1, ump1, slack)
  {
    RoomForRun(a, s, size, cmp, ump, slack);
    DecodeIsLonger(s[..cmp - 1]);
    FilledSlices(a, b, cmp - 1, ump, s[cmp], size);
    FrontIsLeft(a, b, s, cmp, cmp - 1);
    Appended(Decode(s).value, Decode(s[..cmp - 1]).value, Repeat(ClearHigh(a[cmp - 1]), s[cmp]), a[ump + 1..size]);
  }

  lemma FrontIsLeft(a: seq<Byte>, b: seq<Byte>, s: seq<Byte>, cmp: int, k: int)
    requires 0 <= k <= cmp < |s| && cmp < |a| && k <= |b| && a[..cmp + 1] == s[..cmp + 1] && b[..k] == a[..k]
    ensures b[..k] == s[..k]
  {
    assert a[..cmp + 1][..k] == a[..k] && s[..cmp + 1][..k] == s[..k];
  }

  lemma Appended(whole: seq<Byte>, front: seq<Byte>, last: seq<Byte>, written: seq<Byte>)
    requires whole == (front + last) + written
    ensures whole == front + (last + written)
  {
  }

  // Copying the last byte, a literal, to the place below the written bytes unpacks it.
  lemma LiteralUnpacked(a: seq<Byte>, s: seq<Byte>, size: int, cmp: int, ump: int, slack: nat)
    requires Unpacking(a, s, size, cmp, ump, slack) && cmp >= 0 && EndsInLiteral(s[..cmp + 1])
    ensures Unpacking(a[ump := a[cmp]], s, size, cmp - 1, ump - 1, slack)
  {
    var t, b := s[..cmp + 1], a[ump := a[cmp]];
    assert t[..cmp] == s[..cmp];
    assert a[cmp] == a[..cmp + 1][cmp];
    DecodeIsLonger(s[..cmp]);
    LiteralDecodes(t);
    FrontIsLeft(a, b, s, cmp, cmp);
    assert b[ump..size] == [a[cmp]] + a[ump + 1..size];
    Appended(Decode(s).value, Decode(s[..cmp]).value, [a[cmp]], a[ump + 1..size]);
  }

  // When nothing is left to read, the unwritten places are the slack.
  lemma Unpacked(a: seq<Byte>, s: seq<Byte>, size: int, cmp: int, ump: int, slack: nat)
    requires Unpacking(a, s, size, cmp, ump, slack) && cmp < 0
    ensures ump + 1 == slack && Decode(s).value == a[slack..size]
  {
    assert s[..0] == [];
  }
}
