/** When the greedy "head first" of Msg_match_fmt makes a format miss messages that
    fit it. */
module HeadFirst {
  import opened MsgFormats

  // A place in the list of words for the shortest one.
  function Shortest(item: Item): nat { if item.Head? then 1 else 0 }

  function ShortestWord(item: Item, nick: string): string
    requires !item.Unknown?
  {
    Words(item, [nick])[Shortest(item)]
  }

  lemma NoneShorter(item: Item, nick: string, k: nat)
    requires !item.Unknown? && k < |Words(item, [nick])|
    ensures |ShortestWord(item, nick)| <= |Words(item, [nick])[k]|
    ensures !item.Head? ==> |Words(item, [nick])[k]| <= |ShortestWord(item, nick)| + 4
  {
  }

  // The shortest message that fits.
  function ShortestMessage(items: seq<Item>, nick: string): string
    requires Unknown !in items
  {
    if items == [] then "" else ShortestWord(items[0], nick) + ShortestMessage(items[1..], nick)
  }

  function ShortestPick(items: seq<Item>): seq<nat> {
    if items == [] then [] else [Shortest(items[0])] + ShortestPick(items[1..])
  }

  lemma {:induction false} ShortestFits(items: seq<Item>, nick: string)
    requires Unknown !in items
    ensures Fits(ShortestMessage(items, nick), items, [nick], ShortestPick(items))
  {
    if items != [] {
      var w, rest := ShortestWord(items[0], nick), ShortestMessage(items[1..], nick);
      ShortestFits(items[1..], nick);
      assert (w + rest)[|w|..] == rest && ShortestPick(items)[1..] == ShortestPick(items[1..]);
    }
  }

  lemma {:induction false} FittingIsLong(msg: string, items: seq<Item>, nick: string, pick: seq<nat>)
    requires Unknown !in items && Fits(msg, items, [nick], pick)
    ensures |ShortestMessage(items, nick)| <= |msg|
    decreases |items|
  {
    if items != [] {
      var word := Words(items[0], [nick])[pick[0]];
      FittingIsLong(msg[|word|..], items[1..], nick, pick[1..]);
      NoneShorter(items[0], nick, pick[0]);
    }
  }

  // The rest of "head first".
  ghost predicate IsTail(h: string) {
    |h| <= |HEAD_FIRST| && h == HEAD_FIRST[|HEAD_FIRST| - |h|..]
  }

  lemma TailOfTail(h: string, n: nat)
    requires IsTail(h) && n <= |h|
    ensures IsTail(h[n..])
  {
  }

  // Where a word can begin within "head first".
  lemma LettersOfHead(j: nat)
    requires j < |HEAD_FIRST|
    ensures HEAD_FIRST[j] !in "wc0123456789"
    ensures HEAD_FIRST[j] == 'a' ==> HEAD_FIRST[j + 1] == 'd'
    ensures HEAD_FIRST[j] == 's' ==> HEAD_FIRST[j + 1] == 't'
    ensures HEAD_FIRST[j] == 't' ==> j + 1 == |HEAD_FIRST|
  {
    assert HEAD_FIRST == [' ', 'h', 'e', 'a', 'd', ' ', 'f', 'i', 'r', 's', 't'];
  }

  // No word of a list is part of "head first".
  lemma ListWordsStandOut(item: Item, k: nat, h: string)
    requires !item.Text? && !item.Nick? && k < |Words(item, [])| && IsTail(h)
    requires Words(item, [])[k] <= h
    ensures Words(item, [])[k] == "" || (item.Head? && h == HEAD_FIRST)
  {
    var w, j := Words(item, [])[k], |HEAD_FIRST| - |h|;
    if item.Head? {
      assert w == HEAD_FIRST ==> j == 0;
    } else {
      assert |w| > 1 ==> w[1] == h[1] == HEAD_FIRST[j + 1];
      FirstLetters(item, k);
      assert w[0] == h[0] == HEAD_FIRST[j];
      LettersOfHead(j);
    }
  }

  lemma FirstLetters(item: Item, k: nat)
    requires !item.Text? && !item.Nick? && !item.Head? && k < |Words(item, [])|
    ensures var w := Words(item, [])[k];
      && w != "" && (w[0] in "wc0123456789" || (|w| > 1 && w[0] in "ast"))
      && (w[0] == 'a' ==> w[1] == ' ') && (w[0] == 's' ==> w[1] == 'm')
  {
  }

  lemma HeadIsNoTail(h: string)
    requires IsTail(h) && h <= HEAD_FIRST && h != ""
    ensures h == HEAD_FIRST
  {
    assert h[0] == ' ' == HEAD_FIRST[|HEAD_FIRST| - |h|];
  }

  // A message that fits the items and begins with h, and a nick for it; too short to
  // fit them once more behind what it has in common with "head first".
  ghost predicate IsReading(items: seq<Item>, h: string, msg: string, nick: string, pick: seq<nat>)
    requires Unknown !in items
  {
    && h <= msg && Fits(msg, items, [nick], pick)
    && |msg| < |ShortestMessage(items, nick)| + |HEAD_FIRST|
  }

  lemma {:induction false} Reading(items: seq<Item>, h: string) returns (msg: string, nick: string, pick: seq<nat>)
    requires Reads(items, h) && Unknown !in items && IsTail(h)
    requires h != HEAD_FIRST || (items != [] && !items[0].Head? && items[0] != Text(""))
    ensures IsReading(items, h, msg, nick, pick)
    decreases |items|
  {
    if h == "" {
      nick, msg, pick := "Z", ShortestMessage(items, "Z"), ShortestPick(items);
      ShortestFits(items, "Z");
    } else if items == [] {
      nick, msg, pick := "Z", h, [];
    } else if items[0].Nick? {
      nick, pick := h + "Z", ShortestPick(items);
      msg := ShortestMessage(items, nick);
      ShortestFits(items, nick);
      assert ShortestWord(items[0], nick) == nick && h <= nick;
    } else {
      var k: nat :| k < |Words(items[0], [])| && ReadsOn(items, h, Words(items[0], [])[k]);
      msg, nick, pick := ReadingOn(items, h, k);
    }
  }

  lemma {:induction false} ReadingOn(items: seq<Item>, h: string, k: nat)
    returns (msg: string, nick: string, pick: seq<nat>)
    requires items != [] && !items[0].Nick? && Unknown !in items && IsTail(h) && h != ""
    requires k < |Words(items[0], [])| && ReadsOn(items, h, Words(items[0], [])[k])
    requires h != HEAD_FIRST || (!items[0].Head? && items[0] != Text(""))
    ensures IsReading(items, h, msg, nick, pick)
    decreases |items|, 0
  {
    var word := Words(items[0], [])[k];
    var rest, next;
    if h <= word {
      nick := "Z";
      rest, next := ShortestMessage(items[1..], nick), ShortestPick(items[1..]);
      WordCovers(items, h, nick, k);
    } else {
      WordIsShortest(items[0], k, h);
      TailOfTail(h, |word|);
      rest, nick, next := Reading(items[1..], h[|word|..]);
      assert |word| == |ShortestWord(items[0], nick)|;
    }
    msg, pick := word + rest, [k] + next;
    PickOne(items, nick, k, rest, next);
  }

  lemma PickOne(items: seq<Item>, nick: string, k: nat, rest: string, next: seq<nat>)
    requires items != [] && !items[0].Nick? && k < |Words(items[0], [])| && Fits(rest, items[1..], [nick], next)
    ensures Fits(Words(items[0], [])[k] + rest, items, [nick], [k] + next)
  {
    var word := Words(items[0], [])[k];
    assert (word + rest)[|word|..] == rest && ([k] + next)[1..] == next;
    assert Words(items[0], [nick])[k] == word;
  }

  // A word that goes on behind h is at most four letters longer than need be.
  lemma WordCovers(items: seq<Item>, h: string, nick: string, k: nat)
    requires items != [] && !items[0].Nick? && Unknown !in items && IsTail(h) && h != ""
    requires k < |Words(items[0], [])| && h <= Words(items[0], [])[k]
    requires h != HEAD_FIRST || !items[0].Head?
    ensures var rest := ShortestMessage(items[1..], nick);
      && Fits(rest, items[1..], [nick], ShortestPick(items[1..]))
      && |Words(items[0], [])[k] + rest| < |ShortestMessage(items, nick)| + |HEAD_FIRST|
  {
    ShortestFits(items[1..], nick);
    if items[0].Head? {
      HeadIsNoTail(h);
    }
    assert Words(items[0], [nick])[k] == Words(items[0], [])[k];
    NoneShorter(items[0], nick, k);
  }

  // A word within h is the text itself or nothing.
  lemma WordIsShortest(item: Item, k: nat, h: string)
    requires !item.Nick? && k < |Words(item, [])| && IsTail(h) && Words(item, [])[k] <= h
    requires h != HEAD_FIRST || (!item.Head? && item != Text(""))
    ensures |Words(item, [])[k]| == |ShortestWord(item, "")|
    ensures h == Words(item, [])[k] + h[|Words(item, [])[k]|..]
    ensures Words(item, [])[k] == "" ==> h != HEAD_FIRST
  {
    if !item.Text? {
      ListWordsStandOut(item, k, h);
    }
    NoneShorter(item, "", k);
  }

  // Behind the optional "head first", such a message fits without it only.
  lemma {:induction false} Started(items: seq<Item>) returns (msg: string, nick: string, pick: seq<nat>)
    requires Starts(items) && Unknown !in items
    ensures IsReading(items, HEAD_FIRST, msg, nick, pick)
  {
    if items[0].Head? || items[0] == Text("") {
      var next;
      msg, nick, next := Started(items[1..]);
      pick := [Shortest(items[0])] + next;
      assert ShortestWord(items[0], nick) == "" && pick[1..] == next && msg[0..] == msg;
    } else {
      assert IsTail(HEAD_FIRST);
      msg, nick, pick := Reading(items, HEAD_FIRST);
    }
  }

  ghost predicate Misses(msg: string, items: seq<Item>, nicks: seq<string>) {
    FitsSomehow(msg, items, nicks) && !Match(msg, items, nicks).ok
  }

  lemma HeadMisses(items: seq<Item>) returns (msg: string, nick: string)
    requires items != [] && items[0].Head? && Starts(items[1..]) && Unknown !in items
    ensures Misses(msg, items, [nick])
  {
    var pick;
    msg, nick, pick := Started(items[1..]);
    assert msg[0..] == msg && ([1] + pick)[1..] == pick && Words(Head, [nick])[1] == "";
    assert Fits(msg, items, [nick], [1] + pick);
    assert FirstWord(Words(Head, [nick]), msg) == 0;
    var behind := msg[|HEAD_FIRST|..];
    if Match(behind, items[1..], [nick]).ok {
      MatchIsSound(behind, items[1..], [nick]);
      FittingIsLong(behind, items[1..], nick, Chosen(behind, items[1..], [nick]));
    }
  }

  // An item in front that takes its first word does not help.
  lemma InFront(msg: string, items: seq<Item>, nick: string)
    requires items != [] && !items[0].Unknown? && Misses(msg, items[1..], [nick])
    ensures Misses(Words(items[0], [nick])[0] + msg, items, [nick])
  {
    var word := Words(items[0], [nick])[0];
    var whole := word + msg;
    assert whole[|word|..] == msg;
    var pick :| Fits(msg, items[1..], [nick], pick);
    assert ([0] + pick)[1..] == pick;
    assert Fits(whole, items, [nick], [0] + pick);
    if items[0].Nick? {
      assert !MatchNick(whole, items, [nick], 1).ok;
    } else {
      assert FirstWord(Words(items[0], [nick]), whole) == 0;
    }
  }

  lemma {:induction false} NotClearMisses(items: seq<Item>, i: nat) returns (msg: string, nick: string)
    requires i < |items| && items[i].Head? && Starts(items[i + 1..]) && Unknown !in items
    ensures Misses(msg, items, [nick])
    decreases i
  {
    if i == 0 {
      msg, nick := HeadMisses(items);
    } else {
      assert items[1..][i..] == items[i + 1..];
      var rest;
      rest, nick := NotClearMisses(items[1..], i - 1);
      InFront(rest, items, nick);
      msg := Words(items[0], [nick])[0] + rest;
    }
  }

  // A format finds every message that fits it, whatever the nicks, exactly when nothing
  // that follows an optional "head first" can be taken for it; or it has an unknown
  // item, and nothing fits it.
  lemma FormatIsExact(items: seq<Item>)
    ensures (forall msg, nicks :: FitsSomehow(msg, items, nicks) ==> Match(msg, items, nicks).ok)
      <==> (Clear(items) || Unknown in items)
  {
    if Unknown in items {
      forall msg, nicks ensures !FitsSomehow(msg, items, nicks) {
        UnknownFitsNothing(msg, items, nicks);
      }
    } else if Clear(items) {
      forall msg, nicks | FitsSomehow(msg, items, nicks) ensures Match(msg, items, nicks).ok {
        MatchIsExact(msg, items, nicks);
      }
    } else {
      var i :| 0 <= i < |items| && items[i].Head? && Starts(items[i + 1..]);
      var msg, nick := NotClearMisses(items, i);
      assert Misses(msg, items, [nick]);
    }
  }
}
