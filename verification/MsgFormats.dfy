/** The game message formats of messages.c and what it means that a message fits one:
    Msg_match_fmt, a matcher that goes back only over the choice of a nick. */
module MsgFormats {
  datatype Item = Text(s: string) | Nick | Shot | Head | Obstacle | Crash | Team | Unknown

  const HEAD_FIRST := " head first"

  // There is room for this many names.
  const MSG_MAX_NAMES := 3

  // What can stand for an item, in the order in which it is tried.
  function Words(item: Item, nicks: seq<string>): seq<string> {
    match item
    case Text(s) => [s]
    case Nick => nicks
    case Shot => ["a shot"]
    case Head => [HEAD_FIRST, ""]
    case Obstacle => ["wall", "target", "treasure", "cannon"]
    case Crash => ["crashed", "smashed", "smacked", "was trashed"]
    case Team => ["2", "4", "0", "1", "3", "5", "6", "7", "8", "9"]
    case Unknown => []
  }

  function ItemOf(c: char): Item {
    match c
    case 'n' => Nick
    case 's' => Shot
    case 'h' => Head
    case 'o' => Obstacle
    case 'c' => Crash
    case 't' => Team
    case _ => Unknown
  }

  function Percent(fmt: string): (p: nat)
    ensures p <= |fmt| && (p < |fmt| ==> fmt[p] == '%') && forall i :: 0 <= i < p ==> fmt[i] != '%'
  {
    if fmt == [] || fmt[0] == '%' then 0 else 1 + Percent(fmt[1..])
  }

  // A format text: literal text between items that start with a percent sign.
  function Parse(fmt: string): (items: seq<Item>)
    decreases |fmt|
  {
    var p := Percent(fmt);
    if p == |fmt| then [Text(fmt)]
    else if p + 1 == |fmt| then [Text(fmt[..p]), Unknown]
    else [Text(fmt[..p]), ItemOf(fmt[p + 1])] + Parse(fmt[p + 2..])
  }

  // ---- What the matcher does ----

  // Whether the message fits, and the names that are written on the way.
  datatype Outcome = Outcome(ok: bool, names: seq<string>)

  function FirstWord(words: seq<string>, msg: string): (i: nat)
    ensures i <= |words| && (i < |words| ==> words[i] <= msg) && forall j :: 0 <= j < i ==> !(words[j] <= msg)
  {
    if words == [] || words[0] <= msg then 0 else 1 + FirstWord(words[1..], msg)
  }

  function Match(msg: string, items: seq<Item>, nicks: seq<string>): Outcome
    decreases |items|, 1, 0
  {
    if items == [] then Outcome(true, [])
    else if items[0].Nick? then MatchNick(msg, items, nicks, 0)
    else
      var words := Words(items[0], nicks);
      var i := FirstWord(words, msg);
      if i == |words| then Outcome(false, [])
      else
        var r := Match(msg[|words[i]|..], items[1..], nicks);
        if items[0].Team? then Outcome(r.ok, [words[i]] + r.names) else r
  }

  // The players from the i-th on are tried until the rest fits.
  function MatchNick(msg: string, items: seq<Item>, nicks: seq<string>, i: nat): Outcome
    requires items != [] && i <= |nicks|
    decreases |items|, 0, |nicks| - i
  {
    if i == |nicks| then Outcome(false, [])
    else if nicks[i] <= msg then
      var r := Match(msg[|nicks[i]|..], items[1..], nicks);
      if r.ok then Outcome(true, r.names + [nicks[i]])
      else
        var next := MatchNick(msg, items, nicks, i + 1);
        Outcome(next.ok, r.names + next.names)
    else MatchNick(msg, items, nicks, i + 1)
  }

  // ---- What it means to fit ----

  // The words picked for the items, one after the other, begin the message.
  ghost predicate Fits(msg: string, items: seq<Item>, nicks: seq<string>, pick: seq<nat>) {
    |pick| == |items| &&
    (items == [] ||
     (&& pick[0] < |Words(items[0], nicks)| && Words(items[0], nicks)[pick[0]] <= msg
      && Fits(msg[|Words(items[0], nicks)[pick[0]]|..], items[1..], nicks, pick[1..])))
  }

  ghost predicate InRange(items: seq<Item>, nicks: seq<string>, pick: seq<nat>) {
    |pick| == |items| && forall i :: 0 <= i < |items| ==> pick[i] < |Words(items[i], nicks)|
  }

  // The names of the picked words: a team is written down when it is met, and a nick
  // behind everything that comes after it in the format.
  ghost function Listed(items: seq<Item>, nicks: seq<string>, pick: seq<nat>): seq<string>
    requires InRange(items, nicks, pick)
  {
    if items == [] then []
    else
      var rest := Listed(items[1..], nicks, pick[1..]);
      var word := Words(items[0], nicks)[pick[0]];
      if items[0].Nick? then rest + [word] else if items[0].Team? then [word] + rest else rest
  }

  ghost predicate NotAfter(a: seq<nat>, b: seq<nat>)
    requires |a| == |b|
  {
    a == [] || a[0] < b[0] || (a[0] == b[0] && NotAfter(a[1..], b[1..]))
  }

  predicate Comparable(a: string, b: string) { a <= b || b <= a }

  // No nick begins another one.
  predicate Unlike(nicks: seq<string>) {
    forall i, j :: 0 <= i < j < |nicks| ==> !Comparable(nicks[i], nicks[j])
  }

  // ---- What can fail, and what can be taken for "head first" ----

  // There are messages that no word for the item begins.
  predicate CanFail(item: Item) { !item.Head? && item != Text("") }

  // A team can be met before the format fails.
  ghost predicate MayLeave(items: seq<Item>) {
    exists i, j :: 0 <= i < j < |items| && items[i].Team? && CanFail(items[j]) && Unknown !in items[..i]
  }

  // No nick is followed by such a team.
  ghost predicate Keeps(items: seq<Item>) {
    forall i :: 0 <= i < |items| && items[i].Nick? ==> !MayLeave(items[i + 1..])
  }

  // Some words for the items begin with h, or h with them all.
  predicate Reads(items: seq<Item>, h: string)
    decreases |items|
  {
    || h == "" || items == [] || items[0].Nick?
    || exists k :: 0 <= k < |Words(items[0], [])| && ReadsOn(items, h, Words(items[0], [])[k])
  }

  predicate ReadsOn(items: seq<Item>, h: string, word: string)
    requires items != []
    decreases |items|, 0
  {
    h <= word || (word <= h && Reads(items[1..], h[|word|..]))
  }

  // The first item that is not left out can be taken for "head first".
  predicate Starts(items: seq<Item>) {
    if items == [] then false
    else if items[0].Head? || items[0] == Text("") then Starts(items[1..])
    else Reads(items, HEAD_FIRST)
  }

  // What follows an optional "head first" cannot be taken for it.
  predicate Clear(items: seq<Item>) {
    forall i :: 0 <= i < |items| && items[i].Head? ==> !Starts(items[i + 1..])
  }

  // ---- The matcher finds only what fits ----

  // The words that the matcher took.
  ghost function Chosen(msg: string, items: seq<Item>, nicks: seq<string>): (pick: seq<nat>)
    requires Match(msg, items, nicks).ok
    ensures |pick| == |items|
    decreases |items|, 1, 0
  {
    if items == [] then []
    else if items[0].Nick? then ChosenNick(msg, items, nicks, 0)
    else
      var i := FirstWord(Words(items[0], nicks), msg);
      [i] + Chosen(msg[|Words(items[0], nicks)[i]|..], items[1..], nicks)
  }

  ghost function ChosenNick(msg: string, items: seq<Item>, nicks: seq<string>, i: nat): (pick: seq<nat>)
    requires items != [] && i <= |nicks| && MatchNick(msg, items, nicks, i).ok
    ensures |pick| == |items|
    decreases |items|, 0, |nicks| - i
  {
    if nicks[i] <= msg && Match(msg[|nicks[i]|..], items[1..], nicks).ok then
      [i] + Chosen(msg[|nicks[i]|..], items[1..], nicks)
    else ChosenNick(msg, items, nicks, i + 1)
  }

  lemma PickedFirst(msg: string, items: seq<Item>, nicks: seq<string>, i: nat, rest: seq<nat>)
    requires items != [] && i < |Words(items[0], nicks)| && Words(items[0], nicks)[i] <= msg
    requires Fits(msg[|Words(items[0], nicks)[i]|..], items[1..], nicks, rest) && InRange(items[1..], nicks, rest)
    ensures Fits(msg, items, nicks, [i] + rest) && InRange(items, nicks, [i] + rest)
  {
    assert ([i] + rest)[1..] == rest;
    forall k | 0 <= k < |items|
      ensures ([i] + rest)[k] < |Words(items[k], nicks)|
    {
      assert k > 0 ==> items[k] == items[1..][k - 1];
    }
  }

  // The words that the matcher takes fit.
  lemma {:induction false} MatchIsSound(msg: string, items: seq<Item>, nicks: seq<string>)
    requires Match(msg, items, nicks).ok
    ensures Fits(msg, items, nicks, Chosen(msg, items, nicks)) && InRange(items, nicks, Chosen(msg, items, nicks))
    decreases |items|, 1, 0
  {
    if items != [] {
      if items[0].Nick? {
        NickIsSound(msg, items, nicks, 0);
      } else {
        var i := FirstWord(Words(items[0], nicks), msg);
        var m := msg[|Words(items[0], nicks)[i]|..];
        MatchIsSound(m, items[1..], nicks);
        PickedFirst(msg, items, nicks, i, Chosen(m, items[1..], nicks));
      }
    }
  }

  lemma {:induction false} NickIsSound(msg: string, items: seq<Item>, nicks: seq<string>, i: nat)
    requires items != [] && items[0].Nick? && i <= |nicks| && MatchNick(msg, items, nicks, i).ok
    ensures var pick := ChosenNick(msg, items, nicks, i);
      Fits(msg, items, nicks, pick) && InRange(items, nicks, pick)
    decreases |items|, 0, |nicks| - i
  {
    var m := if nicks[i] <= msg then msg[|nicks[i]|..] else "";
    if nicks[i] <= msg && Match(m, items[1..], nicks).ok {
      MatchIsSound(m, items[1..], nicks);
      PickedFirst(msg, items, nicks, i, Chosen(m, items[1..], nicks));
    } else {
      NickIsSound(msg, items, nicks, i + 1);
    }
  }

  // The names written are those of the words that fit, if no failed try has left
  // a team behind: the format does not allow it, or no second nick can be tried.
  lemma {:induction false} NamesAreListed(msg: string, items: seq<Item>, nicks: seq<string>)
    requires Match(msg, items, nicks).ok && (Keeps(items) || Unlike(nicks))
    ensures InRange(items, nicks, Chosen(msg, items, nicks))
    ensures Match(msg, items, nicks).names == Listed(items, nicks, Chosen(msg, items, nicks))
    decreases |items|, 1, 0
  {
    MatchIsSound(msg, items, nicks);
    if items != [] {
      if items[0].Nick? {
        NickIsListed(msg, items, nicks, 0);
      } else {
        KeepsRest(items);
        var i := FirstWord(Words(items[0], nicks), msg);
        var m := msg[|Words(items[0], nicks)[i]|..];
        NamesAreListed(m, items[1..], nicks);
        var rest := Chosen(m, items[1..], nicks);
        assert ([i] + rest)[1..] == rest;
      }
    }
  }

  lemma {:induction false} NickIsListed(msg: string, items: seq<Item>, nicks: seq<string>, i: nat)
    requires items != [] && items[0].Nick? && i <= |nicks| && MatchNick(msg, items, nicks, i).ok
    requires Keeps(items) || Unlike(nicks)
    ensures var pick := ChosenNick(msg, items, nicks, i);
      InRange(items, nicks, pick) && MatchNick(msg, items, nicks, i).names == Listed(items, nicks, pick)
    decreases |items|, 0, |nicks| - i
  {
    NickIsSound(msg, items, nicks, i);
    KeepsRest(items);
    if nicks[i] <= msg && Match(msg[|nicks[i]|..], items[1..], nicks).ok {
      var m := msg[|nicks[i]|..];
      NamesAreListed(m, items[1..], nicks);
      var rest := Chosen(m, items[1..], nicks);
      assert ([i] + rest)[1..] == rest;
    } else {
      if nicks[i] <= msg {
        FailedBefore(msg, items, nicks, i);
      }
      NickIsListed(msg, items, nicks, i + 1);
      var next := MatchNick(msg, items, nicks, i + 1);
      assert [] + next.names == next.names;
    }
  }

  // When a later nick fits, the failed try of one has left nothing.
  lemma FailedBefore(msg: string, items: seq<Item>, nicks: seq<string>, i: nat)
    requires items != [] && items[0].Nick? && i < |nicks| && nicks[i] <= msg && (Keeps(items) || Unlike(nicks))
    requires !Match(msg[|nicks[i]|..], items[1..], nicks).ok && MatchNick(msg, items, nicks, i + 1).ok
    ensures Match(msg[|nicks[i]|..], items[1..], nicks).names == []
  {
    if Keeps(items) {
      FailureAddsNothing(msg[|nicks[i]|..], items[1..], nicks);
    } else {
      NickIsSound(msg, items, nicks, i + 1);
      var pick := ChosenNick(msg, items, nicks, i + 1);
      LaterNick(msg, items, nicks, i + 1);
      PrefixesCompare(nicks[i], nicks[pick[0]], msg);
    }
  }

  lemma {:induction false} LaterNick(msg: string, items: seq<Item>, nicks: seq<string>, i: nat)
    requires items != [] && i <= |nicks| && MatchNick(msg, items, nicks, i).ok
    ensures i <= ChosenNick(msg, items, nicks, i)[0]
    decreases |nicks| - i
  {
    if !(nicks[i] <= msg && Match(msg[|nicks[i]|..], items[1..], nicks).ok) {
      LaterNick(msg, items, nicks, i + 1);
    }
  }

  lemma KeepsRest(items: seq<Item>)
    requires items != []
    ensures Keeps(items) ==> Keeps(items[1..])
  {
    if Keeps(items) {
      forall i | 0 <= i < |items| - 1 && items[1..][i].Nick?
        ensures !MayLeave(items[1..][i + 1..])
      {
        assert items[1..][i + 1..] == items[i + 2..] && items[i + 1].Nick?;
      }
    }
  }

  lemma LeavesLater(items: seq<Item>)
    requires items != [] && !items[0].Unknown? && MayLeave(items[1..])
    ensures MayLeave(items)
  {
    var i, j :| 0 <= i < j < |items| - 1 && items[1..][i].Team? && CanFail(items[1..][j])
        && Unknown !in items[1..][..i];
    assert items[..i + 1] == [items[0]] + items[1..][..i];
    assert items[i + 1].Team? && CanFail(items[j + 1]);
  }

  // A format without a team that can be met before it fails leaves no names behind
  // when it fails.
  lemma {:induction false} FailureAddsNothing(msg: string, items: seq<Item>, nicks: seq<string>)
    requires !MayLeave(items) && !Match(msg, items, nicks).ok
    ensures Match(msg, items, nicks).names == []
    decreases |items|, 1, 0
  {
    var words := Words(items[0], nicks);
    if items[0].Nick? {
      NickFailureAddsNothing(msg, items, nicks, 0);
    } else if FirstWord(words, msg) < |words| {
      var m := msg[|words[FirstWord(words, msg)]|..];
      if MayLeave(items[1..]) {
        LeavesLater(items);
      }
      if items[0].Team? {
        forall j | 0 <= j < |items[1..]|
          ensures !CanFail(items[1..][j])
        {
          assert items[..0] == [] && items[j + 1] == items[1..][j];
        }
        NeverFails(m, items[1..], nicks);
      }
      FailureAddsNothing(m, items[1..], nicks);
    }
  }

  lemma {:induction false} NickFailureAddsNothing(msg: string, items: seq<Item>, nicks: seq<string>, i: nat)
    requires items != [] && items[0].Nick? && i <= |nicks| && !MayLeave(items) && !MatchNick(msg, items, nicks, i).ok
    ensures MatchNick(msg, items, nicks, i).names == []
    decreases |items|, 0, |nicks| - i
  {
    if i < |nicks| {
      if nicks[i] <= msg {
        if MayLeave(items[1..]) {
          LeavesLater(items);
        }
        FailureAddsNothing(msg[|nicks[i]|..], items[1..], nicks);
      }
      NickFailureAddsNothing(msg, items, nicks, i + 1);
    }
  }

  lemma {:induction false} NeverFails(msg: string, items: seq<Item>, nicks: seq<string>)
    requires forall j :: 0 <= j < |items| ==> !CanFail(items[j])
    ensures Match(msg, items, nicks).ok
    decreases |items|
  {
    if items != [] {
      var words := Words(items[0], nicks);
      assert words[|words| - 1] == "" && "" <= msg;
      NeverFails(msg[|words[FirstWord(words, msg)]|..], items[1..], nicks);
    }
  }

  // ---- The matcher finds what fits ----

  lemma PrefixesCompare(a: string, b: string, msg: string)
    requires a <= msg && b <= msg
    ensures Comparable(a, b)
  {
  }

  // No word of a list begins another one, so at most one of them begins a message.
  lemma WordsDiffer(item: Item, nicks: seq<string>, i: nat, j: nat)
    requires !item.Nick? && !item.Head? && i < |Words(item, nicks)| && j < |Words(item, nicks)|
    requires Comparable(Words(item, nicks)[i], Words(item, nicks)[j])
    ensures i == j
  {
    var a, b := Words(item, nicks)[i], Words(item, nicks)[j];
    assert a != "" && b != "" ==> a[0] == b[0];
    assert |a| > 1 && |b| > 1 ==> a[1] == b[1];
    assert |a| > 3 && |b| > 3 ==> a[3] == b[3];
  }

  // Text that is not comparable with it cannot be taken for "head first".
  lemma TextStandsOut(items: seq<Item>)
    requires items != [] && items[0].Text? && items[0].s != "" && !Comparable(items[0].s, HEAD_FIRST)
    ensures !Starts(items)
  {
    assert forall k :: 0 <= k < |Words(items[0], [])| ==> !ReadsOn(items, HEAD_FIRST, Words(items[0], [])[k]);
  }

  lemma ClearRest(items: seq<Item>)
    requires Clear(items) && items != []
    ensures Clear(items[1..])
  {
    forall i | 0 <= i < |items| - 1 && items[1..][i].Head?
      ensures !Starts(items[1..][i + 1..])
    {
      assert items[1..][i + 1..] == items[i + 2..] && items[i + 1].Head?;
    }
  }

  // Whatever way a message fits a clear format, the matcher finds one that picks
  // the same or, at the first item where it differs, an earlier word.
  lemma {:induction false} MatchIsComplete(msg: string, items: seq<Item>, nicks: seq<string>, other: seq<nat>)
    requires Clear(items) && Fits(msg, items, nicks, other)
    ensures Match(msg, items, nicks).ok && NotAfter(Chosen(msg, items, nicks), other)
    decreases |items|, 1, 0
  {
    if items != [] {
      ClearRest(items);
      if items[0].Nick? {
        NickIsComplete(msg, items, nicks, 0, other);
      } else {
        var words := Words(items[0], nicks);
        var i := FirstWord(words, msg);
        var next := other[1..];
        if items[0].Head? && i == 0 && other[0] == 1 {
          next := HeadCanBeTaken(msg, items, nicks, other);
        } else {
          PrefixesCompare(words[i], words[other[0]], msg);
          if !items[0].Head? {
            WordsDiffer(items[0], nicks, i, other[0]);
          }
        }
        MatchIsComplete(msg[|words[i]|..], items[1..], nicks, next);
        var rest := Chosen(msg[|words[i]|..], items[1..], nicks);
        assert ([i] + rest)[1..] == rest;
      }
    }
  }

  // If a message that begins with "head first" also fits without it, it fits after
  // it too, for what follows can be left out.
  lemma HeadCanBeTaken(msg: string, items: seq<Item>, nicks: seq<string>, other: seq<nat>) returns (next: seq<nat>)
    requires Clear(items) && items != [] && items[0].Head? && Fits(msg, items, nicks, other)
    requires HEAD_FIRST <= msg && other[0] == 1
    ensures Fits(msg[|HEAD_FIRST|..], items[1..], nicks, next)
  {
    assert Words(items[0], nicks)[1] == "" && msg[0..] == msg;
    next := AlsoBehind(msg, items[1..], nicks, other[1..]);
  }

  lemma {:induction false} AlsoBehind(msg: string, items: seq<Item>, nicks: seq<string>, pick: seq<nat>)
    returns (other: seq<nat>)
    requires !Starts(items) && HEAD_FIRST <= msg && Fits(msg, items, nicks, pick)
    ensures Fits(msg[|HEAD_FIRST|..], items, nicks, other)
  {
    if items == [] {
      other := [];
    } else if items[0].Head? || items[0] == Text("") {
      var words := Words(items[0], nicks);
      var behind := msg[|HEAD_FIRST|..];
      var rest := pick[1..];
      if words[pick[0]] == "" {
        assert msg[0..] == msg;
        rest := AlsoBehind(msg, items[1..], nicks, pick[1..]);
      }
      other := [|words| - 1] + rest;
      assert other[1..] == rest && behind[0..] == behind && words[|words| - 1] == "";
    } else {
      FittingReads(msg, items, nicks, pick, HEAD_FIRST);
    }
  }

  lemma {:induction false} FittingReads(msg: string, items: seq<Item>, nicks: seq<string>, pick: seq<nat>, h: string)
    requires Fits(msg, items, nicks, pick) && h <= msg
    ensures Reads(items, h)
    decreases |items|
  {
    if items != [] && !items[0].Nick? {
      var word := Words(items[0], nicks)[pick[0]];
      PrefixesCompare(word, h, msg);
      if !(h <= word) {
        assert h[|word|..] <= msg[|word|..];
        FittingReads(msg[|word|..], items[1..], nicks, pick[1..], h[|word|..]);
      }
      assert Words(items[0], [])[pick[0]] == word && ReadsOn(items, h, word);
    }
  }

  lemma {:induction false} NickIsComplete(msg: string, items: seq<Item>, nicks: seq<string>, i: nat, other: seq<nat>)
    requires Clear(items) && Fits(msg, items, nicks, other)
    requires items != [] && items[0].Nick? && i <= other[0]
    ensures MatchNick(msg, items, nicks, i).ok && NotAfter(ChosenNick(msg, items, nicks, i), other)
    decreases |items|, 0, |nicks| - i
  {
    ClearRest(items);
    if i == other[0] {
      MatchIsComplete(msg[|nicks[i]|..], items[1..], nicks, other[1..]);
      var rest := Chosen(msg[|nicks[i]|..], items[1..], nicks);
      assert ([i] + rest)[1..] == rest;
    } else {
      NickIsComplete(msg, items, nicks, i + 1, other);
    }
  }

  ghost predicate FitsSomehow(msg: string, items: seq<Item>, nicks: seq<string>) {
    exists pick :: Fits(msg, items, nicks, pick)
  }

  lemma UnknownFitsNothing(msg: string, items: seq<Item>, nicks: seq<string>)
    requires Unknown in items
    ensures !FitsSomehow(msg, items, nicks) && !Match(msg, items, nicks).ok
  {
    var i :| 0 <= i < |items| && items[i].Unknown?;
    forall pick ensures !Fits(msg, items, nicks, pick) {
      UnknownNeverFits(msg, items, nicks, pick, i);
    }
    if Match(msg, items, nicks).ok {
      MatchIsSound(msg, items, nicks);
    }
  }

  lemma {:induction false} UnknownNeverFits(msg: string, items: seq<Item>, nicks: seq<string>, pick: seq<nat>, i: nat)
    requires i < |items| && items[i].Unknown?
    ensures !Fits(msg, items, nicks, pick)
    decreases i
  {
    if i > 0 && Fits(msg, items, nicks, pick) {
      UnknownNeverFits(msg[|Words(items[0], nicks)[pick[0]]|..], items[1..], nicks, pick[1..], i - 1);
    }
  }

  // A clear format matches exactly the messages that fit it.
  lemma MatchIsExact(msg: string, items: seq<Item>, nicks: seq<string>)
    requires Clear(items)
    ensures Match(msg, items, nicks).ok <==> FitsSomehow(msg, items, nicks)
  {
    if Match(msg, items, nicks).ok {
      MatchIsSound(msg, items, nicks);
    } else if FitsSomehow(msg, items, nicks) {
      var other :| Fits(msg, items, nicks, other);
      MatchIsComplete(msg, items, nicks, other);
    }
  }

  // ---- Formats as texts ----

  function Render(items: seq<Item>): string {
    if items == [] then "" else RenderItem(items[0]) + Render(items[1..])
  }

  function RenderItem(item: Item): string {
    if item.Text? then item.s else ['%', CharOf(item)]
  }

  function CharOf(item: Item): (c: char)
    requires !item.Text?
    ensures ItemOf(c) == item
  {
    match item
    case Nick => 'n'
    case Shot => 's'
    case Head => 'h'
    case Obstacle => 'o'
    case Crash => 'c'
    case Team => 't'
    case Unknown => '%'
  }

  // Text without percent signs, and other items in between.
  ghost predicate IsFormat(items: seq<Item>) {
    && items != [] && items[0].Text? && '%' !in items[0].s
    && (|items| == 1 || (!items[1].Text? && !items[1].Unknown? && IsFormat(items[2..])))
  }

  lemma {:induction false} PercentAfter(s: string, rest: string)
    requires '%' !in s
    ensures Percent(s + rest) == |s| + Percent(rest)
  {
    if s == "" {
      assert s + rest == rest;
    } else {
      assert (s + rest)[1..] == s[1..] + rest;
      PercentAfter(s[1..], rest);
    }
  }

  lemma ParseOne(s: string, c: char, rest: string)
    requires '%' !in s
    ensures Parse(s + ['%', c] + rest) == [Text(s), ItemOf(c)] + Parse(rest)
  {
    var fmt := s + ['%', c] + rest;
    assert fmt == s + (['%', c] + rest);
    PercentAfter(s, ['%', c] + rest);
    assert fmt[..|s|] == s && fmt[|s| + 2..] == rest && fmt[|s| + 1] == c;
  }

  // Reading a format text gives back its items.
  lemma {:induction false} ParseRender(items: seq<Item>)
    requires IsFormat(items)
    ensures Parse(Render(items)) == items
  {
    if |items| == 1 {
      ParseText(items[0].s);
      assert items == [items[0]] && items[1..] == [];
    } else {
      ParseRender(items[2..]);
      ParseTwo(items, items[2..]);
    }
  }

  lemma ParseTwo(items: seq<Item>, rest: seq<Item>)
    requires |items| >= 2 && items[0].Text? && '%' !in items[0].s && !items[1].Text?
    requires rest == items[2..] && Parse(Render(rest)) == rest
    ensures Parse(Render(items)) == items
  {
    RenderTwo(items);
    ParseOne(items[0].s, CharOf(items[1]), Render(rest));
    assert [Text(items[0].s), items[1]] + rest == items;
  }

  lemma ParseText(s: string)
    requires '%' !in s
    ensures Parse(s) == [Text(s)] && Render([Text(s)]) == s
  {
    PercentAfter(s, "");
    assert s + "" == s && Render([Text(s)][1..]) == "";
  }

  lemma RenderTwo(items: seq<Item>)
    requires |items| >= 2 && items[0].Text? && !items[1].Text?
    ensures Render(items) == items[0].s + ['%', CharOf(items[1])] + Render(items[2..])
  {
    assert items[1..][1..] == items[2..];
    assert Render(items[1..]) == ['%', CharOf(items[1])] + Render(items[2..]);
  }

  // ---- The order of the names ----

  ghost function NicksInOrder(items: seq<Item>, nicks: seq<string>, pick: seq<nat>): seq<string>
    requires InRange(items, nicks, pick)
  {
    if items == [] then []
    else (if items[0].Nick? then [nicks[pick[0]]] else []) + NicksInOrder(items[1..], nicks, pick[1..])
  }

  function NickCount(items: seq<Item>): nat {
    if items == [] then 0 else (if items[0].Nick? then 1 else 0) + NickCount(items[1..])
  }

  predicate NoTeam(items: seq<Item>) {
    forall i :: 0 <= i < |items| ==> !items[i].Team?
  }

  lemma {:induction false} LastFirstIsReversed(items: seq<Item>, nicks: seq<string>, pick: seq<nat>)
    requires InRange(items, nicks, pick) && NoTeam(items)
    ensures var a, b := Listed(items, nicks, pick), NicksInOrder(items, nicks, pick);
      |a| == |b| == NickCount(items) && forall k :: 0 <= k < |a| ==> a[k] == b[|b| - 1 - k]
  {
    if items != [] {
      LastFirstIsReversed(items[1..], nicks, pick[1..]);
    }
  }

  // A format without teams never writes down more names than it has nicks.
  lemma NamesOfNicks(msg: string, items: seq<Item>, nicks: seq<string>)
    requires NoTeam(items)
    ensures var r := Match(msg, items, nicks); |r.names| == if r.ok then NickCount(items) else 0
  {
    if Match(msg, items, nicks).ok {
      NamesAreListed(msg, items, nicks);
      LastFirstIsReversed(items, nicks, Chosen(msg, items, nicks));
    } else {
      FailureAddsNothing(msg, items, nicks);
    }
  }

  // ---- One step of the matcher on a format text ----

  function Added(names: seq<string>, o: Outcome): Outcome { Outcome(o.ok, names + o.names) }

  lemma MatchText(msg: string, fmt: string, nicks: seq<string>)
    ensures var p := Percent(fmt);
      if !(fmt[..p] <= msg) then Match(msg, Parse(fmt), nicks) == Outcome(false, [])
      else if p == |fmt| then Match(msg, Parse(fmt), nicks) == Outcome(true, [])
      else if p + 1 == |fmt| then Match(msg, Parse(fmt), nicks) == Outcome(false, [])
      else Match(msg, Parse(fmt), nicks) == Match(msg[p..], [ItemOf(fmt[p + 1])] + Parse(fmt[p + 2..]), nicks)
  {
    TextFirst(msg, fmt[..Percent(fmt)], ParseAfterText(fmt), nicks);
    TextThenItems(fmt);
  }

  // What follows the text in front.
  function ParseAfterText(fmt: string): seq<Item> {
    var p := Percent(fmt);
    if p == |fmt| then [] else if p + 1 == |fmt| then [Unknown] else [ItemOf(fmt[p + 1])] + Parse(fmt[p + 2..])
  }

  lemma TextThenItems(fmt: string)
    ensures Parse(fmt) == [Text(fmt[..Percent(fmt)])] + ParseAfterText(fmt)
  {
    assert fmt[..|fmt|] == fmt;
  }

  lemma TextFirst(msg: string, s: string, rest: seq<Item>, nicks: seq<string>)
    ensures Match(msg, [Text(s)] + rest, nicks)
      == if s <= msg then Match(msg[|s|..], rest, nicks) else Outcome(false, [])
  {
    assert ([Text(s)] + rest)[1..] == rest;
    assert FirstWord([s], msg) == if s <= msg then 0 else 1;
  }

  lemma TakeWord(item: Item, msg: string, rest: seq<Item>, nicks: seq<string>, i: nat)
    requires !item.Nick? && i < |Words(item, nicks)| && i == FirstWord(Words(item, nicks), msg)
    ensures var w := Words(item, nicks)[i];
      Match(msg, [item] + rest, nicks)
      == Added(if item.Team? then [w] else [], Match(msg[|w|..], rest, nicks))
  {
    assert ([item] + rest)[1..] == rest;
    var r := Match(msg[|Words(item, nicks)[i]|..], rest, nicks);
    assert [] + r.names == r.names;
  }

  lemma NoWord(item: Item, msg: string, rest: seq<Item>, nicks: seq<string>)
    requires !item.Nick? && FirstWord(Words(item, nicks), msg) == |Words(item, nicks)|
    ensures Match(msg, [item] + rest, nicks) == Outcome(false, [])
  {
  }

  // Whichever way "head first" is there, it is one of the two words for it.
  lemma HeadOrNothing(msg: string, rest: seq<Item>, nicks: seq<string>)
    ensures Match(msg, [Head] + rest, nicks)
      == Match(if HEAD_FIRST <= msg then msg[|HEAD_FIRST|..] else msg, rest, nicks)
  {
    var words := Words(Head, nicks);
    assert words[1..] == [""] && "" <= msg && FirstWord([""], msg) == 0;
    TakeWord(Head, msg, rest, nicks, FirstWord(words, msg));
    assert msg[0..] == msg;
    var r := Match(if HEAD_FIRST <= msg then msg[|HEAD_FIRST|..] else msg, rest, nicks);
    assert [] + r.names == r.names;
  }

  lemma TryNick(msg: string, rest: seq<Item>, nicks: seq<string>, i: nat)
    requires i < |nicks|
    ensures var items := [Nick] + rest;
      if nicks[i] <= msg then
        var r := Match(msg[|nicks[i]|..], rest, nicks);
        MatchNick(msg, items, nicks, i)
        == if r.ok then Outcome(true, r.names + [nicks[i]]) else Added(r.names, MatchNick(msg, items, nicks, i + 1))
      else MatchNick(msg, items, nicks, i) == MatchNick(msg, items, nicks, i + 1)
  {
    assert ([Nick] + rest)[1..] == rest;
  }

  lemma AddedTwice(a: seq<string>, b: seq<string>, o: Outcome)
    ensures Added(a, Added(b, o)) == Added(a + b, o)
  {
    assert a + (b + o.names) == a + b + o.names;
  }
}
