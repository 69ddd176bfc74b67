/** Teams that Msg_match_fmt leaves among the names when a format, or a try within it,
    fails. */
module Leftovers {
  import opened MsgFormats

  // The message made of the first word for every item.
  function FirstWords(items: seq<Item>, nicks: seq<string>): string
    requires nicks != [] && Unknown !in items
  {
    if items == [] then "" else Words(items[0], nicks)[0] + FirstWords(items[1..], nicks)
  }

  lemma {:induction false} FirstWordsMatch(items: seq<Item>, nicks: seq<string>)
    requires nicks != [] && Unknown !in items
    ensures Match(FirstWords(items, nicks), items, nicks).ok
    decreases |items|
  {
    if items != [] {
      var word, rest := Words(items[0], nicks)[0], FirstWords(items[1..], nicks);
      assert (word + rest)[|word|..] == rest;
      FirstWordsMatch(items[1..], nicks);
    }
  }

  // What the format cannot go on with.
  ghost predicate StopsAll(msg: string, items: seq<Item>, nicks: seq<string>, j: nat)
    requires j < |items|
  {
    && !(HEAD_FIRST <= msg)
    && forall k :: 0 <= k < |Words(items[j], nicks)| ==> !(Words(items[j], nicks)[k] <= msg)
  }

  // If nothing before item j takes any of the message, the format fails there.
  lemma {:induction false} StopsAt(msg: string, items: seq<Item>, nicks: seq<string>, j: nat)
    requires j < |items| && StopsAll(msg, items, nicks, j)
    requires forall k :: 0 <= k < j ==> !CanFail(items[k])
    ensures !Match(msg, items, nicks).ok
    decreases j
  {
    var words := Words(items[0], nicks);
    if j == 0 {
      if items[0].Nick? {
        OthersDoNotFit(msg, items, nicks, 0);
      }
    } else {
      assert words[|words| - 1] == "" && "" <= msg && msg[0..] == msg;
      assert FirstWord(words, msg) == |words| - 1;
      StopsAt(msg, items[1..], nicks, j - 1);
    }
  }

  // The first item that can fail.
  lemma {:induction false} FirstFallible(items: seq<Item>, j: nat) returns (i: nat)
    requires j < |items| && CanFail(items[j])
    ensures i <= j && CanFail(items[i]) && forall k :: 0 <= k < i ==> !CanFail(items[k])
    decreases j
  {
    i := 0;
    if !CanFail(items[0]) {
      i := FirstFallible(items[1..], j - 1);
      i := i + 1;
      assert forall k :: 0 < k < i ==> items[k] == items[1..][k - 1];
    }
  }

  ghost predicate Known(items: seq<Item>, i: nat) {
    i < |items| && forall k :: 0 <= k <= i ==> !items[k].Unknown?
  }

  // The first words for items 0 to i, and what comes behind them.
  function FirstMessage(items: seq<Item>, i: nat, nicks: seq<string>, tail: string): string
    requires nicks != [] && Known(items, i)
    decreases i
  {
    Words(items[0], nicks)[0] + if i == 0 then tail else FirstMessage(items[1..], i - 1, nicks, tail)
  }

  function Behind(items: seq<Item>, i: nat): seq<Item>
    requires i < |items|
    decreases i
  {
    if i == 0 then items[1..] else Behind(items[1..], i - 1)
  }

  lemma {:induction false} BehindIsRest(items: seq<Item>, i: nat)
    requires i < |items|
    ensures Behind(items, i) == items[i + 1..]
    decreases i
  {
    if i > 0 {
      BehindIsRest(items[1..], i - 1);
    }
  }

  // No other nick begins the message.
  ghost predicate OnlyFirst(nicks: seq<string>, msg: string) {
    forall q :: 0 < q < |nicks| ==> !(nicks[q] <= msg)
  }

  // No other nick fits where one is.
  ghost predicate OnlyFirstNick(items: seq<Item>, i: nat, nicks: seq<string>, tail: string)
    requires nicks != [] && Known(items, i)
    decreases i
  {
    && (items[0].Nick? ==> OnlyFirst(nicks, FirstMessage(items, i, nicks, tail)))
    && (i > 0 ==> OnlyFirstNick(items[1..], i - 1, nicks, tail))
  }

  ghost predicate LeavesNames(msg: string, items: seq<Item>, nicks: seq<string>) {
    !Match(msg, items, nicks).ok && Match(msg, items, nicks).names != []
  }

  lemma LeavesMore(msg: string, items: seq<Item>, nicks: seq<string>)
    requires nicks != [] && items != [] && !items[0].Unknown?
    requires if items[0].Team? then !Match(msg, items[1..], nicks).ok else LeavesNames(msg, items[1..], nicks)
    requires items[0].Nick? ==> OnlyFirst(nicks, nicks[0] + msg)
    ensures LeavesNames(Words(items[0], nicks)[0] + msg, items, nicks)
  {
    var word := Words(items[0], nicks)[0];
    assert (word + msg)[|word|..] == msg && word <= word + msg;
    if items[0].Nick? {
      OthersDoNotFit(word + msg, items, nicks, 1);
    }
  }

  // A team that has been met stays when the format fails behind it.
  lemma {:induction false} Leaves(items: seq<Item>, i: nat, nicks: seq<string>, tail: string)
    requires nicks != [] && Known(items, i) && items[i].Team?
    requires OnlyFirstNick(items, i, nicks, tail) && !Match(tail, Behind(items, i), nicks).ok
    ensures LeavesNames(FirstMessage(items, i, nicks, tail), items, nicks)
    decreases i
  {
    if i == 0 {
      LeavesMore(tail, items, nicks);
    } else {
      Leaves(items[1..], i - 1, nicks, tail);
      LeavesMore(FirstMessage(items[1..], i - 1, nicks, tail), items, nicks);
    }
  }

  lemma {:induction false} OthersDoNotFit(msg: string, items: seq<Item>, nicks: seq<string>, i: nat)
    requires items != [] && i <= |nicks| && forall q :: i <= q < |nicks| ==> !(nicks[q] <= msg)
    ensures MatchNick(msg, items, nicks, i) == Outcome(false, [])
    decreases |nicks| - i
  {
    if i < |nicks| {
      OthersDoNotFit(msg, items, nicks, i + 1);
    }
  }

  lemma NothingStops(items: seq<Item>, nicks: seq<string>, k: nat)
    requires k < |items| && CanFail(items[k]) && forall q :: 0 <= q < |nicks| ==> nicks[q] != ""
    ensures StopsAll("", items, nicks, k)
  {
  }

  lemma {:induction false} SingleNick(items: seq<Item>, i: nat, nicks: seq<string>, tail: string)
    requires |nicks| == 1 && Known(items, i)
    ensures OnlyFirstNick(items, i, nicks, tail)
    decreases i
  {
    if i > 0 {
      SingleNick(items[1..], i - 1, nicks, tail);
    }
  }

  // Where a team can be met, and the first item behind it that can fail.
  lemma TeamThenFallible(items: seq<Item>) returns (i: nat, k: nat)
    requires MayLeave(items)
    ensures Known(items, i) && items[i].Team? && k < |Behind(items, i)| && CanFail(Behind(items, i)[k])
    ensures forall q :: 0 <= q < k ==> !CanFail(Behind(items, i)[q])
  {
    var t, j :| 0 <= t < j < |items| && items[t].Team? && CanFail(items[j]) && Unknown !in items[..t];
    i := t;
    assert forall q :: 0 <= q < i ==> items[q] == items[..i][q];
    BehindIsRest(items, i);
    k := FirstFallible(Behind(items, i), j - i - 1);
  }

  // Some failed message leaves names behind exactly when a team can be met before
  // the format fails.
  lemma LeftoversArePossible(items: seq<Item>)
    ensures (exists msg, nicks :: LeavesNames(msg, items, nicks)) <==> MayLeave(items)
  {
    if MayLeave(items) {
      var i, k := TeamThenFallible(items);
      NothingStops(Behind(items, i), ["A"], k);
      StopsAt("", Behind(items, i), ["A"], k);
      SingleNick(items, i, ["A"], "");
      Leaves(items, i, ["A"], "");
    } else if msg, nicks :| LeavesNames(msg, items, nicks) {
      FailureAddsNothing(msg, items, nicks);
    }
  }

  // ---- A message that fits, with names left by a failed try ----

  function NameCount(items: seq<Item>): nat {
    if items == [] then 0 else (if items[0].Nick? || items[0].Team? then 1 else 0) + NameCount(items[1..])
  }

  lemma {:induction false} ListedCount(items: seq<Item>, nicks: seq<string>, pick: seq<nat>)
    requires InRange(items, nicks, pick)
    ensures |Listed(items, nicks, pick)| == NameCount(items)
  {
    if items != [] {
      ListedCount(items[1..], nicks, pick[1..]);
    }
  }

  lemma {:induction false} NamesOfMatch(msg: string, items: seq<Item>, nicks: seq<string>)
    requires Match(msg, items, nicks).ok
    ensures |Match(msg, items, nicks).names| >= NameCount(items)
    decreases |items|, 1, 0
  {
    if items != [] {
      if items[0].Nick? {
        NamesOfNick(msg, items, nicks, 0);
      } else {
        var words := Words(items[0], nicks);
        NamesOfMatch(msg[|words[FirstWord(words, msg)]|..], items[1..], nicks);
      }
    }
  }

  lemma {:induction false} NamesOfNick(msg: string, items: seq<Item>, nicks: seq<string>, i: nat)
    requires items != [] && items[0].Nick? && i <= |nicks| && MatchNick(msg, items, nicks, i).ok
    ensures |MatchNick(msg, items, nicks, i).names| >= NameCount(items)
    decreases |items|, 0, |nicks| - i
  {
    if nicks[i] <= msg && Match(msg[|nicks[i]|..], items[1..], nicks).ok {
      NamesOfMatch(msg[|nicks[i]|..], items[1..], nicks);
    } else {
      NamesOfNick(msg, items, nicks, i + 1);
    }
  }

  // The message fits, and more names are written than the format has.
  ghost predicate Misread(msg: string, items: seq<Item>, nicks: seq<string>) {
    Match(msg, items, nicks).ok && |Match(msg, items, nicks).names| > NameCount(items)
  }

  // A character other than these, that no word of a list begins with.
  function Mark(u: char, v: char): (c: char)
    ensures c != u && c != v && c in "#*+"
  {
    if u != '#' && v != '#' then '#' else if u != '*' && v != '*' then '*' else '+'
  }

  function Times(c: char, n: nat): string { seq(n, _ => c) }

  function FirstChar(s: string): char { if s == "" then ' ' else s[0] }

  // "A" and what it lets the format read, up to the team, with many marks behind.
  function LongNick(x: string, c: char): string { "A" + x + Times(c, |x| + 2) }

  // It begins nothing that is shorter up to the marks and goes on without them.
  lemma LongNickIsLate(x: string, z: string, y: string, c: char)
    requires |z| <= |x| && (y == "" || y[0] != c)
    ensures OnlyFirst(["A", LongNick(x, c)], z + (Times(c, |x| + 2) + y))
  {
    var b, msg, k := LongNick(x, c), z + (Times(c, |x| + 2) + y), |z| + |x| + 2;
    assert b[k] == c;
    assert |msg| > k ==> msg[k] == y[0];
  }

  lemma MarkStops(items: seq<Item>, x: string, tail: string, j: nat, c: char)
    requires j < |items| && CanFail(items[j]) && tail != "" && tail[0] == c && c in "#*+"
    requires items[j].Text? ==> items[j].s[0] != c
    ensures StopsAll(tail, items, ["A", LongNick(x, c)], j)
  {
    var nicks := ["A", LongNick(x, c)];
    assert LongNick(x, c)[0] == 'A';
    forall k | 0 <= k < |Words(items[j], nicks)|
      ensures !(Words(items[j], nicks)[k] <= tail)
    {
      assert Words(items[j], nicks)[k][0] != c;
    }
  }

  // The first words of a format depend on the first nick only.
  lemma {:induction false} FirstWordsOfFirst(items: seq<Item>, nicks: seq<string>)
    requires nicks != [] && Unknown !in items
    ensures FirstWords(items, nicks) == FirstWords(items, [nicks[0]])
  {
    if items != [] {
      FirstWordsOfFirst(items[1..], nicks);
    }
  }

  lemma {:induction false} FirstMessageInTwo(items: seq<Item>, i: nat, nicks: seq<string>, tail: string)
    requires nicks != [] && Known(items, i)
    ensures FirstMessage(items, i, nicks, tail) == FirstMessage(items, i, [nicks[0]], "") + tail
    decreases i
  {
    if i > 0 {
      FirstMessageInTwo(items[1..], i - 1, nicks, tail);
      Joined(Words(items[0], nicks)[0], FirstMessage(items[1..], i - 1, [nicks[0]], ""), tail);
    }
  }

  lemma Joined(a: string, b: string, c: string)
    ensures a + b + c == a + (b + c)
  {
  }

  lemma {:induction false} OnlyAFits(items: seq<Item>, i: nat, nicks: seq<string>, x: string, y: string, c: char)
    requires Known(items, i) && (y == "" || y[0] != c) && nicks == ["A", LongNick(x, c)]
    requires |FirstMessage(items, i, ["A"], "")| <= |x|
    ensures OnlyFirstNick(items, i, nicks, Times(c, |x| + 2) + y)
    decreases i
  {
    FirstMessageInTwo(items, i, nicks, Times(c, |x| + 2) + y);
    LongNickIsLate(x, FirstMessage(items, i, ["A"], ""), y, c);
    if i > 0 {
      OnlyAFits(items[1..], i - 1, nicks, x, y, c);
    }
  }

  // Two players, one of whose nicks goes on like the format behind the other one.
  lemma NickMisread(items: seq<Item>) returns (msg: string, nicks: seq<string>)
    requires items != [] && items[0].Nick? && Unknown !in items && MayLeave(items[1..])
    ensures nicks != [] && Misread(msg, items, nicks)
  {
    var rest := items[1..];
    var i, k := TeamThenFallible(rest);
    var behind := Behind(rest, i);
    var x, y := FirstMessage(rest, i, ["A"], ""), FirstWords(rest, ["A"]);
    var c := Mark(FirstChar(y), if behind[k].Text? then behind[k].s[0] else ' ');
    nicks := ["A", LongNick(x, c)];
    var tail := Times(c, |x| + 2) + y;
    MarkStops(behind, x, tail, k, c);
    StopsAt(tail, behind, nicks, k);
    OnlyAFits(rest, i, nicks, x, y, c);
    Leaves(rest, i, nicks, tail);
    FirstMessageInTwo(rest, i, nicks, tail);
    FirstWordsOfFirst(rest, nicks);
    FirstWordsMatch(rest, nicks);
    msg := LongNick(x, c) + y;
    LongNickInTwo(x, y, c);
    SecondFits(msg, items, nicks, x + tail, y);
  }

  lemma LongNickInTwo(x: string, y: string, c: char)
    ensures LongNick(x, c) + y == "A" + (x + (Times(c, |x| + 2) + y))
  {
  }

  // The first nick fails and leaves a team, the second one fits.
  lemma SecondFits(msg: string, items: seq<Item>, nicks: seq<string>, behindFirst: string, behindSecond: string)
    requires items != [] && items[0].Nick? && |nicks| == 2
    requires msg == nicks[0] + behindFirst == nicks[1] + behindSecond
    requires LeavesNames(behindFirst, items[1..], nicks) && Match(behindSecond, items[1..], nicks).ok
    ensures Misread(msg, items, nicks)
  {
    var r := Match(behindSecond, items[1..], nicks);
    assert msg[|nicks[0]|..] == behindFirst && msg[|nicks[1]|..] == behindSecond;
    NamesOfMatch(behindSecond, items[1..], nicks);
    assert MatchNick(msg, items, nicks, 1) == Outcome(true, r.names + [nicks[1]]);
  }

  lemma MisreadInFront(msg: string, items: seq<Item>, nicks: seq<string>)
    requires nicks != [] && items != [] && !items[0].Unknown? && !items[0].Nick? && Misread(msg, items[1..], nicks)
    ensures Misread(Words(items[0], nicks)[0] + msg, items, nicks)
  {
    var word := Words(items[0], nicks)[0];
    assert (word + msg)[|word|..] == msg;
  }

  lemma {:induction false} MayBeMisread(items: seq<Item>, i: nat) returns (msg: string, nicks: seq<string>)
    requires i < |items| && items[i].Nick? && MayLeave(items[i + 1..]) && Unknown !in items
    ensures nicks != [] && Misread(msg, items, nicks)
    decreases i
  {
    if items[0].Nick? {
      LeavesMuchLater(items[1..], i);
      assert i == 0 || items[1..][i..] == items[i + 1..];
      msg, nicks := NickMisread(items);
    } else {
      assert items[1..][i..] == items[i + 1..];
      var rest;
      rest, nicks := MayBeMisread(items[1..], i - 1);
      MisreadInFront(rest, items, nicks);
      msg := Words(items[0], nicks)[0] + rest;
    }
  }

  lemma {:induction false} LeavesMuchLater(items: seq<Item>, k: nat)
    requires k <= |items| && Unknown !in items && MayLeave(items[k..])
    ensures MayLeave(items)
    decreases k
  {
    if k == 0 {
      assert items[0..] == items;
    } else {
      assert items[1..][k - 1..] == items[k..];
      LeavesMuchLater(items[1..], k - 1);
      LeavesLater(items);
    }
  }

  // The names written for a message that fits are those of the words that fit.
  ghost predicate IsRead(msg: string, items: seq<Item>, nicks: seq<string>) {
    Match(msg, items, nicks).ok ==>
      && InRange(items, nicks, Chosen(msg, items, nicks))
      && Match(msg, items, nicks).names == Listed(items, nicks, Chosen(msg, items, nicks))
  }

  // That is so exactly when no more names are written than the format has.
  lemma {:induction false} ReadOrMisread(msg: string, items: seq<Item>, nicks: seq<string>)
    ensures IsRead(msg, items, nicks) <==> !Misread(msg, items, nicks)
    decreases |items|, 1, 0
  {
    if Match(msg, items, nicks).ok {
      MatchIsSound(msg, items, nicks);
      ListedCount(items, nicks, Chosen(msg, items, nicks));
      NamesOfMatch(msg, items, nicks);
      if items != [] && !Misread(msg, items, nicks) {
        if items[0].Nick? {
          NickIsRead(msg, items, nicks, 0);
        } else {
          WordIsRead(msg, items, nicks);
        }
      }
    }
  }

  lemma {:induction false} WordIsRead(msg: string, items: seq<Item>, nicks: seq<string>)
    requires Match(msg, items, nicks).ok && !Misread(msg, items, nicks) && items != [] && !items[0].Nick?
    ensures IsRead(msg, items, nicks)
    decreases |items|, 0, 0
  {
    MatchIsSound(msg, items, nicks);
    var i := FirstWord(Words(items[0], nicks), msg);
    var m := msg[|Words(items[0], nicks)[i]|..];
    ReadOrMisread(m, items[1..], nicks);
    var rest := Chosen(m, items[1..], nicks);
    assert ([i] + rest)[1..] == rest;
  }

  lemma {:induction false} NickIsRead(msg: string, items: seq<Item>, nicks: seq<string>, i: nat)
    requires items != [] && items[0].Nick? && i <= |nicks| && MatchNick(msg, items, nicks, i).ok
    requires |MatchNick(msg, items, nicks, i).names| <= NameCount(items)
    ensures var pick := ChosenNick(msg, items, nicks, i);
      InRange(items, nicks, pick) && MatchNick(msg, items, nicks, i).names == Listed(items, nicks, pick)
    decreases |items|, 0, |nicks| - i
  {
    NickIsSound(msg, items, nicks, i);
    var m := if nicks[i] <= msg then msg[|nicks[i]|..] else "";
    if nicks[i] <= msg && Match(m, items[1..], nicks).ok {
      ReadOrMisread(m, items[1..], nicks);
      var rest := Chosen(m, items[1..], nicks);
      assert ([i] + rest)[1..] == rest;
    } else {
      NamesOfNick(msg, items, nicks, i + 1);
      NickIsRead(msg, items, nicks, i + 1);
      var next := MatchNick(msg, items, nicks, i + 1);
      assert [] + next.names == next.names;
    }
  }

  // Whatever the message and the nicks, this is so exactly when no nick of the format
  // is followed by a team that can be met before the format fails; or nothing fits.
  lemma ReadingIsRight(items: seq<Item>)
    ensures (forall msg, nicks :: IsRead(msg, items, nicks)) <==> (Keeps(items) || Unknown in items)
  {
    if Unknown in items || Keeps(items) {
      forall msg, nicks ensures IsRead(msg, items, nicks) {
        if Match(msg, items, nicks).ok {
          if Unknown in items {
            UnknownFitsNothing(msg, items, nicks);
          } else {
            NamesAreListed(msg, items, nicks);
          }
        }
      }
    } else {
      var i :| 0 <= i < |items| && items[i].Nick? && MayLeave(items[i + 1..]);
      var msg, nicks := MayBeMisread(items, i);
      if IsRead(msg, items, nicks) {
        ListedCount(items, nicks, Chosen(msg, items, nicks));
      }
    }
  }

  // ---- The formats of messages.c with teams ----

  lemma TextBehind(s: string, msg: string, rest: seq<Item>, nicks: seq<string>)
    ensures Match(s + msg, [Text(s)] + rest, nicks) == Match(msg, rest, nicks)
  {
    assert (s + msg)[|s|..] == msg && ([Text(s)] + rest)[1..] == rest;
    assert FirstWord([s], s + msg) == 0;
  }

  lemma NickFails(nick: string, msg: string, rest: seq<Item>)
    requires !Match(msg, rest, [nick]).ok
    ensures Match(nick + msg, [Nick] + rest, [nick]) == Match(msg, rest, [nick])
  {
    var items := [Nick] + rest;
    assert items[1..] == rest && (nick + msg)[|nick|..] == msg && nick <= nick + msg;
    assert MatchNick(nick + msg, items, [nick], 1) == Outcome(false, []);
    var r := Match(msg, rest, [nick]);
    assert r.names + [] == r.names;
  }

  lemma TeamFails(msg: string, end: string, nicks: seq<string>)
    requires !(end <= msg)
    ensures Match("2" + msg, [Team] + [Text(end)], nicks) == Outcome(false, ["2"])
  {
    TakeWord(Team, "2" + msg, [Text(end)], nicks, 0);
    assert ("2" + msg)[1..] == msg;
  }

  function NickAndTeam(s: string, t: string, end: string): string {
    s + ['%', 'n'] + (t + ['%', 't'] + end)
  }

  lemma NickAndTeamParsed(s: string, t: string, end: string)
    requires '%' !in s && '%' !in t && '%' !in end
    ensures Parse(NickAndTeam(s, t, end)) == [Text(s), Nick] + ([Text(t), Team] + [Text(end)])
  {
    ParseText(end);
    ParseOne(t, 't', end);
    ParseOne(s, 'n', t + ['%', 't'] + end);
  }

  lemma Regrouped(a: Item, b: Item, rest: seq<Item>)
    ensures [a, b] + rest == [a] + ([b] + rest)
  {
  }

  // A player's nick, then a team, then text that is not there: the team stays.
  lemma TeamStays(s: string, t: string, end: string, nick: string, rest: string)
    requires '%' !in s && '%' !in t && '%' !in end && !(end <= rest)
    ensures Match(s + (nick + (t + ("2" + rest))), Parse(NickAndTeam(s, t, end)), [nick]) == Outcome(false, ["2"])
  {
    NickAndTeamParsed(s, t, end);
    Regrouped(Text(t), Team, [Text(end)]);
    Regrouped(Text(s), Nick, [Text(t)] + ([Team] + [Text(end)]));
    TeamFails(rest, end, [nick]);
    InFrontOfTeam(s, nick, t, "2" + rest, [Team] + [Text(end)]);
  }

  lemma InFrontOfTeam(s: string, nick: string, t: string, msg: string, rest: seq<Item>)
    requires !Match(msg, rest, [nick]).ok
    ensures Match(s + (nick + (t + msg)), [Text(s)] + ([Nick] + ([Text(t)] + rest)), [nick]) == Match(msg, rest, [nick])
  {
    TextBehind(t, msg, rest, [nick]);
    NickFails(nick, t + msg, [Text(t)] + rest);
    TextBehind(s, nick + (t + msg), [Nick] + ([Text(t)] + rest), [nick]);
  }

  const REPLACED_END := ") has replaced the treasure >"
  const REPLACED := " < %n" + (" (team %t" + REPLACED_END)

  lemma ReplacedPieces()
    ensures NickAndTeam(" < ", " (team ", REPLACED_END) == REPLACED
    ensures '%' !in " < " && '%' !in " (team " && '%' !in REPLACED_END
  {
    assert " < " + ['%', 'n'] == " < %n" && " (team " + ['%', 't'] == " (team %t";
  }

  lemma MessagePieces()
    ensures " < " + ("A" + (" (team " + ("2" + ") x"))) == " < A (team 2) x"
    ensures !(REPLACED_END <= ") x")
  {
  }

  // So it does in the format that tells who has replaced the treasure.
  lemma ReplacedLeavesTeam()
    ensures Match(" < A (team 2) x", Parse(REPLACED), ["A"]) == Outcome(false, ["2"])
  {
    ReplacedPieces();
    MessagePieces();
    TeamStays(" < ", " (team ", REPLACED_END, "A", ") x");
  }
}
