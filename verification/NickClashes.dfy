/** The two formats with teams, and the nicks for which trying one player after the other
    leaves a team behind: what is misread then, and how many names are stored. */
module NickClashes {
  import opened MsgFormats
  import opened Leftovers

  // Nicks are received in this much room, with the end of the text.
  const MAX_NAME_LEN := 16

  predicate Receivable(nicks: seq<string>) {
    forall k :: 0 <= k < |nicks| ==> |nicks[k]| < MAX_NAME_LEN
  }

  predicate IsTeam(c: char) { c in "2401356789" }

  // Text, a nick, text and a team, and then text and teams. One character of the text
  // behind the nick occurs only there.
  datatype TeamFormat = TeamFormat(front: string, mid: string, mark: nat, end: seq<Item>)

  predicate TextsAndTeams(items: seq<Item>) {
    forall i :: 0 <= i < |items| ==> items[i].Text? || items[i].Team?
  }

  predicate IsMarked(f: TeamFormat) {
    && f.mark <= 1 && f.mark < |f.mid| && !IsTeam(f.mid[0]) && !IsTeam(f.mid[f.mark])
    && (forall i :: 0 <= i < |f.mid| && f.mid[i] == f.mid[f.mark] ==> i == f.mark)
    && f.end != [] && f.end[0].Text? && f.mid[f.mark] !in f.end[0].s
    && |f.mid| + |f.end[0].s| >= MAX_NAME_LEN
    && TextsAndTeams(f.end) && f.end[|f.end| - 1].Text? && f.end[|f.end| - 1].s != ""
  }

  function Tail(f: TeamFormat): seq<Item> { [Text(f.mid), Team] + f.end }

  function Items(f: TeamFormat): seq<Item> { [Text(f.front)] + ([Nick] + Tail(f)) }

  // ---- What comes behind the nick ----

  // Text and teams do not depend on the players.
  lemma {:induction false} NickFree(msg: string, items: seq<Item>, nicks: seq<string>)
    requires TextsAndTeams(items)
    ensures Match(msg, items, nicks) == Match(msg, items, [])
    decreases |items|
  {
    if items != [] {
      var words := Words(items[0], nicks);
      var i := FirstWord(words, msg);
      if i < |words| {
        NickFree(msg[|words[i]|..], items[1..], nicks);
      }
    }
  }

  lemma {:induction false} NamesAtMost(msg: string, items: seq<Item>)
    requires TextsAndTeams(items)
    ensures |Match(msg, items, []).names| <= NameCount(items)
    ensures Match(msg, items, []).ok ==> |Match(msg, items, []).names| == NameCount(items)
    decreases |items|
  {
    if items != [] {
      var words := Words(items[0], []);
      var i := FirstWord(words, msg);
      if i < |words| {
        NamesAtMost(msg[|words[i]|..], items[1..]);
      }
    }
  }

  function After(f: TeamFormat, msg: string): Outcome { Match(msg, Tail(f), []) }

  // The text behind the nick, and a team.
  predicate Begins(f: TeamFormat, msg: string) {
    f.mid <= msg && |f.mid| < |msg| && IsTeam(msg[|f.mid|])
  }

  lemma TeamWord(msg: string)
    ensures var words := Words(Team, []);
      var i := FirstWord(words, msg);
      if msg != "" && IsTeam(msg[0]) then i < |words| && words[i] == [msg[0]] else i == |words|
  {
    var words := Words(Team, []);
    TeamsAreLetters(words);
    if msg != "" && IsTeam(msg[0]) {
      var k := TeamAt(msg[0]);
      assert words[k] <= msg;
    }
  }

  lemma TeamsAreLetters(words: seq<string>)
    requires words == Words(Team, [])
    ensures forall k :: 0 <= k < |words| ==> |words[k]| == 1 && IsTeam(words[k][0])
  {
  }

  lemma TeamAt(c: char) returns (k: nat)
    requires IsTeam(c)
    ensures k < 10 && Words(Team, [])[k] == [c]
  {
    k :| k < 10 && "2401356789"[k] == c;
  }

  lemma AfterIs(f: TeamFormat, msg: string)
    ensures if Begins(f, msg) then
        var r := Match(msg[|f.mid| + 1..], f.end, []);
        After(f, msg) == Outcome(r.ok, [[msg[|f.mid|]]] + r.names)
      else After(f, msg) == Outcome(false, [])
  {
    assert Tail(f) == [Text(f.mid)] + ([Team] + f.end);
    TextFirst(msg, f.mid, [Team] + f.end, []);
    if f.mid <= msg {
      var rest := msg[|f.mid|..];
      TeamWord(rest);
      if Begins(f, msg) {
        TakeWord(Team, rest, f.end, [], FirstWord(Words(Team, []), rest));
        assert rest[1..] == msg[|f.mid| + 1..];
      } else {
        NoWord(Team, rest, f.end, []);
      }
    }
  }

  // ---- Two nicks that begin the same message ----

  // The nick a, the text behind it and some team begin b.
  predicate Runs(f: TeamFormat, a: string, b: string) {
    a <= b && Begins(f, b[|a|..])
  }

  // When a team can be met behind both, the shorter one runs on into the longer one,
  // and fails directly behind the team.
  lemma Apart(f: TeamFormat, msg: string, a: string, b: string)
    requires IsMarked(f) && a <= msg && b <= msg && |a| < |b| < MAX_NAME_LEN
    requires Begins(f, msg[|a|..]) && Begins(f, msg[|b|..])
    ensures Runs(f, a, b)
    ensures !After(f, msg[|a|..]).ok && |After(f, msg[|a|..]).names| == 1
  {
    var rest, o := msg[|a|..], |b| - |a|;
    assert rest[o..] == msg[|b|..];
    FarBehind(f, rest, o);
    assert b[|a|..] == rest[..o];
    EndIsMissing(f, rest);
  }

  // The text behind the nick can only begin once more behind the team, and is no part of
  // the text that has to come there.
  lemma FarBehind(f: TeamFormat, rest: string, o: nat)
    requires IsMarked(f) && 0 < o < MAX_NAME_LEN && o <= |rest|
    requires Begins(f, rest) && Begins(f, rest[o..])
    ensures |f.mid| < o && !(f.end[0].s <= rest[|f.mid| + 1..])
  {
    var n, c := |f.mid|, f.mid[f.mark];
    assert rest[o + f.mark] == rest[o..][f.mark] == c && rest[o] == rest[o..][0] == f.mid[0];
    assert n < o + f.mark && o != n;
    assert rest[n + 1..][o + f.mark - n - 1] == c;
  }

  lemma EndIsMissing(f: TeamFormat, msg: string)
    requires IsMarked(f) && Begins(f, msg) && !(f.end[0].s <= msg[|f.mid| + 1..])
    ensures !After(f, msg).ok && |After(f, msg).names| == 1
  {
    AfterIs(f, msg);
    TextFirst(msg[|f.mid| + 1..], f.end[0].s, f.end[1..], []);
    assert f.end == [Text(f.end[0].s)] + f.end[1..];
  }

  // ---- One player after the other ----

  predicate Fits(f: TeamFormat, msg: string, nick: string) {
    nick <= msg && After(f, msg[|nick|..]).ok
  }

  // How many names trying this nick leaves.
  function Left(f: TeamFormat, msg: string, nick: string): nat {
    if nick <= msg then |After(f, msg[|nick|..]).names| else 0
  }

  function SumLeft(f: TeamFormat, msg: string, nicks: seq<string>, i: nat, n: nat): nat
    requires i <= n <= |nicks|
    decreases n - i
  {
    if i == n then 0 else Left(f, msg, nicks[i]) + SumLeft(f, msg, nicks, i + 1, n)
  }

  function Tries(f: TeamFormat, msg: string, nicks: seq<string>, i: nat): Outcome
    requires i <= |nicks|
  {
    MatchNick(msg, [Nick] + Tail(f), nicks, i)
  }

  // The names left by nicks i to n, none of which fits, come first.
  lemma {:induction false} SkipTries(f: TeamFormat, msg: string, nicks: seq<string>, i: nat, n: nat)
    requires i <= n <= |nicks| && TextsAndTeams(Tail(f)) && forall k :: i <= k < n ==> !Fits(f, msg, nicks[k])
    ensures var a, b := Tries(f, msg, nicks, i), Tries(f, msg, nicks, n);
      a.ok == b.ok && |a.names| == SumLeft(f, msg, nicks, i, n) + |b.names|
    decreases n - i
  {
    if i < n {
      TryNick(msg, Tail(f), nicks, i);
      if nicks[i] <= msg {
        NickFree(msg[|nicks[i]|..], Tail(f), nicks);
      }
      SkipTries(f, msg, nicks, i + 1, n);
    }
  }

  // The first nick that fits, if there is one.
  lemma {:induction false} FirstFit(f: TeamFormat, msg: string, nicks: seq<string>, i: nat) returns (s: nat)
    requires i <= |nicks|
    ensures i <= s <= |nicks| && (forall k :: i <= k < s ==> !Fits(f, msg, nicks[k]))
    ensures s < |nicks| ==> Fits(f, msg, nicks[s])
    decreases |nicks| - i
  {
    s := i;
    if i < |nicks| && !Fits(f, msg, nicks[i]) {
      s := FirstFit(f, msg, nicks, i + 1);
    }
  }

  // All names that are stored when the nicks are tried.
  lemma TriedNames(f: TeamFormat, msg: string, nicks: seq<string>, s: nat)
    requires TextsAndTeams(Tail(f)) && s <= |nicks| && forall k :: 0 <= k < s ==> !Fits(f, msg, nicks[k])
    requires s < |nicks| ==> Fits(f, msg, nicks[s])
    ensures Tries(f, msg, nicks, 0).ok == (s < |nicks|)
    ensures |Tries(f, msg, nicks, 0).names|
      == SumLeft(f, msg, nicks, 0, s) + if s < |nicks| then NameCount(Tail(f)) + 1 else 0
  {
    SkipTries(f, msg, nicks, 0, s);
    if s < |nicks| {
      TryNick(msg, Tail(f), nicks, s);
      NickFree(msg[|nicks[s]|..], Tail(f), nicks);
      NamesAtMost(msg[|nicks[s]|..], Tail(f));
    }
  }

  // ---- Which nicks leave names ----

  // The longest nick that leaves names, if one does.
  lemma {:induction false} LongestLeft(f: TeamFormat, msg: string, nicks: seq<string>, n: nat) returns (p: nat)
    requires n <= |nicks|
    ensures p <= n && (p < n ==> Left(f, msg, nicks[p]) > 0)
    ensures forall k :: 0 <= k < n && Left(f, msg, nicks[k]) > 0 ==> p < n && |nicks[k]| <= |nicks[p]|
  {
    if n == 0 {
      p := 0;
    } else {
      p := LongestLeft(f, msg, nicks, n - 1);
      if Left(f, msg, nicks[n - 1]) == 0 {
        p := if p == n - 1 then n else p;
      } else if p == n - 1 || |nicks[p]| < |nicks[n - 1]| {
        p := n - 1;
      }
    }
  }

  lemma LeavesOnlyBehind(f: TeamFormat, msg: string, nick: string)
    ensures Left(f, msg, nick) > 0 <==> nick <= msg && Begins(f, msg[|nick|..])
    ensures Fits(f, msg, nick) ==> Left(f, msg, nick) > 0
  {
    if nick <= msg {
      AfterIs(f, msg[|nick|..]);
    }
  }

  // Beside a longer nick that leaves names or fits, another one leaves a team if it runs
  // on into that one, and no name otherwise.
  lemma BesideLonger(f: TeamFormat, msg: string, a: string, b: string)
    requires IsMarked(f) && |a| < MAX_NAME_LEN && |b| < MAX_NAME_LEN && Left(f, msg, b) > 0
    requires Left(f, msg, a) > 0 && |a| <= |b|
    ensures a == b || (Runs(f, a, b) && Left(f, msg, a) == 1 && !Fits(f, msg, a))
  {
    LeavesOnlyBehind(f, msg, a);
    LeavesOnlyBehind(f, msg, b);
    if |a| == |b| {
      assert a == msg[..|a|] == b;
    } else {
      Apart(f, msg, a, b);
    }
  }

  lemma RunsLeave(f: TeamFormat, msg: string, a: string, b: string)
    requires Runs(f, a, b) && b <= msg
    ensures Left(f, msg, a) > 0
  {
    var rest, more := b[|a|..], msg[|a|..];
    assert rest <= more && more[|f.mid|] == rest[|f.mid|];
    LeavesOnlyBehind(f, msg, a);
  }

  // How many names are left by trying this nick with a message for the nick b, which
  // itself leaves c of them.
  function Weight(f: TeamFormat, nick: string, b: string, c: nat): nat {
    if Runs(f, nick, b) then 1 else if nick == b then c else 0
  }

  function Load(f: TeamFormat, nicks: seq<string>, b: string, c: nat, i: nat, n: nat): nat
    requires i <= n <= |nicks|
    decreases n - i
  {
    if i == n then 0 else Weight(f, nicks[i], b, c) + Load(f, nicks, b, c, i + 1, n)
  }

  lemma {:induction false} SumAtMost(f: TeamFormat, msg: string, nicks: seq<string>, b: string, c: nat, i: nat, n: nat)
    requires i <= n <= |nicks| && forall k :: i <= k < n ==> Left(f, msg, nicks[k]) <= Weight(f, nicks[k], b, c)
    ensures SumLeft(f, msg, nicks, i, n) <= Load(f, nicks, b, c, i, n)
    decreases n - i
  {
    if i < n {
      SumAtMost(f, msg, nicks, b, c, i + 1, n);
    }
  }

  lemma {:induction false} SumAtLeast(f: TeamFormat, msg: string, nicks: seq<string>, b: string, c: nat, i: nat, n: nat)
    requires i <= n <= |nicks| && forall k :: i <= k < n ==> Left(f, msg, nicks[k]) >= Weight(f, nicks[k], b, c)
    ensures SumLeft(f, msg, nicks, i, n) >= Load(f, nicks, b, c, i, n)
    decreases n - i
  {
    if i < n {
      SumAtLeast(f, msg, nicks, b, c, i + 1, n);
    }
  }

  lemma {:induction false} SumIsZero(f: TeamFormat, msg: string, nicks: seq<string>, i: nat, n: nat)
    requires i <= n <= |nicks| && forall k :: i <= k < n ==> Left(f, msg, nicks[k]) == 0
    ensures SumLeft(f, msg, nicks, i, n) == 0
    decreases n - i
  {
    if i < n {
      SumIsZero(f, msg, nicks, i + 1, n);
    }
  }

  // ---- Messages that reach the bounds ----

  lemma TailIsPlain(f: TeamFormat)
    requires TextsAndTeams(f.end)
    ensures TextsAndTeams(Tail(f)) && Unknown !in Tail(f) && NameCount(Tail(f)) >= 1
  {
    forall i | 0 <= i < |Tail(f)| ensures Tail(f)[i].Text? || Tail(f)[i].Team? {
      assert i > 1 ==> Tail(f)[i] == f.end[i - 2];
    }
    TailNames(f);
  }

  lemma TailNames(f: TeamFormat)
    ensures NameCount(Tail(f)) == 1 + NameCount(f.end)
  {
    assert Tail(f)[1..] == [Team] + f.end && ([Team] + f.end)[1..] == f.end;
  }

  // A message for the nick, with all first words behind it.
  function FittingMessage(f: TeamFormat, nick: string): string
    requires Unknown !in Tail(f)
  {
    nick + FirstWords(Tail(f), [nick])
  }

  // The same without the last text.
  function FailingMessage(f: TeamFormat, nick: string): string
    requires Unknown !in Tail(f)
  {
    nick + FirstWords(Tail(f)[..|Tail(f)| - 1], [nick])
  }

  lemma FittingFits(f: TeamFormat, nick: string)
    requires TextsAndTeams(Tail(f)) && Unknown !in Tail(f)
    ensures Fits(f, FittingMessage(f, nick), nick)
    ensures Left(f, FittingMessage(f, nick), nick) == NameCount(Tail(f))
  {
    var rest := FirstWords(Tail(f), [nick]);
    assert FittingMessage(f, nick)[|nick|..] == rest;
    FirstWordsMatch(Tail(f), [nick]);
    NickFree(rest, Tail(f), [nick]);
    NamesAtMost(rest, Tail(f));
  }

  // Without the last text, all names are written and the match fails.
  lemma {:induction false} ShortFails(items: seq<Item>, nicks: seq<string>)
    requires TextsAndTeams(items) && items != [] && items[|items| - 1].Text? && items[|items| - 1].s != ""
    requires Unknown !in items && nicks != []
    ensures var msg := FirstWords(items[..|items| - 1], nicks);
      !Match(msg, items, []).ok && |Match(msg, items, []).names| == NameCount(items)
      && |msg| < |FirstWords(items, nicks)|
    decreases |items|
  {
    var front := items[..|items| - 1];
    if |items| == 1 {
      assert front == [] && NameCount(items[1..]) == 0;
    } else {
      ShortFails(items[1..], nicks);
      assert front[1..] == items[1..][..|items| - 2] && front[0] == items[0];
      var word, rest := Words(items[0], nicks)[0], FirstWords(front[1..], nicks);
      assert (word + rest)[|word|..] == rest && word <= word + rest;
      assert Words(items[0], [])[0] == word;
    }
  }

  lemma {:induction false} FittingIsLong(msg: string, items: seq<Item>, nicks: seq<string>)
    requires TextsAndTeams(items) && Unknown !in items && nicks != [] && Match(msg, items, []).ok
    ensures |FirstWords(items, nicks)| <= |msg|
    decreases |items|
  {
    if items != [] {
      var words := Words(items[0], []);
      var i := FirstWord(words, msg);
      assert |words[i]| == |words[0]|;
      FittingIsLong(msg[|words[i]|..], items[1..], nicks);
    }
  }

  lemma FailingFails(f: TeamFormat, nick: string)
    requires IsMarked(f) && TextsAndTeams(Tail(f)) && Unknown !in Tail(f)
    ensures var msg := FailingMessage(f, nick);
      !Fits(f, msg, nick) && Left(f, msg, nick) == NameCount(Tail(f))
      && |msg| < |nick| + |FirstWords(Tail(f), [nick])|
  {
    var rest := FirstWords(Tail(f)[..|Tail(f)| - 1], [nick]);
    assert FailingMessage(f, nick)[|nick|..] == rest;
    assert Tail(f)[|Tail(f)| - 1] == f.end[|f.end| - 1];
    ShortFails(Tail(f), [nick]);
  }

  // ---- How many names are stored ----

  // The text in front is matched, and then the nicks are tried.
  lemma BehindFront(f: TeamFormat, msg: string, nicks: seq<string>)
    ensures Match(msg, Items(f), nicks)
      == if f.front <= msg then Tries(f, msg[|f.front|..], nicks, 0) else Outcome(false, [])
  {
    TextFirst(msg, f.front, [Nick] + Tail(f), nicks);
  }

  ghost predicate IsFirstFit(f: TeamFormat, msg: string, nicks: seq<string>, s: nat) {
    && s <= |nicks| && (forall k :: 0 <= k < s ==> !Fits(f, msg, nicks[k]))
    && (s < |nicks| ==> Fits(f, msg, nicks[s]))
  }

  // Before the first nick that fits, a nick leaves a team only if it runs on into that
  // one, which has not come before.
  lemma BeforeFit(f: TeamFormat, msg: string, nicks: seq<string>, s: nat)
    requires IsMarked(f) && Receivable(nicks) && IsFirstFit(f, msg, nicks, s) && s < |nicks|
    ensures nicks[s] !in nicks[..s]
    ensures forall k :: 0 <= k < s && Left(f, msg, nicks[k]) > 0 ==>
      Runs(f, nicks[k], nicks[s]) && Left(f, msg, nicks[k]) == 1
  {
    LeavesOnlyBehind(f, msg, nicks[s]);
    forall k | 0 <= k < s && Left(f, msg, nicks[k]) > 0
      ensures Runs(f, nicks[k], nicks[s]) && Left(f, msg, nicks[k]) == 1
    {
      if |nicks[k]| <= |nicks[s]| {
        BesideLonger(f, msg, nicks[k], nicks[s]);
      } else {
        BesideLonger(f, msg, nicks[s], nicks[k]);
      }
    }
  }

  // If none fits, the names left are those beside the longest nick that leaves any.
  lemma WithoutFit(f: TeamFormat, msg: string, nicks: seq<string>) returns (p: nat)
    requires IsMarked(f) && TextsAndTeams(Tail(f)) && Receivable(nicks) && IsFirstFit(f, msg, nicks, |nicks|)
    ensures SumLeft(f, msg, nicks, 0, |nicks|) == 0
      || (p < |nicks| && SumLeft(f, msg, nicks, 0, |nicks|) <= Load(f, nicks, nicks[p], NameCount(Tail(f)), 0, |nicks|))
  {
    p := LongestLeft(f, msg, nicks, |nicks|);
    if p == |nicks| {
      SumIsZero(f, msg, nicks, 0, |nicks|);
    } else {
      var c := NameCount(Tail(f));
      forall k | 0 <= k < |nicks| ensures Left(f, msg, nicks[k]) <= Weight(f, nicks[k], nicks[p], c) {
        if Left(f, msg, nicks[k]) > 0 {
          BesideLonger(f, msg, nicks[k], nicks[p]);
          NamesAtMost(msg[|nicks[k]|..], Tail(f));
        }
      }
      SumAtMost(f, msg, nicks, nicks[p], c, 0, |nicks|);
    }
  }

  // More names are stored for a message for the j-th nick than there is room for, when
  // it fits, or when it fails at its end.
  predicate Overflows(f: TeamFormat, nicks: seq<string>, j: nat)
    requires j < |nicks|
  {
    var c := NameCount(Tail(f));
    || (nicks[j] !in nicks[..j] && Load(f, nicks, nicks[j], c, 0, j) + c + 1 > MSG_MAX_NAMES)
    || Load(f, nicks, nicks[j], c, 0, |nicks|) > MSG_MAX_NAMES
  }

  predicate SlotsSuffice(f: TeamFormat, nicks: seq<string>) {
    forall j :: 0 <= j < |nicks| ==> !Overflows(f, nicks, j)
  }

  ghost predicate Stored(msg: string, items: seq<Item>, nicks: seq<string>) {
    |Match(msg, items, nicks).names| <= MSG_MAX_NAMES
  }

  lemma EnoughSlots(f: TeamFormat, msg: string, nicks: seq<string>)
    requires IsMarked(f) && Receivable(nicks) && SlotsSuffice(f, nicks)
    ensures Stored(msg, Items(f), nicks)
  {
    TailIsPlain(f);
    BehindFront(f, msg, nicks);
    if f.front <= msg {
      var m, c := msg[|f.front|..], NameCount(Tail(f));
      var s := FirstFit(f, m, nicks, 0);
      TriedNames(f, m, nicks, s);
      if s < |nicks| {
        BeforeFit(f, m, nicks, s);
        SumAtMost(f, m, nicks, nicks[s], c, 0, s);
        assert !Overflows(f, nicks, s);
      } else {
        var p := WithoutFit(f, m, nicks);
        if p < |nicks| {
          assert !Overflows(f, nicks, p);
        }
      }
    }
  }

  // The message for a nick that has not come before fits that nick first.
  lemma FitsFirst(f: TeamFormat, nicks: seq<string>, j: nat)
    requires IsMarked(f) && TextsAndTeams(Tail(f)) && Unknown !in Tail(f) && Receivable(nicks)
    requires j < |nicks| && nicks[j] !in nicks[..j]
    ensures IsFirstFit(f, FittingMessage(f, nicks[j]), nicks, j)
  {
    var m := FittingMessage(f, nicks[j]);
    FittingFits(f, nicks[j]);
    var s := FirstFit(f, m, nicks, 0);
    LeavesOnlyBehind(f, m, nicks[s]);
    LeavesOnlyBehind(f, m, nicks[j]);
    if |nicks[j]| <= |nicks[s]| {
      BesideLonger(f, m, nicks[j], nicks[s]);
    } else {
      BesideLonger(f, m, nicks[s], nicks[j]);
    }
  }

  // The message that fails at its end fits no nick.
  lemma FailsAll(f: TeamFormat, nicks: seq<string>, j: nat)
    requires IsMarked(f) && TextsAndTeams(Tail(f)) && Unknown !in Tail(f) && NameCount(Tail(f)) >= 1
    requires Receivable(nicks) && j < |nicks|
    ensures IsFirstFit(f, FailingMessage(f, nicks[j]), nicks, |nicks|)
  {
    var m := FailingMessage(f, nicks[j]);
    FailingFails(f, nicks[j]);
    forall k | 0 <= k < |nicks| ensures !Fits(f, m, nicks[k]) {
      if Fits(f, m, nicks[k]) {
        LeavesOnlyBehind(f, m, nicks[k]);
        FittingIsLong(m[|nicks[k]|..], Tail(f), [nicks[j]]);
        BesideLonger(f, m, nicks[k], nicks[j]);
      }
    }
  }

  lemma LoadIsLeft(f: TeamFormat, m: string, nicks: seq<string>, j: nat, n: nat)
    requires j < |nicks| && n <= |nicks| && nicks[j] <= m && Left(f, m, nicks[j]) == NameCount(Tail(f))
    ensures SumLeft(f, m, nicks, 0, n) >= Load(f, nicks, nicks[j], NameCount(Tail(f)), 0, n)
  {
    forall k | 0 <= k < n ensures Left(f, m, nicks[k]) >= Weight(f, nicks[k], nicks[j], NameCount(Tail(f))) {
      if Runs(f, nicks[k], nicks[j]) {
        RunsLeave(f, m, nicks[k], nicks[j]);
      }
    }
    SumAtLeast(f, m, nicks, nicks[j], NameCount(Tail(f)), 0, n);
  }

  lemma TooFewSlots(f: TeamFormat, nicks: seq<string>, j: nat) returns (msg: string)
    requires IsMarked(f) && Receivable(nicks) && j < |nicks| && Overflows(f, nicks, j)
    ensures !Stored(msg, Items(f), nicks)
  {
    TailIsPlain(f);
    var c := NameCount(Tail(f));
    var m, s;
    if nicks[j] !in nicks[..j] && Load(f, nicks, nicks[j], c, 0, j) + c + 1 > MSG_MAX_NAMES {
      m, s := FittingMessage(f, nicks[j]), j;
      FittingFits(f, nicks[j]);
      FitsFirst(f, nicks, j);
    } else {
      m, s := FailingMessage(f, nicks[j]), |nicks|;
      FailingFails(f, nicks[j]);
      FailsAll(f, nicks, j);
    }
    LoadIsLeft(f, m, nicks, j, s);
    TriedNames(f, m, nicks, s);
    msg := f.front + m;
    BehindFront(f, msg, nicks);
    assert msg[|f.front|..] == m;
  }

  // For nicks that can be received, the slots hold all names of every message exactly
  // when no nick overflows them.
  lemma SlotsAreExact(f: TeamFormat, nicks: seq<string>)
    requires IsMarked(f) && Receivable(nicks)
    ensures (forall msg :: Stored(msg, Items(f), nicks)) <==> SlotsSuffice(f, nicks)
  {
    if SlotsSuffice(f, nicks) {
      forall msg ensures Stored(msg, Items(f), nicks) {
        EnoughSlots(f, msg, nicks);
      }
    } else {
      var j :| 0 <= j < |nicks| && Overflows(f, nicks, j);
      var msg := TooFewSlots(f, nicks, j);
    }
  }

  // ---- Which nicks are misread ----

  // The j-th nick has not come before, and an earlier one runs on into it.
  predicate Clash(f: TeamFormat, nicks: seq<string>, i: int, j: int) {
    0 <= i < j < |nicks| && nicks[j] !in nicks[..j] && Runs(f, nicks[i], nicks[j])
  }

  lemma {:induction false} SumHasLeft(f: TeamFormat, msg: string, nicks: seq<string>, i: nat, n: nat) returns (k: nat)
    requires i <= n <= |nicks| && SumLeft(f, msg, nicks, i, n) > 0
    ensures i <= k < n && Left(f, msg, nicks[k]) > 0
    decreases n - i
  {
    k := i;
    if Left(f, msg, nicks[i]) == 0 {
      k := SumHasLeft(f, msg, nicks, i + 1, n);
    }
  }

  lemma {:induction false} SumHolds(f: TeamFormat, msg: string, nicks: seq<string>, i: nat, k: nat, n: nat)
    requires i <= k < n <= |nicks|
    ensures SumLeft(f, msg, nicks, i, n) >= Left(f, msg, nicks[k])
    decreases n - i
  {
    if i < k {
      SumHolds(f, msg, nicks, i + 1, k, n);
    }
  }

  lemma ItemCount(f: TeamFormat)
    ensures NameCount(Items(f)) == NameCount(Tail(f)) + 1
  {
    assert Items(f)[1..] == [Nick] + Tail(f) && ([Nick] + Tail(f))[1..] == Tail(f);
  }

  lemma MisreadHasClash(f: TeamFormat, msg: string, nicks: seq<string>) returns (i: int, j: int)
    requires IsMarked(f) && Receivable(nicks) && Misread(msg, Items(f), nicks)
    ensures Clash(f, nicks, i, j)
  {
    TailIsPlain(f);
    BehindFront(f, msg, nicks);
    ItemCount(f);
    var m := msg[|f.front|..];
    var s := FirstFit(f, m, nicks, 0);
    TriedNames(f, m, nicks, s);
    BeforeFit(f, m, nicks, s);
    var k := SumHasLeft(f, m, nicks, 0, s);
    i, j := k, s;
  }

  lemma ClashIsMisread(f: TeamFormat, nicks: seq<string>, i: int, j: int)
    requires IsMarked(f) && Receivable(nicks) && Clash(f, nicks, i, j)
    ensures Unknown !in Tail(f) && Misread(f.front + FittingMessage(f, nicks[j]), Items(f), nicks)
  {
    TailIsPlain(f);
    ItemCount(f);
    var m := FittingMessage(f, nicks[j]);
    FitsFirst(f, nicks, j);
    TriedNames(f, m, nicks, j);
    RunsLeave(f, m, nicks[i], nicks[j]);
    SumHolds(f, m, nicks, 0, i, j);
    BehindFront(f, f.front + m, nicks);
    assert (f.front + m)[|f.front|..] == m;
  }

  // For nicks that can be received, some message is misread exactly when two of them clash.
  lemma MisreadIsClash(f: TeamFormat, nicks: seq<string>)
    requires IsMarked(f) && Receivable(nicks)
    ensures (exists msg :: !IsRead(msg, Items(f), nicks)) <==> (exists i, j :: Clash(f, nicks, i, j))
  {
    if i, j :| Clash(f, nicks, i, j) {
      ClashIsMisread(f, nicks, i, j);
      ReadOrMisread(f.front + FittingMessage(f, nicks[j]), Items(f), nicks);
    }
    if msg :| !IsRead(msg, Items(f), nicks) {
      ReadOrMisread(msg, Items(f), nicks);
      var i, j := MisreadHasClash(f, msg, nicks);
    }
  }
}
