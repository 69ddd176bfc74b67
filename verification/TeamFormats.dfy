/** The formats of messages.c that tell who has replaced the treasure and who has
    destroyed one. */
module TeamFormats {
  import opened MsgFormats
  import opened Leftovers
  import opened NickClashes

  const REPLACED_FORMAT := TeamFormat(" < ", " (team ", 1, [Text(REPLACED_END)])

  const DESTROYED_MID := ") team has destroyed team "
  const DESTROYED_END := " treasure >"
  const DESTROYED := " < %n" + ("'s (%t" + (") team has destroyed team %t" + DESTROYED_END))
  const DESTROYED_FORMAT := TeamFormat(" < ", "'s (", 0, [Text(DESTROYED_MID), Team, Text(DESTROYED_END)])

  // ---- They are of the kind that is decided by the nicks ----

  lemma ReplacedIsMarked()
    ensures IsMarked(REPLACED_FORMAT)
  {
  }

  lemma DestroyedIsMarked()
    ensures IsMarked(DESTROYED_FORMAT)
  {
  }

  lemma ReplacedNames()
    ensures NameCount(Tail(REPLACED_FORMAT)) == 1
  {
    TailNames(REPLACED_FORMAT);
    assert [Text(REPLACED_END)][1..] == [];
  }

  lemma DestroyedNames()
    ensures NameCount(Tail(DESTROYED_FORMAT)) == 2
  {
    TailNames(DESTROYED_FORMAT);
    CountMore(Text(DESTROYED_END), []);
    CountMore(Team, [Text(DESTROYED_END)]);
    CountMore(Text(DESTROYED_MID), [Team] + [Text(DESTROYED_END)]);
    assert DESTROYED_FORMAT.end == [Text(DESTROYED_MID)] + ([Team] + [Text(DESTROYED_END)]);
  }

  lemma CountMore(item: Item, rest: seq<Item>)
    ensures NameCount([item] + rest) == (if item.Nick? || item.Team? then 1 else 0) + NameCount(rest)
  {
    assert ([item] + rest)[1..] == rest;
  }

  // The text of a format of this kind.
  lemma FormatParsed(f: TeamFormat, end: string)
    requires '%' !in f.front && '%' !in f.mid && IsFormat(f.end) && end == Render(f.end)
    ensures Parse(f.front + ['%', 'n'] + (f.mid + ['%', 't'] + end)) == Items(f)
  {
    var items := Items(f);
    assert items[2..] == Tail(f) && Tail(f)[2..] == f.end;
    RenderTwo(items);
    RenderTwo(Tail(f));
    assert IsFormat(Tail(f)) && IsFormat(items);
    ParseRender(items);
  }

  lemma ReplacedParsed()
    ensures Parse(REPLACED) == Items(REPLACED_FORMAT)
  {
    ReplacedPieces();
    ParseText(REPLACED_END);
    FormatParsed(REPLACED_FORMAT, REPLACED_END);
  }

  lemma DestroyedPieces()
    ensures " < " + ['%', 'n'] + ("'s (" + ['%', 't'] + (DESTROYED_MID + ['%', 't'] + DESTROYED_END)) == DESTROYED
    ensures '%' !in " < " && '%' !in "'s (" && '%' !in DESTROYED_MID && '%' !in DESTROYED_END
  {
    assert " < " + ['%', 'n'] == " < %n" && "'s (" + ['%', 't'] == "'s (%t";
    assert DESTROYED_MID + ['%', 't'] == ") team has destroyed team %t";
  }

  lemma DestroyedRendered()
    ensures IsFormat(DESTROYED_FORMAT.end)
    ensures Render(DESTROYED_FORMAT.end) == DESTROYED_MID + ['%', 't'] + DESTROYED_END
  {
    DestroyedPieces();
    ParseText(DESTROYED_END);
    RenderTwo(DESTROYED_FORMAT.end);
    assert DESTROYED_FORMAT.end[2..] == [Text(DESTROYED_END)];
  }

  lemma DestroyedParsed()
    ensures Parse(DESTROYED) == Items(DESTROYED_FORMAT)
  {
    DestroyedPieces();
    DestroyedRendered();
    FormatParsed(DESTROYED_FORMAT, DESTROYED_MID + ['%', 't'] + DESTROYED_END);
  }

  // ---- Nicks that differ ----

  // The server refuses a nick that is in use.
  predicate Different(nicks: seq<string>) {
    forall i, j :: 0 <= i < j < |nicks| ==> nicks[i] != nicks[j]
  }

  // Two nicks that run on into the same one run on into each other.
  lemma BothRun(f: TeamFormat, a: string, b: string, c: string)
    requires IsMarked(f) && |c| < MAX_NAME_LEN && Runs(f, a, c) && Runs(f, b, c) && |a| <= |b|
    ensures a == b || Runs(f, a, b)
  {
    if |a| == |b| {
      assert a == c[..|a|] == b;
    } else {
      Apart(f, c, a, b);
    }
  }

  lemma RunsOn(f: TeamFormat, a: string, b: string, c: string)
    requires Runs(f, a, b) && Runs(f, b, c)
    ensures Runs(f, a, c)
  {
    assert b[|a|..] <= c[|a|..];
  }

  // Of different nicks at most one is the nick b itself, so the others run on into it.
  lemma {:induction false} NoneRuns(f: TeamFormat, nicks: seq<string>, b: string, c: nat, i: nat, n: nat)
    requires i <= n <= |nicks| && Different(nicks)
    requires forall k :: i <= k < n ==> !Runs(f, nicks[k], b)
    ensures Load(f, nicks, b, c, i, n) <= c
    ensures b !in nicks[i..n] ==> Load(f, nicks, b, c, i, n) == 0
    decreases n - i
  {
    if i < n {
      NoneRuns(f, nicks, b, c, i + 1, n);
      assert nicks[i..n] == [nicks[i]] + nicks[i + 1..n];
      if nicks[i] == b {
        assert forall k :: i < k < n ==> nicks[i + 1..n][k - i - 1] == nicks[k];
        assert b !in nicks[i + 1..n];
      }
    }
  }

  // If only one of them does, it adds one name.
  lemma {:induction false} OneRuns(f: TeamFormat, nicks: seq<string>, b: string, c: nat, i: nat, n: nat)
    requires i <= n <= |nicks| && Different(nicks)
    requires forall k, l :: i <= k < l < n && Runs(f, nicks[k], b) ==> !Runs(f, nicks[l], b)
    ensures Load(f, nicks, b, c, i, n) <= c + 1
    ensures b !in nicks[i..n] ==> Load(f, nicks, b, c, i, n) <= 1
    decreases n - i
  {
    if i < n {
      assert nicks[i..n] == [nicks[i]] + nicks[i + 1..n];
      if Runs(f, nicks[i], b) {
        NoneRuns(f, nicks, b, c, i + 1, n);
      } else {
        OneRuns(f, nicks, b, c, i + 1, n);
        if nicks[i] == b {
          assert forall k :: i < k < n ==> nicks[i + 1..n][k - i - 1] == nicks[k];
          assert b !in nicks[i + 1..n];
        }
      }
    }
  }

  lemma {:induction false} LoadHolds(f: TeamFormat, nicks: seq<string>, b: string, c: nat, i: nat, k: nat, n: nat)
    requires i <= k < n <= |nicks|
    ensures Load(f, nicks, b, c, i, n) >= Weight(f, nicks[k], b, c) + Load(f, nicks, b, c, k + 1, n)
    decreases n - i
  {
    if i < k {
      LoadHolds(f, nicks, b, c, i + 1, k, n);
    }
  }

  // ---- What is misread, and what is stored ----

  lemma ReplacedIsMisread(nicks: seq<string>)
    requires Receivable(nicks)
    ensures (exists msg :: !IsRead(msg, Parse(REPLACED), nicks))
      <==> (exists i, j :: Clash(REPLACED_FORMAT, nicks, i, j))
  {
    ReplacedParsed();
    ReplacedIsMarked();
    MisreadIsClash(REPLACED_FORMAT, nicks);
  }

  lemma DestroyedIsMisread(nicks: seq<string>)
    requires Receivable(nicks)
    ensures (exists msg :: !IsRead(msg, Parse(DESTROYED), nicks))
      <==> (exists i, j :: Clash(DESTROYED_FORMAT, nicks, i, j))
  {
    DestroyedParsed();
    DestroyedIsMarked();
    MisreadIsClash(DESTROYED_FORMAT, nicks);
  }

  // Two texts and teams behind a nick do not fit into the length of one.
  lemma ReplacedRunsOnce(nicks: seq<string>, b: string, k: nat, l: nat)
    requires Receivable(nicks) && Different(nicks) && |b| < MAX_NAME_LEN && k < l < |nicks|
    requires Runs(REPLACED_FORMAT, nicks[k], b)
    ensures !Runs(REPLACED_FORMAT, nicks[l], b)
  {
    ReplacedIsMarked();
    if Runs(REPLACED_FORMAT, nicks[l], b) {
      if |nicks[k]| <= |nicks[l]| {
        BothRun(REPLACED_FORMAT, nicks[k], nicks[l], b);
      } else {
        BothRun(REPLACED_FORMAT, nicks[l], nicks[k], b);
      }
    }
  }

  lemma ReplacedSlots(nicks: seq<string>, j: nat)
    requires Receivable(nicks) && Different(nicks) && j < |nicks|
    ensures !Overflows(REPLACED_FORMAT, nicks, j)
  {
    ReplacedNames();
    forall k, l | 0 <= k < l < |nicks| && Runs(REPLACED_FORMAT, nicks[k], nicks[j])
      ensures !Runs(REPLACED_FORMAT, nicks[l], nicks[j])
    {
      ReplacedRunsOnce(nicks, nicks[j], k, l);
    }
    OneRuns(REPLACED_FORMAT, nicks, nicks[j], 1, 0, j);
    OneRuns(REPLACED_FORMAT, nicks, nicks[j], 1, 0, |nicks|);
    assert nicks[0..j] == nicks[..j];
  }

  // Different nicks that can be received never need more than three slots for the format
  // that tells who has replaced the treasure.
  lemma ReplacedIsStored(nicks: seq<string>, msg: string)
    requires Receivable(nicks) && Different(nicks)
    ensures Stored(msg, Parse(REPLACED), nicks)
  {
    ReplacedParsed();
    ReplacedIsMarked();
    forall j | 0 <= j < |nicks| ensures !Overflows(REPLACED_FORMAT, nicks, j) {
      ReplacedSlots(nicks, j);
    }
    EnoughSlots(REPLACED_FORMAT, msg, nicks);
  }

  // An earlier nick runs on into a later one.
  ghost predicate Follows(f: TeamFormat, nicks: seq<string>) {
    exists i, j :: 0 <= i < j < |nicks| && Runs(f, nicks[i], nicks[j])
  }

  // A nick runs on into another one, and that into a third one.
  ghost predicate Chain(f: TeamFormat, nicks: seq<string>) {
    exists i, j, k :: 0 <= i < |nicks| && 0 <= j < |nicks| && 0 <= k < |nicks|
      && Runs(f, nicks[i], nicks[j]) && Runs(f, nicks[j], nicks[k])
  }

  lemma NoOverflow(f: TeamFormat, nicks: seq<string>, j: nat)
    requires IsMarked(f) && NameCount(Tail(f)) == 2 && Receivable(nicks) && Different(nicks) && j < |nicks|
    requires !Follows(f, nicks) && !Chain(f, nicks)
    ensures !Overflows(f, nicks, j)
  {
    NoneRuns(f, nicks, nicks[j], 2, 0, j);
    forall k, l | 0 <= k < l < |nicks| && Runs(f, nicks[k], nicks[j])
      ensures !Runs(f, nicks[l], nicks[j])
    {
      if Runs(f, nicks[l], nicks[j]) {
        if |nicks[k]| <= |nicks[l]| {
          BothRun(f, nicks[k], nicks[l], nicks[j]);
        } else {
          BothRun(f, nicks[l], nicks[k], nicks[j]);
        }
      }
    }
    OneRuns(f, nicks, nicks[j], 2, 0, |nicks|);
    assert nicks[0..j] == nicks[..j];
  }

  lemma FollowsOverflows(f: TeamFormat, nicks: seq<string>, i: nat, j: nat)
    requires NameCount(Tail(f)) == 2 && Different(nicks) && i < j < |nicks| && Runs(f, nicks[i], nicks[j])
    ensures Overflows(f, nicks, j)
  {
    LoadHolds(f, nicks, nicks[j], 2, 0, i, j);
  }

  lemma ChainOverflows(f: TeamFormat, nicks: seq<string>, a: nat, b: nat, c: nat)
    requires NameCount(Tail(f)) == 2 && c < b < a < |nicks|
    requires Runs(f, nicks[a], nicks[b]) && Runs(f, nicks[b], nicks[c])
    ensures Overflows(f, nicks, c)
  {
    RunsOn(f, nicks[a], nicks[b], nicks[c]);
    var load := LoadOfChain(f, nicks, nicks[c], c, b, a);
  }

  lemma LoadOfChain(f: TeamFormat, nicks: seq<string>, b: string, k: nat, l: nat, m: nat) returns (load: nat)
    requires k < l < m < |nicks| && nicks[k] == b && Runs(f, nicks[l], b) && Runs(f, nicks[m], b)
    ensures load == Load(f, nicks, b, 2, 0, |nicks|) >= 4
  {
    NotIntoItself(f, b);
    LoadHolds(f, nicks, b, 2, 0, k, |nicks|);
    LoadHolds(f, nicks, b, 2, k + 1, l, |nicks|);
    LoadHolds(f, nicks, b, 2, l + 1, m, |nicks|);
    load := Load(f, nicks, b, 2, 0, |nicks|);
  }

  lemma NotIntoItself(f: TeamFormat, b: string)
    ensures !Runs(f, b, b)
  {
  }

  lemma OverflowIsThere(f: TeamFormat, nicks: seq<string>) returns (j: nat)
    requires NameCount(Tail(f)) == 2 && Different(nicks) && (Follows(f, nicks) || Chain(f, nicks))
    ensures j < |nicks| && Overflows(f, nicks, j)
  {
    if i, l :| 0 <= i < l < |nicks| && Runs(f, nicks[i], nicks[l]) {
      j := l;
      FollowsOverflows(f, nicks, i, j);
    } else {
      var a, b, c :| 0 <= a < |nicks| && 0 <= b < |nicks| && 0 <= c < |nicks|
        && Runs(f, nicks[a], nicks[b]) && Runs(f, nicks[b], nicks[c]);
      j := c;
      assert b != a && c != b;
      ChainOverflows(f, nicks, a, b, c);
    }
  }

  // For the format that tells who has destroyed a treasure three slots are enough exactly
  // when no nick runs on into a later one, and there is no chain of three.
  lemma DestroyedIsStored(nicks: seq<string>)
    requires Receivable(nicks) && Different(nicks)
    ensures (forall msg :: Stored(msg, Parse(DESTROYED), nicks))
      <==> !Follows(DESTROYED_FORMAT, nicks) && !Chain(DESTROYED_FORMAT, nicks)
  {
    DestroyedParsed();
    DestroyedIsMarked();
    SlotsAreExact(DESTROYED_FORMAT, nicks);
    if Follows(DESTROYED_FORMAT, nicks) || Chain(DESTROYED_FORMAT, nicks) {
      DestroyedNames();
      var j := OverflowIsThere(DESTROYED_FORMAT, nicks);
    } else {
      forall j | 0 <= j < |nicks| ensures !Overflows(DESTROYED_FORMAT, nicks, j) {
        DestroyedNames();
        NoOverflow(DESTROYED_FORMAT, nicks, j);
      }
    }
  }

  // ---- At two nicks ----

  lemma AfterTeam(f: TeamFormat, team: char, rest: string)
    requires IsTeam(team)
    ensures var r := Match(rest, f.end, []);
      After(f, f.mid + ([team] + rest)) == Outcome(r.ok, [[team]] + r.names)
  {
    var msg := f.mid + ([team] + rest);
    AfterIs(f, msg);
    assert msg[|f.mid|] == team && msg[|f.mid| + 1..] == rest;
  }

  // The first of two nicks fails and leaves names, the second one fits.
  lemma TwoTries(f: TeamFormat, a: string, x: string, b: string, y: string)
    requires TextsAndTeams(f.end) && a + x == b + y && !After(f, x).ok && After(f, y).ok
    ensures Match(f.front + (b + y), Items(f), [a, b]) == Outcome(true, After(f, x).names + (After(f, y).names + [b]))
  {
    TailIsPlain(f);
    var m, nicks := b + y, [a, b];
    assert m[|a|..] == x && m[|b|..] == y && a <= m && b <= m;
    NickFree(x, Tail(f), nicks);
    NickFree(y, Tail(f), nicks);
    TryNick(m, Tail(f), nicks, 0);
    TryNick(m, Tail(f), nicks, 1);
    BehindFront(f, f.front + m, nicks);
    assert (f.front + m)[|f.front|..] == m;
  }

  // The second nick is the first one, the text behind it, a team and one more character.
  lemma AtTwo(f: TeamFormat, a: string, b: string, c: char, other: char, team: char, rest: string)
    requires TextsAndTeams(f.end) && f.end != [] && f.end[0].Text? && IsTeam(other) && IsTeam(team)
    requires b == a + (f.mid + ([other] + [c])) && f.end[0].s != "" && f.end[0].s[0] != c
    requires Match(rest, f.end, []).ok
    ensures Match(f.front + (b + (f.mid + ([team] + rest))), Items(f), [a, b])
      == Outcome(true, [[other]] + ([[team]] + Match(rest, f.end, []).names + [b]))
  {
    var y := f.mid + ([team] + rest);
    Shifted(a, f.mid, [other], [c], y);
    MissesEnd(f, other, c, y);
    AfterTeam(f, team, rest);
    TwoTries(f, a, f.mid + ([other] + ([c] + y)), b, y);
  }

  lemma Shifted(a: string, mid: string, other: string, c: string, y: string)
    ensures a + (mid + (other + (c + y))) == a + (mid + (other + c)) + y
  {
    assert other + (c + y) == (other + c) + y;
    assert mid + ((other + c) + y) == (mid + (other + c)) + y;
  }

  lemma MissesEnd(f: TeamFormat, other: char, c: char, y: string)
    requires f.end != [] && f.end[0].Text? && IsTeam(other) && f.end[0].s != "" && f.end[0].s[0] != c
    ensures After(f, f.mid + ([other] + ([c] + y))) == Outcome(false, [[other]])
  {
    AfterTeam(f, other, [c] + y);
    TextFirst([c] + y, f.end[0].s, f.end[1..], []);
    assert f.end == [Text(f.end[0].s)] + f.end[1..] && ([c] + y)[0] == c;
  }

  const SECOND := "A (team 2#"
  const REPLACED_MESSAGE := " < A (team 2# (team 3" + REPLACED_END

  lemma ReplacedTexts()
    ensures SECOND == "A" + (" (team " + (['2'] + ['#'])) && |SECOND| == 10
    ensures REPLACED_MESSAGE == " < " + (SECOND + (" (team " + (['3'] + REPLACED_END)))
  {
  }

  lemma EndMatches(end: string)
    ensures Match(end, [Text(end)], []) == Outcome(true, [])
  {
    TextFirst(end, end, [], []);
    assert [Text(end)] + [] == [Text(end)] && end[|end|..] == "";
  }

  // The team of the second player is taken from its nick.
  lemma ReplacedAtTwo()
    ensures Receivable(["A", SECOND]) && Different(["A", SECOND])
    ensures Match(REPLACED_MESSAGE, Parse(REPLACED), ["A", SECOND]) == Outcome(true, ["2"] + (["3"] + [] + [SECOND]))
    ensures !IsRead(REPLACED_MESSAGE, Parse(REPLACED), ["A", SECOND])
  {
    ReplacedAtSecond();
    ReplacedTexts();
    ReplacedNames();
    ReplacedParsed();
    ItemCount(REPLACED_FORMAT);
    ReadOrMisread(REPLACED_MESSAGE, Parse(REPLACED), ["A", SECOND]);
  }

  lemma ReplacedAtSecond()
    ensures Match(REPLACED_MESSAGE, Parse(REPLACED), ["A", SECOND]) == Outcome(true, ["2"] + (["3"] + [] + [SECOND]))
  {
    ReplacedParsed();
    ReplacedTexts();
    EndMatches(REPLACED_END);
    AtTwo(REPLACED_FORMAT, "A", SECOND, '#', '2', '3', REPLACED_END);
  }

  const DESTROYER := "A's (2#"
  const DESTROYED_MESSAGE := " < A's (2#'s (3" + (DESTROYED_MID + ("4" + DESTROYED_END))

  lemma DestroyedTexts()
    ensures DESTROYER == "A" + ("'s (" + (['2'] + ['#'])) && |DESTROYER| == 7
    ensures DESTROYED_MESSAGE == " < " + (DESTROYER + ("'s (" + (['3'] + (DESTROYED_MID + ("4" + DESTROYED_END)))))
  {
  }

  lemma TwoTeamsMatch(mid: string, end: string)
    ensures Match(mid + ("4" + end), [Text(mid)] + ([Team] + [Text(end)]), []) == Outcome(true, ["4"])
  {
    TextBehind(mid, "4" + end, [Team] + [Text(end)], []);
    TeamWord("4" + end);
    TakeWord(Team, "4" + end, [Text(end)], [], FirstWord(Words(Team, []), "4" + end));
    assert ("4" + end)[1..] == end;
    EndMatches(end);
  }

  // One name more than there is room for.
  lemma DestroyedOverflows()
    ensures Receivable(["A", DESTROYER]) && Different(["A", DESTROYER])
    ensures !Stored(DESTROYED_MESSAGE, Parse(DESTROYED), ["A", DESTROYER])
  {
    DestroyedTexts();
    DestroyedAtTwo();
    FourNames("2", "3", "4", DESTROYER);
  }

  lemma FourNames(a: string, b: string, c: string, d: string)
    ensures |[a] + ([b] + [c] + [d])| == 4
  {
  }

  lemma DestroyedAtTwo()
    ensures Match(DESTROYED_MESSAGE, Parse(DESTROYED), ["A", DESTROYER])
      == Outcome(true, ["2"] + (["3"] + ["4"] + [DESTROYER]))
  {
    DestroyedParsed();
    DestroyedTexts();
    TwoTeamsMatch(DESTROYED_MID, DESTROYED_END);
    assert DESTROYED_FORMAT.end == [Text(DESTROYED_MID)] + ([Team] + [Text(DESTROYED_END)]);
    AtTwo(DESTROYED_FORMAT, "A", DESTROYER, '#', '2', '3', DESTROYED_MID + ("4" + DESTROYED_END));
  }
}
