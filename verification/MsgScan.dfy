/** Scanning of game messages in messages.c: Msg_match_fmt, and the chain of formats
    by which Msg_scan_game_msg finds out who killed whom. */
module MsgScan {
  import opened MsgFormats
  import opened MsgRules
  import opened Options

  // What matching a format text adds to the names.
  lemma TextAdds(names: seq<string>, msg: string, fmt: string, nicks: seq<string>)
    ensures var p, r := Percent(fmt), Match(msg, Parse(fmt), nicks);
      if p == |fmt| then Added(names, r) == Outcome(fmt <= msg, names)
      else if !(fmt[..p] <= msg) || p + 1 == |fmt| then Added(names, r) == Outcome(false, names)
      else r == Match(msg[p..], [ItemOf(fmt[p + 1])] + Parse(fmt[p + 2..]), nicks)
  {
    MatchText(msg, fmt, nicks);
    assert fmt[..|fmt|] == fmt && names + [] == names;
  }

  lemma Appended(a: seq<string>, b: seq<string>, nick: string)
    ensures a + (b + [nick]) == a + b + [nick]
  {
  }

  // The names found in a message, in a fixed number of slots.
  class MsgNames {
    const nickName: array<string>
    var index: nat
    ghost var names: seq<string>

    ghost predicate Valid()
      reads this, nickName
    {
      nickName.Length == MSG_MAX_NAMES && index <= nickName.Length && names == nickName[..index]
    }

    // What a match adds fits into the slots that are left.
    ghost predicate HasRoom(o: Outcome)
      reads this
    {
      |names| + |o.names| <= MSG_MAX_NAMES
    }

    constructor ()
      ensures Valid() && fresh(nickName) && names == []
    {
      nickName := new string[MSG_MAX_NAMES];
      index, names := 0, [];
    }

    method Store(name: string)
      requires Valid() && |names| < MSG_MAX_NAMES
      modifies this, nickName
      ensures Valid() && names == old(names) + [name]
    {
      nickName[index] := name;
      index, names := index + 1, names + [name];
    }

    method MatchFmt(msg: string, fmt: string, nicks: seq<string>) returns (ok: bool)
      requires Valid() && HasRoom(Match(msg, Parse(fmt), nicks))
      modifies this, nickName
      ensures Valid() && Outcome(ok, names) == Added(old(names), Match(msg, Parse(fmt), nicks))
      decreases |fmt|, 1
    {
      var p := Percent(fmt);
      TextAdds(names, msg, fmt, nicks);
      if p == |fmt| {
        return fmt <= msg;
      }
      if !(fmt[..p] <= msg) || p + 1 == |fmt| {
        return false;
      }
      ok := MatchItem(ItemOf(fmt[p + 1]), msg[p..], fmt[p + 2..], nicks);
    }

    method MatchItem(item: Item, msg: string, rest: string, nicks: seq<string>) returns (ok: bool)
      requires !item.Text? && Valid() && HasRoom(Match(msg, [item] + Parse(rest), nicks))
      modifies this, nickName
      ensures Valid() && Outcome(ok, names) == Added(old(names), Match(msg, [item] + Parse(rest), nicks))
      decreases |rest| + 1, 2
    {
      if item.Nick? {
        ok := MatchNicks(msg, rest, nicks);
      } else if item.Head? {
        HeadOrNothing(msg, Parse(rest), nicks);
        ok := MatchFmt(if HEAD_FIRST <= msg then msg[|HEAD_FIRST|..] else msg, rest, nicks);
      } else {
        ok := MatchWords(item, msg, rest, nicks);
      }
    }

    // One player is tried, and the rest of the format after the nick.
    method TryOne(msg: string, rest: string, nicks: seq<string>, i: nat) returns (ok: bool)
      requires Valid() && i < |nicks| && HasRoom(MatchNick(msg, [Nick] + Parse(rest), nicks, i))
      modifies this, nickName
      ensures Valid()
      ensures var o := MatchNick(msg, [Nick] + Parse(rest), nicks, i);
        if ok then Outcome(true, names) == Added(old(names), o)
        else
          var next := MatchNick(msg, [Nick] + Parse(rest), nicks, i + 1);
          Added(names, next) == Added(old(names), o) && HasRoom(next)
      decreases |rest| + 1, 0
    {
      TryNick(msg, Parse(rest), nicks, i);
      if nicks[i] <= msg {
        ghost var r := Match(msg[|nicks[i]|..], Parse(rest), nicks);
        AddedTwice(names, r.names, MatchNick(msg, [Nick] + Parse(rest), nicks, i + 1));
        Appended(names, r.names, nicks[i]);
        ok := MatchFmt(msg[|nicks[i]|..], rest, nicks);
        if ok {
          Store(nicks[i]);
        }
      } else {
        ok := false;
      }
    }

    // One player after the other is tried.
    method MatchNicks(msg: string, rest: string, nicks: seq<string>) returns (ok: bool)
      requires Valid() && HasRoom(Match(msg, [Nick] + Parse(rest), nicks))
      modifies this, nickName
      ensures Valid() && Outcome(ok, names) == Added(old(names), Match(msg, [Nick] + Parse(rest), nicks))
      decreases |rest| + 1, 1
    {
      ghost var o := Match(msg, [Nick] + Parse(rest), nicks);
      var i := 0;
      while i < |nicks|
        invariant 0 <= i <= |nicks| && Valid()
        invariant Added(names, MatchNick(msg, [Nick] + Parse(rest), nicks, i)) == Added(old(names), o)
        invariant HasRoom(MatchNick(msg, [Nick] + Parse(rest), nicks, i))
      {
        ok := TryOne(msg, rest, nicks, i);
        if ok {
          return;
        }
        i := i + 1;
      }
      assert names + [] == names;
      return false;
    }

    // The first word of the list that the message begins with is taken for good.
    method MatchWords(item: Item, msg: string, rest: string, nicks: seq<string>) returns (ok: bool)
      requires !item.Nick? && !item.Text? && !item.Head?
      requires Valid() && HasRoom(Match(msg, [item] + Parse(rest), nicks))
      modifies this, nickName
      ensures Valid() && Outcome(ok, names) == Added(old(names), Match(msg, [item] + Parse(rest), nicks))
      decreases |rest| + 1, 0
    {
      var words := Words(item, nicks);
      var i := 0;
      while i < |words|
        invariant 0 <= i <= FirstWord(words, msg) && Valid() && names == old(names)
      {
        if words[i] <= msg {
          TakeWord(item, msg, Parse(rest), nicks, i);
          AddedTwice(names, if item.Team? then [words[i]] else [], Match(msg[|words[i]|..], Parse(rest), nicks));
          if item.Team? {
            Store(words[i]);
          }
          ok := MatchFmt(msg[|words[i]|..], rest, nicks);
          return;
        }
        i := i + 1;
      }
      NoWord(item, msg, Parse(rest), nicks);
      return false;
    }
  }

  // The words picked for a format are the first ones that fit.
  ghost predicate IsFirstFit(msg: string, items: seq<Item>, nicks: seq<string>, pick: seq<nat>) {
    && Fits(msg, items, nicks, pick) && InRange(items, nicks, pick)
    && forall other :: Fits(msg, items, nicks, other) ==> NotAfter(pick, other)
  }

  function KillOf(rule: Rule, names: seq<string>): Kill
    requires rule.victim < |names| && (rule.killer.Some? ==> rule.killer.value < |names|)
    requires rule.victim2.Some? ==> rule.victim2.value < |names|
  {
    Kill(Lookup(names, rule.killer), names[rule.victim], Lookup(names, rule.victim2))
  }

  ghost predicate IsTold(msg: string, rule: Rule, story: Story, nicks: seq<string>, pick: seq<nat>, kill: Kill) {
    IsFirstFit(msg, rule.items, nicks, pick) && Tells(story, NicksInOrder(rule.items, nicks, pick), kill)
  }

  lemma RuleTells(msg: string, rule: Rule, story: Story, nicks: seq<string>, names: seq<string>)
    returns (pick: seq<nat>)
    requires RuleFits(rule, story) && Match(msg, rule.items, nicks) == Outcome(true, names)
    ensures |names| == NickCount(rule.items) && IsTold(msg, rule, story, nicks, pick, KillOf(rule, names))
  {
    pick := FirstFit(msg, rule.items, nicks);
    NamesAreListed(msg, rule.items, nicks);
    LastFirstIsReversed(rule.items, nicks, pick);
    TellsReversed(rule, story, names, NicksInOrder(rule.items, nicks, pick));
  }

  // The places where a rule looks its names up are those of its story, from the end.
  lemma TellsReversed(rule: Rule, story: Story, names: seq<string>, inOrder: seq<string>)
    requires RuleFits(rule, story) && |names| == |inOrder| == NickCount(rule.items)
    requires forall k :: 0 <= k < |names| ==> names[k] == inOrder[|inOrder| - 1 - k]
    ensures Tells(story, inOrder, KillOf(rule, names))
  {
  }

  lemma FirstFit(msg: string, items: seq<Item>, nicks: seq<string>) returns (pick: seq<nat>)
    requires Clear(items) && Match(msg, items, nicks).ok
    ensures pick == Chosen(msg, items, nicks) && IsFirstFit(msg, items, nicks, pick)
  {
    MatchIsSound(msg, items, nicks);
    pick := Chosen(msg, items, nicks);
    forall other | Fits(msg, items, nicks, other)
      ensures NotAfter(pick, other)
    {
      MatchIsComplete(msg, items, nicks, other);
    }
  }

  // The first format that the message fits tells who was killed, if there is one.
  ghost predicate IsFirstStory(msg: string, nicks: seq<string>, rules: seq<Rule>, stories: seq<Story>,
    kill: Kill, r: nat, pick: seq<nat>)
    requires |stories| == |rules|
  {
    && r < |rules| && (forall q :: 0 <= q < r ==> !FitsSomehow(msg, rules[q].items, nicks))
    && IsTold(msg, rules[r], stories[r], nicks, pick, kill)
  }

  ghost predicate IsStory(msg: string, nicks: seq<string>, rules: seq<Rule>, stories: seq<Story>, kill: Option<Kill>)
    requires |stories| == |rules|
  {
    match kill
    case None => forall r :: 0 <= r < |rules| ==> !FitsSomehow(msg, rules[r].items, nicks)
    case Some(told) => exists r, pick :: IsFirstStory(msg, nicks, rules, stories, told, r, pick)
  }

  // The formats are tried in order, all with the same store of names; the first one
  // that the message fits tells who was killed.
  method ScanRules(msg: string, nicks: seq<string>, rules: seq<Rule>, ghost stories: seq<Story>)
    returns (kill: Option<Kill>)
    requires |stories| == |rules| && forall i :: 0 <= i < |rules| ==> RuleFits(rules[i], stories[i])
    ensures IsStory(msg, nicks, rules, stories, kill)
  {
    var mn := new MsgNames();
    var i := 0;
    while i < |rules|
      invariant 0 <= i <= |rules| && mn.Valid() && fresh(mn.nickName) && mn.names == []
      invariant forall q :: 0 <= q < i ==> !FitsSomehow(msg, rules[q].items, nicks)
    {
      var rule := rules[i];
      assert RuleFits(rule, stories[i]);
      ParseRender(rule.items);
      MatchIsExact(msg, rule.items, nicks);
      NamesOfNicks(msg, rule.items, nicks);
      var ok := mn.MatchFmt(msg, Render(rule.items), nicks);
      if ok {
        var names := mn.nickName[..mn.index];
        ghost var pick := RuleTells(msg, rule, stories[i], nicks, names);
        assert IsFirstStory(msg, nicks, rules, stories, KillOf(rule, names), i, pick);
        return Some(KillOf(rule, names));
      }
      FailureAddsNothing(msg, rule.items, nicks);
      i := i + 1;
    }
    return None;
  }

  ghost function GameStories(): (stories: seq<Story>)
    ensures |stories| == RULES && forall r :: 0 <= r < RULES ==> stories[r] == StoryAt(r)
  {
    seq(RULES, i requires 0 <= i < RULES => StoryAt(i))
  }

  // The chain of formats of the game.
  method ScanGameMsg(msg: string, nicks: seq<string>) returns (kill: Option<Kill>)
    ensures IsStory(msg, nicks, GameRules(), GameStories(), kill)
  {
    kill := ScanRules(msg, nicks, GameRules(), GameStories());
  }
}
