/** The scans of messages.c for the two messages with teams. */
module TeamScan {
  import opened Leftovers
  import opened MsgFormats
  import opened MsgScan
  import opened NickClashes
  import opened Options
  import opened TeamFormats

  // The team and the nick of the player who has replaced the treasure; or the teams of
  // the player who has destroyed one and of the one that had it, and that player's nick.
  datatype Replaced = Replaced(team: string, player: string)
  datatype Destroyed = Destroyed(byTeam: string, ofTeam: string, player: string)

  // These names are those of the words that fit, the first in the order of players.
  ghost predicate AreNamed(msg: string, f: TeamFormat, nicks: seq<string>, pick: seq<nat>, names: seq<string>) {
    MsgScan.IsFirstFit(msg, Items(f), nicks, pick) && names == Listed(Items(f), nicks, pick)
  }

  lemma TeamFormatIsClear(f: TeamFormat)
    requires TextsAndTeams(f.end)
    ensures Clear(Items(f))
  {
    forall i | 0 <= i < |Items(f)| ensures !Items(f)[i].Head? {
      assert i > 3 ==> Items(f)[i] == f.end[i - 4];
    }
  }

  lemma FollowsIsClash(f: TeamFormat, nicks: seq<string>)
    requires Different(nicks) && !Follows(f, nicks)
    ensures forall i, j :: !Clash(f, nicks, i, j)
  {
  }

  lemma FoundIsFitting(msg: string, f: TeamFormat, nicks: seq<string>)
    requires TextsAndTeams(f.end)
    ensures Match(msg, Items(f), nicks).ok <==> FitsSomehow(msg, Items(f), nicks)
    ensures Match(msg, Items(f), nicks).ok ==> |Match(msg, Items(f), nicks).names| >= 1 + NameCount(Tail(f))
  {
    TeamFormatIsClear(f);
    MatchIsExact(msg, Items(f), nicks);
    ItemCount(f);
    if Match(msg, Items(f), nicks).ok {
      NamesOfMatch(msg, Items(f), nicks);
    }
  }

  // If no nick runs on into a later one, the names found are those of the message.
  lemma NamesAreRight(msg: string, f: TeamFormat, nicks: seq<string>) returns (pick: seq<nat>)
    requires IsMarked(f) && Receivable(nicks) && Different(nicks) && !Follows(f, nicks)
    requires Match(msg, Items(f), nicks).ok
    ensures AreNamed(msg, f, nicks, pick, Match(msg, Items(f), nicks).names)
    ensures |Match(msg, Items(f), nicks).names| == 1 + NameCount(Tail(f))
  {
    TeamFormatIsClear(f);
    pick := MsgScan.FirstFit(msg, Items(f), nicks);
    FollowsIsClash(f, nicks);
    MisreadIsClash(f, nicks);
    assert IsRead(msg, Items(f), nicks);
    ListedCount(Items(f), nicks, pick);
    ItemCount(f);
  }

  // The names found for the format, if it fits.
  method ScanFormat(msg: string, fmt: string, ghost f: TeamFormat, nicks: seq<string>)
    returns (found: Option<seq<string>>)
    requires Parse(fmt) == Items(f) && TextsAndTeams(f.end) && Stored(msg, Items(f), nicks)
    ensures found.Some? <==> FitsSomehow(msg, Items(f), nicks)
    ensures found.Some? ==> Match(msg, Items(f), nicks) == Outcome(true, found.value)
    ensures found.Some? ==> |found.value| >= 1 + NameCount(Tail(f))
  {
    FoundIsFitting(msg, f, nicks);
    var mn := new MsgNames();
    ghost var r := Match(msg, Parse(fmt), nicks);
    assert [] + r.names == r.names;
    var ok := mn.MatchFmt(msg, fmt, nicks);
    found := if ok then Some(mn.nickName[..mn.index]) else None;
  }

  method ScanReplaced(msg: string, nicks: seq<string>) returns (told: Option<Replaced>)
    requires Receivable(nicks) && Different(nicks)
    ensures told.Some? <==> FitsSomehow(msg, Items(REPLACED_FORMAT), nicks)
    ensures told.Some? && !Follows(REPLACED_FORMAT, nicks) ==>
      exists pick :: AreNamed(msg, REPLACED_FORMAT, nicks, pick, [told.value.team, told.value.player])
  {
    ReplacedParsed();
    ReplacedIsMarked();
    ReplacedNames();
    ReplacedIsStored(nicks, msg);
    var found := ScanFormat(msg, REPLACED, REPLACED_FORMAT, nicks);
    if found.None? {
      return None;
    }
    var names := found.value;
    told := Some(Replaced(names[0], names[1]));
    if !Follows(REPLACED_FORMAT, nicks) {
      ghost var pick := NamesAreRight(msg, REPLACED_FORMAT, nicks);
      assert names == [told.value.team, told.value.player];
    }
  }

  // Three slots hold the names of every message exactly for these nicks.
  method ScanDestroyed(msg: string, nicks: seq<string>) returns (told: Option<Destroyed>)
    requires Receivable(nicks) && Different(nicks)
    requires !Follows(DESTROYED_FORMAT, nicks) && !Chain(DESTROYED_FORMAT, nicks)
    ensures told.Some? <==> FitsSomehow(msg, Items(DESTROYED_FORMAT), nicks)
    ensures told.Some? ==> exists pick ::
      AreNamed(msg, DESTROYED_FORMAT, nicks, pick, [told.value.byTeam, told.value.ofTeam, told.value.player])
  {
    DestroyedParsed();
    DestroyedIsMarked();
    DestroyedNames();
    DestroyedIsStored(nicks);
    assert Stored(msg, Parse(DESTROYED), nicks);
    var found := ScanFormat(msg, DESTROYED, DESTROYED_FORMAT, nicks);
    if found.None? {
      return None;
    }
    var names := found.value;
    told := Some(Destroyed(names[0], names[1], names[2]));
    ghost var pick := NamesAreRight(msg, DESTROYED_FORMAT, nicks);
    assert names == [told.value.byTeam, told.value.ofTeam, told.value.player];
  }
}
