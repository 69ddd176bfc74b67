/** The messages by which the server announces who was killed, collision.c, laser.c,
    walls.c and update.c, and what the client takes them for. */
module DeathMessages {
  import opened MsgFormats
  import opened MsgRules
  import opened MsgScan
  import opened Options

  // What the server announces. A weapon and a tail are texts; the others are names.
  datatype Death =
    | ShotDown(victim: string, weapon: string, killer: string, tail: string)
    | Crash(victim: string, how: How, headFirst: bool)
    | CrashHelped(victim: string, how: How, headFirst: bool, helper: string, others: string)
    | BothCrashed(victim: string, victim2: string)
    | RanOver(killer: string, victim: string)
    | Suicide(victim: string)
    | HitByBall(victim: string)
    | HitByBallOf(victim: string, killer: string, tail: string)
    | Exploded(victim: string)
    | ExplodedBy(victim: string, killer: string, tail: string)
    | RoastedBy(victim: string, killer: string, tail: string)
    | RoastedByCannon(victim: string)
    | HitByCannon(victim: string)

  datatype How = IntoWall | FastIntoWall | EmptyIntoWall | SkewIntoWall | IntoTarget | IntoTreasure | IntoCannon

  function Did(how: How): string {
    match how
    case IntoWall => " crashed"
    case FastIntoWall => " smashed"
    case EmptyIntoWall => " smacked"
    case SkewIntoWall => " was trashed"
    case _ => " smashed"
  }

  function Against(how: How): string {
    match how
    case IntoTarget => " against a target"
    case IntoTreasure => " against a treasure"
    case IntoCannon => " against a cannon"
    case _ => " against a wall"
  }

  function HeadWord(headFirst: bool): string { if headFirst then " head first" else "" }

  function Crashing(victim: string, how: How, headFirst: bool): string {
    victim + Did(how) + HeadWord(headFirst) + Against(how)
  }

  // The text of the server.
  function Announced(d: Death): string {
    match d
    case ShotDown(victim, weapon, killer, tail) =>
      victim + " was killed by " + weapon + " from " + killer + "." + tail
    case Crash(victim, how, headFirst) => Crashing(victim, how, headFirst) + "."
    case CrashHelped(victim, how, headFirst, helper, others) =>
      Crashing(victim, how, headFirst) + " with help from " + helper + others
    case BothCrashed(victim, victim2) => victim + " and " + victim2 + " crashed."
    case RanOver(killer, victim) => killer + " ran over " + victim + "."
    case Suicide(victim) => victim + " has committed suicide."
    case HitByBall(victim) => victim + " was killed by a ball."
    case HitByBallOf(victim, killer, tail) => victim + " was killed by a ball owned by " + killer + "." + tail
    case Exploded(victim) => victim + " succumbed to an explosion."
    case ExplodedBy(victim, killer, tail) => victim + " succumbed to an explosion from " + killer + "." + tail
    case RoastedBy(victim, killer, tail) => victim + " got roasted alive by " + killer + "'s laser." + tail
    case RoastedByCannon(victim) => victim + " got roasted alive by cannonfire."
    case HitByCannon(victim) => victim + " was hit by cannonfire."
  }

  // Who was killed, and by whom. Of several helpers the first one counts.
  function KillIn(d: Death): Kill {
    match d
    case ShotDown(victim, _, killer, _) => Kill(Some(killer), victim, None)
    case Crash(victim, _, _) => Kill(None, victim, None)
    case CrashHelped(victim, _, _, helper, _) => Kill(Some(helper), victim, None)
    case BothCrashed(victim, victim2) => Kill(None, victim, Some(victim2))
    case RanOver(killer, victim) => Kill(Some(killer), victim, None)
    case HitByBallOf(victim, killer, _) => Kill(Some(killer), victim, None)
    case ExplodedBy(victim, killer, _) => Kill(Some(killer), victim, None)
    case RoastedBy(victim, killer, _) => Kill(Some(killer), victim, None)
    case _ => Kill(None, d.victim, None)
  }

  predicate IsKnown(k: Kill, nicks: seq<string>) {
    && k.victim in nicks && (k.killer.Some? ==> k.killer.value in nicks)
    && (k.victim2.Some? ==> k.victim2.value in nicks)
  }

  // The format of the client for it, if there is one.
  function RuleFor(d: Death): (r: Option<nat>)
    ensures r.Some? ==> r.value < RULES
  {
    match d
    case ShotDown(_, weapon, _, _) => if weapon == "a shot" then Some(0) else None
    case Crash(_, _, _) => Some(1)
    case BothCrashed(_, _) => Some(2)
    case RanOver(_, _) => Some(3)
    case CrashHelped(_, _, _, _, _) => Some(4)
    case Suicide(_) => Some(5)
    case HitByBall(_) => Some(6)
    case HitByBallOf(_, _, _) => Some(7)
    case Exploded(_) => Some(8)
    case ExplodedBy(_, _, _) => Some(9)
    case RoastedBy(_, _, _) => Some(10)
    case RoastedByCannon(_) => None
    case HitByCannon(_) => Some(11)
  }

  // ---- Fitting, from the back ----

  // The message fits with nicks that are these names.
  ghost predicate FitsWith(msg: string, items: seq<Item>, nicks: seq<string>, names: seq<string>) {
    exists pick ::
      InRange(items, nicks, pick) && Fits(msg, items, nicks, pick) && NicksInOrder(items, nicks, pick) == names
  }

  lemma FitsEnd(s: string, tail: string, nicks: seq<string>)
    requires '%' !in s
    ensures FitsWith(s + tail, End(s), nicks, [])
  {
    var pick: seq<nat> := [0];
    assert pick[1..] == [] && End(s)[1..] == [];
    assert Words(End(s)[0], nicks)[0] == s;
    assert Fits(s + tail, End(s), nicks, pick);
    assert NicksInOrder(End(s), nicks, pick) == [];
  }

  lemma FitsFirst(s: string, item: Item, rest: seq<Item>, nicks: seq<string>, k: nat, msg: string, names: seq<string>)
    requires '%' !in s && !item.Text? && !item.Unknown? && !item.Team? && IsExact(rest)
    requires (item.Head? ==> !Starts(rest)) && k < |Words(item, nicks)| && FitsWith(msg, rest, nicks, names)
    ensures FitsWith(s + (Words(item, nicks)[k] + msg), At(s, item, rest), nicks,
                     (if item.Nick? then [nicks[k]] else []) + names)
  {
    var pick :| InRange(rest, nicks, pick) && Fits(msg, rest, nicks, pick) && NicksInOrder(rest, nicks, pick) == names;
    var word, items := Words(item, nicks)[k], At(s, item, rest);
    assert items == [Text(s)] + ([item] + rest);
    FitsOne(item, rest, nicks, k, word + msg, pick);
    assert (word + msg)[|word|..] == msg;
    FitsOne(Text(s), [item] + rest, nicks, 0, s + (word + msg), [k] + pick);
  }

  lemma FitsOne(item: Item, rest: seq<Item>, nicks: seq<string>, k: nat, msg: string, pick: seq<nat>)
    requires k < |Words(item, nicks)| && Words(item, nicks)[k] <= msg
    requires InRange(rest, nicks, pick) && Fits(msg[|Words(item, nicks)[k]|..], rest, nicks, pick)
    ensures InRange([item] + rest, nicks, [k] + pick) && Fits(msg, [item] + rest, nicks, [k] + pick)
    ensures NicksInOrder([item] + rest, nicks, [k] + pick) ==
      (if item.Nick? then [nicks[k]] else []) + NicksInOrder(rest, nicks, pick)
  {
    assert ([item] + rest)[1..] == rest && ([k] + pick)[1..] == pick;
    PickedFirst(msg, [item] + rest, nicks, k, pick);
  }

  // ---- Each announcement fits its format ----

  lemma FitsWord(s: string, item: Item, rest: seq<Item>, nicks: seq<string>, k: nat, word: string, m: string,
                 names: seq<string>)
    requires '%' !in s && !item.Text? && !item.Unknown? && !item.Team? && !item.Nick? && IsExact(rest)
    requires (item.Head? ==> !Starts(rest)) && k < |Words(item, nicks)| && Words(item, nicks)[k] == word
    requires FitsWith(m, rest, nicks, names)
    ensures FitsWith(s + word + m, At(s, item, rest), nicks, names)
  {
    FitsFirst(s, item, rest, nicks, k, m, names);
    assert s + (word + m) == s + word + m && [] + names == names;
  }

  lemma FitsNick(s: string, rest: seq<Item>, nicks: seq<string>, a: string, m: string, names: seq<string>)
    requires '%' !in s && IsExact(rest) && a in nicks && FitsWith(m, rest, nicks, names)
    ensures FitsWith(s + a + m, At(s, Nick, rest), nicks, [a] + names)
  {
    var k: nat :| k < |nicks| && nicks[k] == a;
    FitsFirst(s, Nick, rest, nicks, k, m, names);
    assert s + (a + m) == s + a + m;
  }

  lemma FitsNickFirst(rest: seq<Item>, nicks: seq<string>, a: string, m: string, names: seq<string>)
    requires IsExact(rest) && a in nicks && FitsWith(m, rest, nicks, names)
    ensures FitsWith(a + m, At("", Nick, rest), nicks, [a] + names)
  {
    FitsNick("", rest, nicks, a, m, names);
    assert "" + a + m == a + m;
  }

  // A name and the end of the format.
  lemma FitsLast(s: string, t: string, tail: string, nicks: seq<string>, a: string)
    requires '%' !in s && '%' !in t && a in nicks
    ensures FitsWith(s + a + (t + tail), At(s, Nick, End(t)), nicks, [a])
  {
    FitsEnd(t, tail, nicks);
    FitsNick(s, End(t), nicks, a, t + tail, []);
    assert [a] + [] == [a];
  }

  lemma FitsOneName(s: string, tail: string, nicks: seq<string>, a: string)
    requires '%' !in s && a in nicks
    ensures FitsWith(a + s + tail, One(s), nicks, [a])
  {
    FitsLast("", s, tail, nicks, a);
    assert "" + a + (s + tail) == a + s + tail;
  }

  lemma FitsTwoNames(s: string, t: string, tail: string, nicks: seq<string>, a: string, b: string)
    requires '%' !in s && '%' !in t && a in nicks && b in nicks
    ensures FitsWith(a + s + b + t + tail, Two(s, t), nicks, [a, b])
  {
    FitsLast(s, t, tail, nicks, b);
    FitsNickFirst(At(s, Nick, End(t)), nicks, a, s + b + (t + tail), [b]);
    assert a + (s + b + (t + tail)) == a + s + b + t + tail && [a] + [b] == [a, b];
  }

  lemma FitsShot(tail: string, nicks: seq<string>, a: string, b: string)
    requires a in nicks && b in nicks
    ensures FitsWith(a + " was killed by " + "a shot" + " from " + b + "." + tail, ShotFrom(), nicks, [a, b])
  {
    FitsLast(" from ", ".", tail, nicks, b);
    var m := " from " + b + ("." + tail);
    var from := At(" from ", Nick, End("."));
    FitsWord(" was killed by ", Shot, from, nicks, 0, "a shot", m, [b]);
    FitsNickFirst(At(" was killed by ", Shot, from), nicks, a, " was killed by " + "a shot" + m, [b]);
    Regrouped(a, " was killed by ", "a shot", " from ", b, ".", tail);
    assert [a] + [b] == [a, b];
  }

  lemma Regrouped(a: string, s: string, w: string, t: string, b: string, u: string, tail: string)
    ensures a + (s + w + (t + b + (u + tail))) == a + s + w + t + b + u + tail
  {
  }

  // The words of the client for how and against what, and "head first" or nothing.
  function DidWord(how: How): nat {
    match how
    case IntoWall => 0
    case EmptyIntoWall => 2
    case SkewIntoWall => 3
    case _ => 1
  }

  function AgainstWord(how: How): nat {
    match how
    case IntoTarget => 1
    case IntoTreasure => 2
    case IntoCannon => 3
    case _ => 0
  }

  lemma DidWords(how: How, nicks: seq<string>)
    ensures DidWord(how) < |Words(Item.Crash, nicks)| && " " + Words(Item.Crash, nicks)[DidWord(how)] == Did(how)
  {
  }

  lemma AgainstWords(how: How, nicks: seq<string>)
    ensures AgainstWord(how) < |Words(Obstacle, nicks)|
    ensures " against a " + Words(Obstacle, nicks)[AgainstWord(how)] == Against(how)
  {
  }

  lemma FitsCrash(how: How, headFirst: bool, nicks: seq<string>, a: string, rest: seq<Item>, msg: string,
                  names: seq<string>)
    requires a in nicks && IsExact(rest) && FitsWith(msg, rest, nicks, names)
    ensures FitsWith(Crashing(a, how, headFirst) + msg, Crashed(rest), nicks, [a] + names)
  {
    var against, head := At(" against a ", Obstacle, rest), HeadWord(headFirst);
    DidWords(how, nicks);
    AgainstWords(how, nicks);
    AgainstStandsOut(rest);
    var did, obstacle := Words(Item.Crash, nicks)[DidWord(how)], Words(Obstacle, nicks)[AgainstWord(how)];
    FitsWord(" against a ", Obstacle, rest, nicks, AgainstWord(how), obstacle, msg, names);
    var m := " against a " + obstacle + msg;
    FitsWord("", Head, against, nicks, if headFirst then 0 else 1, head, m, names);
    FitsWord(" ", Item.Crash, At("", Head, against), nicks, DidWord(how), did, "" + head + m, names);
    FitsNickFirst(At(" ", Item.Crash, At("", Head, against)), nicks, a, " " + did + ("" + head + m), names);
    CrashRegrouped(a, " " + did, head, " against a " + obstacle, msg);
  }

  lemma CrashRegrouped(a: string, did: string, head: string, against: string, msg: string)
    ensures a + (did + ("" + head + (against + msg))) == a + did + head + against + msg
  {
  }

  lemma AgainstStandsOut(rest: seq<Item>)
    requires IsExact(rest)
    ensures !Starts(At(" against a ", Obstacle, rest))
  {
    assert " against a "[1] != HEAD_FIRST[1];
    TextStandsOut(At(" against a ", Obstacle, rest));
  }

  lemma FitsHelper(others: string, nicks: seq<string>, b: string)
    requires b in nicks
    ensures FitsWith(" with help from " + b + others, At(" with help from ", Nick, End("")), nicks, [b])
  {
    FitsLast(" with help from ", "", others, nicks, b);
    assert "" + others == others;
  }

  // A death that has a format is announced in words that fit it, with the names that tell
  // who was killed and by whom.
  ghost predicate IsTaken(d: Death, nicks: seq<string>, r: nat)
    requires r < RULES
  {
    exists names :: FitsWith(Announced(d), RuleAt(r).items, nicks, names) && Tells(StoryAt(r), names, KillIn(d))
  }

  lemma IsTakenWith(d: Death, nicks: seq<string>, r: nat, msg: string, names: seq<string>)
    requires r < RULES && FitsWith(msg, RuleAt(r).items, nicks, names)
    requires msg == Announced(d) && Tells(StoryAt(r), names, KillIn(d))
    ensures IsTaken(d, nicks, r)
  {
  }

  lemma PairIsTaken(d: Death, nicks: seq<string>, r: nat, s: string, t: string, tail: string, a: string, b: string)
    requires r < RULES && '%' !in s && '%' !in t && RuleAt(r).items == Two(s, t) && a in nicks && b in nicks
    requires Announced(d) == a + s + b + t + tail && Tells(StoryAt(r), [a, b], KillIn(d))
    ensures IsTaken(d, nicks, r)
  {
    FitsTwoNames(s, t, tail, nicks, a, b);
    IsTakenWith(d, nicks, r, Announced(d), [a, b]);
  }

  lemma OneIsTaken(d: Death, nicks: seq<string>, r: nat, s: string, a: string)
    requires r < RULES && '%' !in s && RuleAt(r).items == One(s) && a in nicks
    requires Announced(d) == a + s && Tells(StoryAt(r), [a], KillIn(d))
    ensures IsTaken(d, nicks, r)
  {
    FitsOneName(s, "", nicks, a);
    NoTail(a + s);
    IsTakenWith(d, nicks, r, Announced(d), [a]);
  }

  lemma NoTail(s: string)
    ensures s + "" == s
  {
  }

  lemma ShotIsTaken(d: Death, nicks: seq<string>)
    requires d.ShotDown? && d.weapon == "a shot" && IsKnown(KillIn(d), nicks)
    ensures IsTaken(d, nicks, 0)
  {
    FitsShot(d.tail, nicks, d.victim, d.killer);
    IsTakenWith(d, nicks, 0, Announced(d), [d.victim, d.killer]);
  }

  lemma CrashIsTaken(d: Death, nicks: seq<string>)
    requires d.Crash? && IsKnown(KillIn(d), nicks)
    ensures IsTaken(d, nicks, 1)
  {
    FitsEnd(".", "", nicks);
    NoTail(".");
    FitsCrash(d.how, d.headFirst, nicks, d.victim, End("."), ".", []);
    assert [d.victim] + [] == [d.victim];
    IsTakenWith(d, nicks, 1, Announced(d), [d.victim]);
  }

  lemma HelpIsTaken(d: Death, nicks: seq<string>)
    requires d.CrashHelped? && IsKnown(KillIn(d), nicks)
    ensures IsTaken(d, nicks, 4)
  {
    FitsHelper(d.others, nicks, d.helper);
    FitsCrash(d.how, d.headFirst, nicks, d.victim, At(" with help from ", Nick, End("")),
              " with help from " + d.helper + d.others, [d.helper]);
    assert [d.victim] + [d.helper] == [d.victim, d.helper];
    HelpRegrouped(Crashing(d.victim, d.how, d.headFirst), " with help from ", d.helper, d.others);
    IsTakenWith(d, nicks, 4, Announced(d), [d.victim, d.helper]);
  }

  lemma HelpRegrouped(a: string, s: string, b: string, others: string)
    ensures a + (s + b + others) == a + s + b + others
  {
  }

  lemma PairCrashIsTaken(d: Death, nicks: seq<string>)
    requires d.BothCrashed? && IsKnown(KillIn(d), nicks)
    ensures IsTaken(d, nicks, 2)
  {
    NoTail(Announced(d));
    PairIsTaken(d, nicks, 2, " and ", " crashed.", "", d.victim, d.victim2);
  }

  lemma OverrunIsTaken(d: Death, nicks: seq<string>)
    requires d.RanOver? && IsKnown(KillIn(d), nicks)
    ensures IsTaken(d, nicks, 3)
  {
    NoTail(Announced(d));
    PairIsTaken(d, nicks, 3, " ran over ", ".", "", d.killer, d.victim);
  }

  lemma SuicideIsTaken(d: Death, nicks: seq<string>)
    requires d.Suicide? && IsKnown(KillIn(d), nicks)
    ensures IsTaken(d, nicks, 5)
  {
    OneIsTaken(d, nicks, 5, " has committed suicide.", d.victim);
  }

  lemma BallIsTaken(d: Death, nicks: seq<string>)
    requires d.HitByBall? && IsKnown(KillIn(d), nicks)
    ensures IsTaken(d, nicks, 6)
  {
    OneIsTaken(d, nicks, 6, " was killed by a ball.", d.victim);
  }

  lemma OwnedBallIsTaken(d: Death, nicks: seq<string>)
    requires d.HitByBallOf? && IsKnown(KillIn(d), nicks)
    ensures IsTaken(d, nicks, 7)
  {
    PairIsTaken(d, nicks, 7, " was killed by a ball owned by ", ".", d.tail, d.victim, d.killer);
  }

  lemma ExplosionIsTaken(d: Death, nicks: seq<string>)
    requires d.Exploded? && IsKnown(KillIn(d), nicks)
    ensures IsTaken(d, nicks, 8)
  {
    OneIsTaken(d, nicks, 8, " succumbed to an explosion.", d.victim);
  }

  lemma OwnedExplosionIsTaken(d: Death, nicks: seq<string>)
    requires d.ExplodedBy? && IsKnown(KillIn(d), nicks)
    ensures IsTaken(d, nicks, 9)
  {
    PairIsTaken(d, nicks, 9, " succumbed to an explosion from ", ".", d.tail, d.victim, d.killer);
  }

  lemma LaserIsTaken(d: Death, nicks: seq<string>)
    requires d.RoastedBy? && IsKnown(KillIn(d), nicks)
    ensures IsTaken(d, nicks, 10)
  {
    PairIsTaken(d, nicks, 10, " got roasted alive by ", "'s laser.", d.tail, d.victim, d.killer);
  }

  lemma CannonIsTaken(d: Death, nicks: seq<string>)
    requires d.HitByCannon? && IsKnown(KillIn(d), nicks)
    ensures IsTaken(d, nicks, 11)
  {
    OneIsTaken(d, nicks, 11, " was hit by cannonfire.", d.victim);
  }

  lemma AnnouncedFits(d: Death, nicks: seq<string>)
    requires RuleFor(d).Some? && IsKnown(KillIn(d), nicks)
    ensures IsTaken(d, nicks, RuleFor(d).value)
  {
    var r := RuleFor(d).value;
    if r < 3 {
      FirstFits(d, nicks, r);
    } else if r < 6 {
      NextFits(d, nicks, r);
    } else if r < 9 {
      LaterFits(d, nicks, r);
    } else {
      LastFits(d, nicks, r);
    }
  }

  lemma FirstFits(d: Death, nicks: seq<string>, r: nat)
    requires r < 3 && RuleFor(d) == Some(r) && IsKnown(KillIn(d), nicks)
    ensures IsTaken(d, nicks, r)
  {
    if r == 0 {
      ShotIsTaken(d, nicks);
    } else if r == 1 {
      CrashIsTaken(d, nicks);
    } else {
      PairCrashIsTaken(d, nicks);
    }
  }

  lemma NextFits(d: Death, nicks: seq<string>, r: nat)
    requires 3 <= r < 6 && RuleFor(d) == Some(r) && IsKnown(KillIn(d), nicks)
    ensures IsTaken(d, nicks, r)
  {
    if r == 3 {
      OverrunIsTaken(d, nicks);
    } else if r == 4 {
      HelpIsTaken(d, nicks);
    } else {
      SuicideIsTaken(d, nicks);
    }
  }

  lemma LaterFits(d: Death, nicks: seq<string>, r: nat)
    requires 6 <= r < 9 && RuleFor(d) == Some(r) && IsKnown(KillIn(d), nicks)
    ensures IsTaken(d, nicks, r)
  {
    if r == 6 {
      BallIsTaken(d, nicks);
    } else if r == 7 {
      OwnedBallIsTaken(d, nicks);
    } else {
      ExplosionIsTaken(d, nicks);
    }
  }

  lemma LastFits(d: Death, nicks: seq<string>, r: nat)
    requires 9 <= r < RULES && RuleFor(d) == Some(r) && IsKnown(KillIn(d), nicks)
    ensures IsTaken(d, nicks, r)
  {
    if r == 9 {
      OwnedExplosionIsTaken(d, nicks);
    } else if r == 10 {
      LaserIsTaken(d, nicks);
    } else {
      CannonIsTaken(d, nicks);
    }
  }

  // So whatever the nicks are, the client does not miss such a death, and takes it for that
  // of its format or of one before it.
  lemma AnnouncedIsNotMissed(d: Death, nicks: seq<string>, kill: Option<Kill>)
    requires RuleFor(d).Some? && IsKnown(KillIn(d), nicks)
    requires IsStory(Announced(d), nicks, GameRules(), GameStories(), kill)
    ensures kill.Some? && IsToldBy(Announced(d), nicks, RuleFor(d).value, kill.value)
  {
    var q := RuleFor(d).value;
    AnnouncedFits(d, nicks);
    TakenFits(d, nicks, q);
    RuleTellsAll(Announced(d), nicks, q, kill);
  }

  lemma TakenFits(d: Death, nicks: seq<string>, r: nat)
    requires r < RULES && IsTaken(d, nicks, r)
    ensures FitsSomehow(Announced(d), GameRules()[r].items, nicks)
  {
    var names :| FitsWith(Announced(d), RuleAt(r).items, nicks, names);
    assert GameRules()[r] == RuleAt(r);
  }

  lemma RuleTellsAll(msg: string, nicks: seq<string>, q: nat, kill: Option<Kill>)
    requires q < RULES && FitsSomehow(msg, GameRules()[q].items, nicks)
    requires IsStory(msg, nicks, GameRules(), GameStories(), kill)
    ensures kill.Some? && IsToldBy(msg, nicks, q, kill.value)
  {
  }

  // The kill is told by the first format that fits, which is this one or one before it.
  ghost predicate IsToldBy(msg: string, nicks: seq<string>, last: nat, kill: Kill) {
    exists r: nat, pick :: r <= last && IsFirstStory(msg, nicks, GameRules(), GameStories(), kill, r, pick)
  }

  // ---- Deaths that the client does not notice ----

  // No other nick than this name begins the message.
  predicate IsClear(msg: string, nicks: seq<string>, a: string) {
    forall k :: 0 <= k < |nicks| && nicks[k] <= msg ==> nicks[k] == a
  }

  // Of a format that begins with a nick, the rest is to fit behind the name.
  lemma FitsBehind(m: string, items: seq<Item>, nicks: seq<string>, a: string, pick: seq<nat>)
    requires |items| >= 2 && items[0] == Text("") && items[1] == Nick && IsClear(a + m, nicks, a)
    requires Fits(a + m, items, nicks, pick)
    ensures Fits(m, items[2..], nicks, pick[2..])
  {
    var msg := a + m;
    assert Words(items[0], nicks)[0] == "" && msg[0..] == msg;
    assert items[1..][0] == Nick && pick[1..][0] == pick[1] && nicks[pick[1]] <= msg;
    assert items[1..][1..] == items[2..] && pick[1..][1..] == pick[2..] && msg[|a|..] == m;
  }

  lemma FitsText(m: string, items: seq<Item>, nicks: seq<string>, pick: seq<nat>)
    requires items != [] && items[0].Text? && Fits(m, items, nicks, pick)
    ensures items[0].s <= m && Fits(m[|items[0].s|..], items[1..], nicks, pick[1..])
  {
    assert Words(items[0], nicks) == [items[0].s];
  }

  lemma FitsSomeWord(m: string, items: seq<Item>, nicks: seq<string>, pick: seq<nat>)
    requires items != [] && Fits(m, items, nicks, pick)
    ensures exists k :: 0 <= k < |Words(items[0], nicks)| && Words(items[0], nicks)[k] <= m
  {
    assert Words(items[0], nicks)[pick[0]] <= m;
  }

  // Then the text behind the name comes in the message.
  lemma TextBehind(m: string, items: seq<Item>, nicks: seq<string>, a: string)
    requires |items| >= 3 && items[0] == Text("") && items[1] == Nick && IsClear(a + m, nicks, a)
    requires items[2].Text? && FitsSomehow(a + m, items, nicks)
    ensures items[2].s <= m
  {
    var pick :| Fits(a + m, items, nicks, pick);
    FitsBehind(m, items, nicks, a, pick);
    FitsText(m, items[2..], nicks, pick[2..]);
  }

  // And behind the text comes something that can stand for the next item.
  lemma WordBehind(m: string, items: seq<Item>, nicks: seq<string>, a: string, rest: string)
    requires |items| >= 4 && items[0] == Text("") && items[1] == Nick && IsClear(a + m, nicks, a)
    requires items[2].Text? && m == items[2].s + rest && FitsSomehow(a + m, items, nicks)
    ensures exists k :: 0 <= k < |Words(items[3], nicks)| && Words(items[3], nicks)[k] <= rest
  {
    var pick :| Fits(a + m, items, nicks, pick);
    FitsBehind(m, items, nicks, a, pick);
    FitsText(m, items[2..], nicks, pick[2..]);
    assert m[|items[2].s|..] == rest && items[2..][1..][0] == items[3];
    FitsSomeWord(rest, items[2..][1..], nicks, pick[2..][1..]);
  }

  // What stands behind the first nick in each format.
  function TextOf(r: nat): string
    requires r < RULES
  {
    match r
    case 0 => " was killed by "
    case 2 => " and "
    case 3 => " ran over "
    case 5 => " has committed suicide."
    case 6 => " was killed by a ball."
    case 7 => " was killed by a ball owned by "
    case 8 => " succumbed to an explosion."
    case 9 => " succumbed to an explosion from "
    case 10 => " got roasted alive by "
    case 11 => " was hit by cannonfire."
    case _ => " "
  }

  // The format has a nick first, and then this text.
  ghost predicate NickThenText(r: nat)
    requires r < RULES
  {
    var items := RuleAt(r).items;
    |items| >= 3 && items[0] == Text("") && items[1] == Nick && items[2] == Text(TextOf(r))
  }

  lemma TextsOfRules(r: nat)
    requires r < RULES
    ensures NickThenText(r)
  {
    if r < 5 {
      TextsOfFirst(r);
    } else if r < 8 {
      TextsOfBalls(r);
    } else {
      TextsOfFire(r);
    }
  }

  lemma TextsOfFirst(r: nat)
    requires r < 5
    ensures NickThenText(r)
  {
    if r == 0 {
      TextOfShot();
    } else if r == 1 {
      TextOfCrash();
    } else if r == 2 {
      TextOfPair();
    } else if r == 3 {
      TextOfOverrun();
    } else {
      TextOfHelp();
    }
  }

  lemma TextOfCrash()
    ensures NickThenText(1) && |RuleAt(1).items| > 3 && RuleAt(1).items[3] == Item.Crash
  {
    CrashedBegins(RuleAt(1).items, End("."));
  }

  lemma TextOfHelp()
    ensures NickThenText(4) && |RuleAt(4).items| > 3 && RuleAt(4).items[3] == Item.Crash
  {
    var rest := HelpItems();
    CrashedBegins(RuleAt(4).items, rest);
    CrashIsNickThenText(4, RuleAt(4).items);
  }

  lemma HelpItems() returns (rest: seq<Item>)
    ensures IsExact(rest) && RuleAt(4).items == Crashed(rest)
  {
    rest := At(" with help from ", Nick, End(""));
  }

  lemma CrashIsNickThenText(r: nat, items: seq<Item>)
    requires r in {1, 4} && items == RuleAt(r).items
    requires |items| > 3 && items[0] == Text("") && items[1] == Nick && items[2] == Text(" ")
    ensures NickThenText(r)
  {
  }

  lemma TextOfShot()
    ensures NickThenText(0) && |RuleAt(0).items| > 3 && RuleAt(0).items[3] == Shot
  {
  }

  lemma TextOfPair()
    ensures NickThenText(2)
  {
  }

  lemma TextOfOverrun()
    ensures NickThenText(3)
  {
  }

  lemma CrashedBegins(items: seq<Item>, rest: seq<Item>)
    requires IsExact(rest) && items == Crashed(rest)
    ensures |items| > 3 && items[0] == Text("") && items[1] == Nick && items[2] == Text(" ") && items[3] == Item.Crash
  {
  }

  lemma TextsOfBalls(r: nat)
    requires 5 <= r < 8
    ensures NickThenText(r)
  {
  }

  lemma TextsOfFire(r: nat)
    requires 8 <= r < RULES
    ensures NickThenText(r)
  {
  }

  // No format fits.
  ghost predicate IsMissed(msg: string, nicks: seq<string>) {
    forall r :: 0 <= r < RULES ==> !FitsSomehow(msg, RuleAt(r).items, nicks)
  }

  lemma TextIsMissed(m: string, r: nat, nicks: seq<string>, a: string, i: nat)
    requires r < RULES && IsClear(a + m, nicks, a)
    requires i < |TextOf(r)| && i < |m| && TextOf(r)[i] != m[i]
    ensures !FitsSomehow(a + m, RuleAt(r).items, nicks)
  {
    TextsOfRules(r);
    if FitsSomehow(a + m, RuleAt(r).items, nicks) {
      TextBehind(m, RuleAt(r).items, nicks, a);
    }
  }

  lemma CrashIsMissed(m: string, r: nat, nicks: seq<string>, a: string, rest: string)
    requires r in {1, 4} && IsClear(a + m, nicks, a) && m == " " + rest
    requires forall k :: 0 <= k < |Words(Item.Crash, nicks)| ==> !(Words(Item.Crash, nicks)[k] <= rest)
    ensures !FitsSomehow(a + m, RuleAt(r).items, nicks)
  {
    if r == 1 {
      TextOfCrash();
    } else {
      TextOfHelp();
    }
    if FitsSomehow(a + m, RuleAt(r).items, nicks) {
      WordBehind(m, RuleAt(r).items, nicks, a, rest);
    }
  }

  // A death by the laser of a cannon is not noticed, unless some nick is in the way.
  lemma RoastedIsMissed(a: string, nicks: seq<string>)
    requires IsClear(Announced(RoastedByCannon(a)), nicks, a)
    requires forall k :: 0 <= k < |nicks| ==> !(nicks[k] <= "cannonfire.")
    ensures IsMissed(Announced(RoastedByCannon(a)), nicks)
  {
    RoastedText();
    var words := "got roasted alive by cannonfire.";
    RoastedIsMissedByAll(nicks, a, " got roasted alive by cannonfire.", "cannonfire.", words);
  }

  lemma RoastedIsMissedByAll(nicks: seq<string>, a: string, m: string, behind: string, words: string)
    requires IsClear(a + m, nicks, a) && m == " got roasted alive by " + behind && m == " " + words
    requires words != "" && words[0] == 'g' && forall k :: 0 <= k < |nicks| ==> !(nicks[k] <= behind)
    ensures IsMissed(a + m, nicks)
  {
    forall r: nat | r < RULES
      ensures !FitsSomehow(a + m, RuleAt(r).items, nicks)
    {
      RoastedIsMissedBy(r, nicks, a, m, behind, words);
    }
  }

  lemma RoastedText()
    ensures " got roasted alive by " + "cannonfire." == " got roasted alive by cannonfire."
    ensures " " + "got roasted alive by cannonfire." == " got roasted alive by cannonfire."
  {
  }

  lemma RoastedIsMissedBy(r: nat, nicks: seq<string>, a: string, m: string, behind: string, words: string)
    requires r < RULES && IsClear(a + m, nicks, a) && m == " got roasted alive by " + behind && m == " " + words
    requires words != "" && words[0] == 'g' && forall k :: 0 <= k < |nicks| ==> !(nicks[k] <= behind)
    ensures !FitsSomehow(a + m, RuleAt(r).items, nicks)
  {
    if r in {1, 4} {
      NoCrash(words, nicks);
      CrashIsMissed(m, r, nicks, a, words);
    } else if r == 10 {
      LaserIsMissed(m, nicks, a, behind);
    } else {
      RoastedDiffers(r);
      TextIsMissed(m, r, nicks, a, 1);
    }
  }

  lemma NoCrash(rest: string, nicks: seq<string>)
    requires rest != "" && rest[0] == 'g'
    ensures forall k :: 0 <= k < |Words(Item.Crash, nicks)| ==> !(Words(Item.Crash, nicks)[k] <= rest)
  {
    forall k | 0 <= k < |Words(Item.Crash, nicks)|
      ensures !(Words(Item.Crash, nicks)[k] <= rest)
    {
      assert Words(Item.Crash, nicks)[k][0] != 'g';
    }
  }

  lemma RoastedDiffers(r: nat)
    requires r < RULES && r !in {1, 4, 10}
    ensures |TextOf(r)| > 1 && TextOf(r)[1] != 'g'
  {
  }

  lemma LaserIsMissed(m: string, nicks: seq<string>, a: string, rest: string)
    requires IsClear(a + m, nicks, a) && m == " got roasted alive by " + rest
    requires forall k :: 0 <= k < |nicks| ==> !(nicks[k] <= rest)
    ensures !FitsSomehow(a + m, RuleAt(10).items, nicks)
  {
    TextOfLaser();
    if FitsSomehow(a + m, RuleAt(10).items, nicks) {
      WordBehind(m, RuleAt(10).items, nicks, a, rest);
    }
  }

  lemma TextOfLaser()
    ensures NickThenText(10) && |RuleAt(10).items| > 3 && RuleAt(10).items[3] == Nick
  {
  }

  // A description of a weapon that does not begin like an ordinary shot or a ball.
  predicate IsWeapon(weapon: string) {
    weapon == "a shot" || (!Comparable(weapon, "a shot") && !Comparable(weapon, "a ball"))
  }

  // Of the deaths by weapons only those by ordinary shots are noticed, unless some nick is
  // in the way.
  lemma WeaponIsNoticed(d: Death, nicks: seq<string>)
    requires d.ShotDown? && IsWeapon(d.weapon) && IsKnown(KillIn(d), nicks)
    requires IsClear(Announced(d), nicks, d.victim)
    ensures !IsMissed(Announced(d), nicks) <==> d.weapon == "a shot"
  {
    if d.weapon == "a shot" {
      ShotIsTaken(d, nicks);
      TakenFits(d, nicks, 0);
      assert GameRules()[0] == RuleAt(0);
    } else {
      var behind := d.weapon + " from " + d.killer + "." + d.tail;
      KilledText(d, behind);
      WeaponIsMissedByAll(nicks, d.victim, " was killed by " + behind, behind, "was killed by " + behind, d.weapon);
    }
  }

  lemma KilledText(d: Death, behind: string)
    requires d.ShotDown? && behind == d.weapon + " from " + d.killer + "." + d.tail
    ensures Announced(d) == d.victim + (" was killed by " + behind)
    ensures " was killed by " + behind == " " + ("was killed by " + behind)
    ensures d.weapon <= behind
  {
    assert " was killed by " == " " + "was killed by ";
  }

  lemma WeaponIsMissedByAll(nicks: seq<string>, a: string, m: string, behind: string, words: string, weapon: string)
    requires IsClear(a + m, nicks, a) && m == " was killed by " + behind && m == " " + words
    requires weapon <= behind && !Comparable(weapon, "a shot") && !Comparable(weapon, "a ball")
    ensures IsMissed(a + m, nicks)
  {
    forall r: nat | r < RULES
      ensures !FitsSomehow(a + m, RuleAt(r).items, nicks)
    {
      WeaponIsMissedBy(r, nicks, a, m, behind, words, weapon);
    }
  }

  lemma WeaponIsMissedBy(r: nat, nicks: seq<string>, a: string, m: string, behind: string, words: string,
                         weapon: string)
    requires r < RULES && IsClear(a + m, nicks, a) && m == " was killed by " + behind && m == " " + words
    requires weapon <= behind && !Comparable(weapon, "a shot") && !Comparable(weapon, "a ball")
    ensures !FitsSomehow(a + m, RuleAt(r).items, nicks)
  {
    if r == 0 {
      BothBegin(weapon, "a shot", behind);
      ShotIsMissed(m, nicks, a, behind);
    } else if r in {1, 4} {
      NotTrashed(m, words, behind, nicks);
      CrashIsMissed(m, r, nicks, a, words);
    } else if r in {6, 7} {
      BothBegin(weapon, "a ball", behind);
      BallIsMissed(m, r, nicks, a, behind);
    } else {
      KilledDiffers(r);
      TextIsMissed(m, r, nicks, a, if r == 11 then 5 else 1);
    }
  }

  lemma BothBegin(a: string, b: string, s: string)
    requires a <= s && !Comparable(a, b)
    ensures !(b <= s)
  {
  }

  lemma ShotIsMissed(m: string, nicks: seq<string>, a: string, behind: string)
    requires IsClear(a + m, nicks, a) && m == " was killed by " + behind && !("a shot" <= behind)
    ensures !FitsSomehow(a + m, RuleAt(0).items, nicks)
  {
    TextOfShot();
    if FitsSomehow(a + m, RuleAt(0).items, nicks) {
      WordBehind(m, RuleAt(0).items, nicks, a, behind);
    }
  }

  lemma NotTrashed(m: string, words: string, behind: string, nicks: seq<string>)
    requires m == " was killed by " + behind && m == " " + words
    ensures forall k :: 0 <= k < |Words(Item.Crash, nicks)| ==> !(Words(Item.Crash, nicks)[k] <= words)
  {
    assert words[0] == m[1] == 'w' && words[4] == m[5] == 'k';
    forall k | 0 <= k < |Words(Item.Crash, nicks)|
      ensures !(Words(Item.Crash, nicks)[k] <= words)
    {
      assert Words(Item.Crash, nicks)[k][0] != 'w' || Words(Item.Crash, nicks)[k][4] != 'k';
    }
  }

  lemma BallIsMissed(m: string, r: nat, nicks: seq<string>, a: string, behind: string)
    requires r in {6, 7} && IsClear(a + m, nicks, a) && m == " was killed by " + behind && !("a ball" <= behind)
    ensures !FitsSomehow(a + m, RuleAt(r).items, nicks)
  {
    TextsOfRules(r);
    BallText(r);
    if FitsSomehow(a + m, RuleAt(r).items, nicks) {
      TextBehind(m, RuleAt(r).items, nicks, a);
      Shortened(" was killed by ", "a ball", TextOf(r), behind);
    }
  }

  lemma BallText(r: nat)
    requires r in {6, 7}
    ensures " was killed by " + "a ball" <= TextOf(r)
  {
  }

  lemma Shortened(s: string, b: string, text: string, behind: string)
    requires s + b <= text <= s + behind
    ensures b <= behind
  {
    assert (s + b)[|s|..] == b && (s + behind)[|s|..] == behind;
    assert forall i :: 0 <= i < |b| ==> (s + b)[|s| + i] == b[i] && (s + behind)[|s| + i] == behind[i];
  }

  lemma KilledDiffers(r: nat)
    requires r < RULES && r !in {0, 1, 4, 6, 7}
    ensures if r == 11 then |TextOf(r)| > 5 && TextOf(r)[5] != 'k' else |TextOf(r)| > 1 && TextOf(r)[1] != 'w'
  {
  }
}
