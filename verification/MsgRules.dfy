/** The formats by which messages.c recognises who was killed, and the names they give. */
module MsgRules {
  import opened MsgFormats
  import opened Options

  // A format, and where the names found for it are looked up.
  datatype Rule = Rule(items: seq<Item>, killer: Option<nat>, victim: nat, victim2: Option<nat>)

  // Who was killed according to a message, and by whom.
  datatype Kill = Kill(killer: Option<string>, victim: string, victim2: Option<string>)

  // What the format says of the names in it, in the order in which they are written:
  // one was killed alone, or by the second, or both were killed, or the first killed
  // the second.
  datatype Story = Alone | KilledBySecond | BothKilled | KilledByFirst

  ghost predicate Tells(story: Story, names: seq<string>, kill: Kill) {
    match story
    case Alone => |names| == 1 && kill == Kill(None, names[0], None)
    case KilledBySecond => |names| == 2 && kill == Kill(Some(names[1]), names[0], None)
    case BothKilled => |names| == 2 && kill == Kill(None, names[0], Some(names[1]))
    case KilledByFirst => |names| == 2 && kill == Kill(Some(names[0]), names[1], None)
  }

  // A format without teams in which nothing that follows "head first" can be taken
  // for it.
  ghost predicate IsExact(items: seq<Item>) {
    IsFormat(items) && Clear(items) && NoTeam(items)
  }

  function End(s: string): (items: seq<Item>)
    requires '%' !in s
    ensures IsExact(items) && NickCount(items) == 0 && items[0] == Text(s)
  {
    [Text(s)]
  }

  function At(s: string, item: Item, rest: seq<Item>): (items: seq<Item>)
    requires '%' !in s && !item.Text? && !item.Unknown? && !item.Team? && IsExact(rest)
    requires item.Head? ==> !Starts(rest)
    ensures IsExact(items) && NickCount(items) == NickCount(rest) + (if item.Nick? then 1 else 0)
    ensures items[0] == Text(s)
  {
    var items := [Text(s), item] + rest;
    assert items[2..] == rest && items[1..] == [item] + rest && items[1..][1..] == rest;
    assert Clear(items) by {
      forall i | 0 <= i < |items| && items[i].Head?
        ensures !Starts(items[i + 1..])
      {
        assert i > 1 ==> items[i] == rest[i - 2] && items[i + 1..] == rest[i - 1..];
      }
    }
    items
  }

  // One name, then text; two names, with text between and after them.
  function One(s: string): (items: seq<Item>)
    requires '%' !in s
    ensures IsExact(items) && NickCount(items) == 1
  {
    At("", Nick, End(s))
  }

  function Two(s: string, t: string): (items: seq<Item>)
    requires '%' !in s && '%' !in t
    ensures IsExact(items) && NickCount(items) == 2
  {
    At("", Nick, At(s, Nick, End(t)))
  }

  function ShotFrom(): (items: seq<Item>)
    ensures IsExact(items) && NickCount(items) == 2
  {
    At("", Nick, At(" was killed by ", Shot, At(" from ", Nick, End("."))))
  }

  function Crashed(rest: seq<Item>): (items: seq<Item>)
    requires IsExact(rest)
    ensures IsExact(items) && NickCount(items) == NickCount(rest) + 1
  {
    var against := At(" against a ", Obstacle, rest);
    assert !Starts(against) by {
      assert " against a "[1] != HEAD_FIRST[1];
      TextStandsOut(against);
    }
    At("", Nick, At(" ", Crash, At("", Head, against)))
  }

  function Lookup(names: seq<string>, i: Option<nat>): Option<string>
    requires i.Some? ==> i.value < |names|
  {
    if i.Some? then Some(names[i.value]) else None
  }

  // The names are all stored, and looking them up, the last one first, tells the story.
  ghost predicate RuleFits(rule: Rule, story: Story) {
    && IsExact(rule.items) && rule.victim < NickCount(rule.items) <= MSG_MAX_NAMES
    && (rule.killer.Some? ==> rule.killer.value < NickCount(rule.items))
    && (rule.victim2.Some? ==> rule.victim2.value < NickCount(rule.items))
    && match story
       case Alone =>
         NickCount(rule.items) == 1 && rule.killer.None? && rule.victim2.None?
       case KilledBySecond =>
         NickCount(rule.items) == 2 && rule.killer == Some(0) && rule.victim == 1 && rule.victim2.None?
       case BothKilled =>
         NickCount(rule.items) == 2 && rule.killer.None? && rule.victim == 1 && rule.victim2 == Some(0)
       case KilledByFirst =>
         NickCount(rule.items) == 2 && rule.killer == Some(1) && rule.victim == 0 && rule.victim2.None?
  }

  // The formats in the order in which they are tried.
  const RULES := 12

  function StoryAt(r: nat): Story
    requires r < RULES
  {
    if r == 2 then BothKilled
    else if r == 3 then KilledByFirst
    else if r in {0, 4, 7, 9, 10} then KilledBySecond
    else Alone
  }

  function CollisionRule(r: nat): (rule: Rule)
    requires r < 3
    ensures RuleFits(rule, StoryAt(r))
  {
    match r
    case 0 => Rule(ShotFrom(), Some(0), 1, None)
    case 1 => Rule(Crashed(End(".")), None, 0, None)
    case _ => Rule(Two(" and ", " crashed."), None, 1, Some(0))
  }

  function HelpRule(r: nat): (rule: Rule)
    requires r < 2
    ensures RuleFits(rule, StoryAt(r + 3))
  {
    match r
    case 0 => Rule(Two(" ran over ", "."), Some(1), 0, None)
    case _ => Rule(Crashed(At(" with help from ", Nick, End(""))), Some(0), 1, None)
  }

  function BallRule(r: nat): (rule: Rule)
    requires r < 3
    ensures RuleFits(rule, StoryAt(r + 5))
  {
    match r
    case 0 => Rule(One(" has committed suicide."), None, 0, None)
    case 1 => Rule(One(" was killed by a ball."), None, 0, None)
    case _ => Rule(Two(" was killed by a ball owned by ", "."), Some(0), 1, None)
  }

  function ExplosionRule(r: nat): (rule: Rule)
    requires r < 2
    ensures RuleFits(rule, StoryAt(r + 8))
  {
    match r
    case 0 => Rule(One(" succumbed to an explosion."), None, 0, None)
    case _ => Rule(Two(" succumbed to an explosion from ", "."), Some(0), 1, None)
  }

  function FireRule(r: nat): (rule: Rule)
    requires r < 2
    ensures RuleFits(rule, StoryAt(r + 10))
  {
    match r
    case 0 => Rule(Two(" got roasted alive by ", "'s laser."), Some(0), 1, None)
    case _ => Rule(One(" was hit by cannonfire."), None, 0, None)
  }

  function RuleAt(r: nat): (rule: Rule)
    requires r < RULES
    ensures RuleFits(rule, StoryAt(r))
  {
    if r < 3 then CollisionRule(r)
    else if r < 5 then HelpRule(r - 3)
    else if r < 8 then BallRule(r - 5)
    else if r < 10 then ExplosionRule(r - 8)
    else FireRule(r - 10)
  }

  // All rules, each with the story that it tells.
  function GameRules(): (rules: seq<Rule>)
    ensures |rules| == RULES && forall r :: 0 <= r < RULES ==> RuleFits(rules[r], StoryAt(r))
  {
    seq(RULES, r requires 0 <= r < RULES => RuleAt(r))
  }
}
