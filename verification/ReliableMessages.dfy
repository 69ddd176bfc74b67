/** The messages of the reliable stream, and the loop of Net_packet that handles
    as many of them as have arrived whole. */
module ReliableMessages {
  import opened Bytes
  import opened Sockets

  const PKT_REPLY: Byte := 2
  const PKT_MESSAGE: Byte := 5
  const PKT_STRING: Byte := 20
  const PKT_SEEK: Byte := 25
  const PKT_TEAM_SCORE: Byte := 27
  const PKT_PLAYER: Byte := 28
  const PKT_SCORE: Byte := 29
  const PKT_BASE: Byte := 31
  const PKT_LEAVE: Byte := 33
  const PKT_WAR: Byte := 40
  const PKT_SCORE_OBJECT: Byte := 49
  const PKT_TALK_ACK: Byte := 52
  const PKT_MOTD: Byte := 58
  const PKT_TEAM: Byte := 61
  const PKT_TIMING: Byte := 76

  // What depends on the server version and transport: scores with two decimals,
  // the flag at the end of a player, and the user names that are accepted.
  datatype Protocol = Protocol(decimals: bool, playerFlag: bool, userNameOk: seq<Byte> -> bool)

  datatype Message = Message(kind: Byte, values: seq<Value>)

  // A message may have to wait for more data; it may end the connection; or it
  // is handled and the read position moves by `used`.
  datatype Outcome = Wait | Quit | Handled(used: int, msg: Message)

  datatype Kind = Plain(fmt: seq<Item>) | Motd | Player | Unknown

  function KindOf(p: Protocol, kind: Byte): Kind {
    if kind == PKT_REPLY then Plain([Char, Char, Char])
    else if kind == PKT_MESSAGE then Plain([Char, BigString])
    else if kind == PKT_TEAM_SCORE then Plain([Char, Short, Int])
    else if kind == PKT_TEAM then Plain([Char, Short, Char])
    else if kind == PKT_SCORE then
      Plain(if p.decimals then [Char, Short, Int, Short, Char, Char] else [Char, Short, Short, Short, Char])
    else if kind == PKT_TIMING then Plain([Char, Short, UShort])
    else if kind == PKT_LEAVE then Plain([Char, Short])
    else if kind == PKT_WAR then Plain([Char, Short, Short])
    else if kind == PKT_SEEK then Plain([Char, Short, Short, Short])
    else if kind == PKT_BASE then Plain([Char, Short, UShort])
    else if kind == PKT_STRING then Plain([Char, Char, UShort, UShort])
    else if kind == PKT_SCORE_OBJECT then
      Plain([Char, if p.decimals then Int else Short, UShort, UShort, SmallString])
    else if kind == PKT_TALK_ACK then Plain([Char, Long])
    else if kind == PKT_MOTD then Motd
    else if kind == PKT_PLAYER then Player
    else Unknown
  }

  const MOTD_HEADER := [Char, Long, Short, Long]
  const PLAYER_FIRST := [Char, Short, Char, Char, SmallString, SmallString, SmallString, BigString]
  const USER_NAME := 5

  function PlayerSecond(p: Protocol): seq<Item> { if p.playerFlag then [BigString, Char] else [BigString] }

  function Receive(kind: Byte, fmt: seq<Item>, s: seq<Byte>): Outcome {
    match ScanFormat(fmt, s)
    case Complete(used, values) => Handled(used, Message(kind, values))
    case Incomplete => Wait
    case Failed => Quit
  }

  // The header is followed by as many bytes as its third number says; when not
  // all of them are there, the read position goes back before the header.
  function ReceiveMotd(s: seq<Byte>): Outcome {
    match Receive(PKT_MOTD, MOTD_HEADER, s)
    case Handled(used, msg) =>
      var len := if |msg.values| > 2 && msg.values[2].Number? then msg.values[2].n else 0;
      if used + len > |s| then Wait
      else Handled(used + len, Message(PKT_MOTD, msg.values + [Text(if len > 0 then s[used..used + len] else [])]))
    case other => other
  }

  // A player is read in two scans; when the second finds too little, the read
  // position goes back before the first.
  function ReceivePlayer(p: Protocol, s: seq<Byte>): Outcome {
    match Receive(PKT_PLAYER, PLAYER_FIRST, s)
    case Handled(used, first) =>
      if |first.values| > USER_NAME && first.values[USER_NAME].Text? && !p.userNameOk(first.values[USER_NAME].bytes)
      then Quit
      else
        (match Receive(PKT_PLAYER, PlayerSecond(p), s[used..])
         case Handled(more, second) => Handled(used + more, Message(PKT_PLAYER, first.values + second.values))
         case other => other)
    case other => other
  }

  // One message; an unknown type and a quit message end the connection.
  function ReceiveMessage(p: Protocol, s: seq<Byte>): Outcome
    requires s != []
  {
    match KindOf(p, s[0])
    case Plain(fmt) => Receive(s[0], fmt, s)
    case Motd => ReceiveMotd(s)
    case Player => ReceivePlayer(p, s)
    case Unknown => Quit
  }

  // How the loop over the received bytes ends.  It cannot end when a message
  // does not move the read position forward.
  datatype End = Waiting | Ended | Stuck

  datatype Handling = Handling(msgs: seq<Message>, used: nat, end: End)

  function HandleAll(p: Protocol, s: seq<Byte>): (r: Handling)
    ensures r.used <= |s|
  {
    if s == [] then Handling([], 0, Waiting)
    else
      match ReceiveMessage(p, s)
      case Wait => Handling([], 0, Waiting)
      case Quit => Handling([], 0, Ended)
      case Handled(used, msg) =>
        if used <= 0 || used > |s| then Handling([], 0, Stuck)
        else
          var rest := HandleAll(p, s[used..]);
          Handling([msg] + rest.msgs, used + rest.used, rest.end)
  }

  lemma UsedFits(p: Protocol, s: seq<Byte>)
    requires s != [] && ReceiveMessage(p, s).Handled?
    ensures ReceiveMessage(p, s).used <= |s|
  {
  }

  // A message that did not have to wait is not changed by what comes after it.
  lemma MessageIsStable(p: Protocol, s: seq<Byte>, t: seq<Byte>)
    requires s != [] && !ReceiveMessage(p, s).Wait?
    ensures ReceiveMessage(p, s + t) == ReceiveMessage(p, s)
  {
    match KindOf(p, s[0])
    case Plain(fmt) => ScanIsStable(fmt, s, t);
    case Motd => MotdIsStable(s, t);
    case Player => PlayerIsStable(p, s, t);
    case Unknown =>
  }

  lemma MotdIsStable(s: seq<Byte>, t: seq<Byte>)
    requires !ReceiveMotd(s).Wait?
    ensures ReceiveMotd(s + t) == ReceiveMotd(s)
  {
    ScanIsStable(MOTD_HEADER, s, t);
    var r := ReceiveMotd(s);
    if r.Handled? {
      SameSlice(s, t, ScanFormat(MOTD_HEADER, s).used, r.used);
    }
  }

  lemma SameSlice(s: seq<Byte>, t: seq<Byte>, i: int, j: int)
    ensures 0 <= i <= j <= |s| ==> (s + t)[i..j] == s[i..j]
  {
  }

  lemma PlayerIsStable(p: Protocol, s: seq<Byte>, t: seq<Byte>)
    requires !ReceivePlayer(p, s).Wait?
    ensures ReceivePlayer(p, s + t) == ReceivePlayer(p, s)
  {
    ScanIsStable(PLAYER_FIRST, s, t);
    var first := ScanFormat(PLAYER_FIRST, s);
    if first.Complete? {
      assert (s + t)[first.used..] == s[first.used..] + t;
      if !ScanFormat(PlayerSecond(p), s[first.used..]).Incomplete? {
        ScanIsStable(PlayerSecond(p), s[first.used..], t);
      }
    }
  }

  // The bytes that are left when no more messages can be handled.
  ghost function Left(p: Protocol, s: seq<Byte>): seq<Byte> { s[HandleAll(p, s).used..] }

  ghost function Joined(a: Handling, b: Handling): Handling {
    if a.end.Waiting? then Handling(a.msgs + b.msgs, a.used + b.used, b.end) else a
  }

  // Handling s first, and what is left of it with t appended later.
  ghost function InTwo(p: Protocol, s: seq<Byte>, t: seq<Byte>): Handling {
    Joined(HandleAll(p, s), HandleAll(p, Left(p, s) + t))
  }

  lemma LeftAfterFirst(p: Protocol, s: seq<Byte>)
    requires s != [] && ReceiveMessage(p, s).Handled? && 0 < ReceiveMessage(p, s).used <= |s|
    ensures Left(p, s) == Left(p, s[ReceiveMessage(p, s).used..])
  {
    var u := ReceiveMessage(p, s).used;
    assert s[u..][HandleAll(p, s[u..]).used..] == s[u + HandleAll(p, s[u..]).used..];
  }

  lemma JoinedAfterFirst(msg: Message, used: nat, a: Handling, b: Handling)
    ensures Joined(Handling([msg] + a.msgs, used + a.used, a.end), b) ==
      Handling([msg] + Joined(a, b).msgs, used + Joined(a, b).used, Joined(a, b).end)
  {
    assert [msg] + a.msgs + b.msgs == [msg] + (a.msgs + b.msgs);
  }

  // That handles the same messages as handling s and t at once: the cut between
  // them does not matter.
  lemma {:induction false} CutDoesNotMatter(p: Protocol, s: seq<Byte>, t: seq<Byte>)
    ensures HandleAll(p, s + t) == InTwo(p, s, t)
    decreases |s|
  {
    if s == [] || ReceiveMessage(p, s).Wait? {
      assert s[0..] + t == s + t;
    } else {
      MessageIsStable(p, s, t);
      var r := ReceiveMessage(p, s);
      if r.Handled? && 0 < r.used {
        UsedFits(p, s);
        FirstMessage(p, s, t);
        CutDoesNotMatter(p, s[r.used..], t);
        FirstMessageInTwo(p, s, t);
      } else {
        NoFirstMessage(p, s, t);
      }
    }
  }

  lemma FirstMessage(p: Protocol, s: seq<Byte>, t: seq<Byte>)
    requires s != [] && ReceiveMessage(p, s + t) == ReceiveMessage(p, s)
    requires ReceiveMessage(p, s).Handled? && 0 < ReceiveMessage(p, s).used <= |s|
    ensures var r := ReceiveMessage(p, s);
      var rest := HandleAll(p, s[r.used..] + t);
      HandleAll(p, s + t) == Handling([r.msg] + rest.msgs, r.used + rest.used, rest.end)
  {
    var r := ReceiveMessage(p, s);
    assert (s + t)[r.used..] == s[r.used..] + t;
  }

  lemma NoFirstMessage(p: Protocol, s: seq<Byte>, t: seq<Byte>)
    requires s != [] && ReceiveMessage(p, s + t) == ReceiveMessage(p, s) && !ReceiveMessage(p, s).Wait?
    requires ReceiveMessage(p, s).Handled? ==> ReceiveMessage(p, s).used <= 0
    ensures HandleAll(p, s + t) == HandleAll(p, s) == InTwo(p, s, t)
  {
  }

  lemma FirstMessageInTwo(p: Protocol, s: seq<Byte>, t: seq<Byte>)
    requires s != [] && ReceiveMessage(p, s).Handled? && 0 < ReceiveMessage(p, s).used <= |s|
    ensures var r := ReceiveMessage(p, s);
      var rest := InTwo(p, s[r.used..], t);
      InTwo(p, s, t) == Handling([r.msg] + rest.msgs, r.used + rest.used, rest.end)
  {
    var r := ReceiveMessage(p, s);
    LeftAfterFirst(p, s);
    JoinedAfterFirst(r.msg, r.used, HandleAll(p, s[r.used..]), HandleAll(p, Left(p, s) + t));
  }

  lemma HandledInTwo(p: Protocol, whole: seq<Byte>, s: seq<Byte>, t: seq<Byte>, unread: seq<Byte>)
    requires whole == s + t && unread == Left(p, s) + t
    ensures HandleAll(p, whole) == Joined(HandleAll(p, s), HandleAll(p, unread))
  {
    CutDoesNotMatter(p, s, t);
  }

  // The length field of a message of the day whose header has arrived.
  ghost function MotdLength(s: seq<Byte>): int
    requires |s| >= 11
  {
    GetShort(s[5..7])
  }

  lemma MotdWidth()
    ensures TotalWidth(MOTD_HEADER) == 11
  {
    assert MOTD_HEADER[1..] == [Long, Short, Long] && [Long, Short, Long][1..] == [Short, Long];
    assert [Short, Long][1..] == [Long] && [Long][1..] == [];
  }

  lemma MotdHeader(s: seq<Byte>)
    requires |s| >= 11
    ensures ScanFormat(MOTD_HEADER, s).Complete? && ScanFormat(MOTD_HEADER, s).used == 11
    ensures ScanFormat(MOTD_HEADER, s).values[2] == Number(MotdLength(s))
  {
    MotdWidth();
    FixedScan(MOTD_HEADER, s);
    assert MOTD_HEADER[1..] == [Long, Short, Long];
    ThirdValue(MOTD_HEADER, s);
  }

  lemma ThirdValue(fmt: seq<Item>, s: seq<Byte>)
    requires |fmt| == 4 && fmt[0].Char? && fmt[1..] == [Long, Short, Long]
    requires |s| >= 11 && ScanFormat(fmt, s).Complete?
    ensures ScanFormat(fmt, s).values[2] == Number(MotdLength(s))
  {
    ScanFirst(fmt, s);
    MotdNumbers(s[1..]);
    assert s[1..][4..6] == s[5..7];
  }

  lemma ScanFirst(fmt: seq<Item>, s: seq<Byte>)
    requires fmt != [] && ScanFormat(fmt, s).Complete? && fmt[0].Char?
    ensures s != [] && ScanFormat(fmt[1..], s[1..]).Complete?
    ensures forall i :: 0 < i < |fmt| ==> ScanFormat(fmt, s).values[i] == ScanFormat(fmt[1..], s[1..]).values[i - 1]
  {
  }

  // The length follows a number of four bytes.
  lemma MotdNumbers(s: seq<Byte>)
    requires |s| >= 10
    ensures var r := ScanFormat([Long, Short, Long], s); r.Complete? && |r.values| == 3
    ensures ScanFormat([Long, Short, Long], s).values[1] == Number(GetShort(s[4..6]))
  {
    assert [Long, Short, Long][1..] == [Short, Long] && [Short, Long][1..] == [Long] && [Long][1..] == [];
    assert TotalWidth([Long]) == 4 && TotalWidth([Short, Long]) == 6 && TotalWidth([Long, Short, Long]) == 10;
    FixedScan([Long, Short, Long], s);
    FixedScan([Short, Long], s[4..]);
    assert s[4..][..2] == s[4..6];
  }

  // The header of a message of the day with a length of -11 or less.
  ghost predicate IsNegativeMotd(s: seq<Byte>) {
    |s| >= 11 && s[0] == PKT_MOTD && MotdLength(s) <= -11
  }

  // That is the only message that fails to move the read position forward.
  lemma OnlyMotdSticks(p: Protocol, s: seq<Byte>)
    requires s != []
    ensures ReceiveMessage(p, s).Handled? && ReceiveMessage(p, s).used <= 0 <==> IsNegativeMotd(s)
  {
    if s[0] == PKT_MOTD {
      if |s| < 11 {
        MotdWidth();
        FixedScan(MOTD_HEADER, s);
      } else {
        MotdHeader(s);
      }
    }
  }

  // After whole messages the loop comes to place k.
  ghost predicate Reaches(p: Protocol, s: seq<Byte>, k: nat)
    decreases |s|
  {
    || k == 0
    || (s != [] && ReceiveMessage(p, s).Handled? && 0 < ReceiveMessage(p, s).used <= |s|
        && ReceiveMessage(p, s).used <= k && Reaches(p, s[ReceiveMessage(p, s).used..], k - ReceiveMessage(p, s).used))
  }

  ghost predicate MeetsNegativeMotd(p: Protocol, s: seq<Byte>) {
    exists k: nat :: k < |s| && SticksAt(p, s, k)
  }

  ghost predicate SticksAt(p: Protocol, s: seq<Byte>, k: nat)
    requires k < |s|
  {
    Reaches(p, s, k) && IsNegativeMotd(s[k..])
  }

  // The loop over the messages does not end exactly when it comes to such a message.
  lemma {:induction false} StuckAtNegativeMotd(p: Protocol, s: seq<Byte>)
    ensures HandleAll(p, s).end.Stuck? <==> MeetsNegativeMotd(p, s)
    decreases |s|
  {
    if s != [] {
      OnlyMotdSticks(p, s);
      var r := ReceiveMessage(p, s);
      assert s[0..] == s;
      if r.Handled? {
        UsedFits(p, s);
        if r.used <= 0 {
          assert SticksAt(p, s, 0);
        } else {
          StuckAtNegativeMotd(p, s[r.used..]);
          SticksLater(p, s);
        }
      } else {
        forall k: nat | k < |s| ensures !SticksAt(p, s, k) {
        }
      }
    }
  }

  lemma SticksLater(p: Protocol, s: seq<Byte>)
    requires s != [] && ReceiveMessage(p, s).Handled? && 0 < ReceiveMessage(p, s).used <= |s|
    ensures MeetsNegativeMotd(p, s) <==> MeetsNegativeMotd(p, s[ReceiveMessage(p, s).used..])
  {
    var u := ReceiveMessage(p, s).used;
    if k: nat :| k < |s| && SticksAt(p, s, k) {
      OnlyMotdSticks(p, s);
      assert s[0..] == s && k > 0;
      assert s[u..][k - u..] == s[k..];
      assert SticksAt(p, s[u..], k - u);
    }
    if k: nat :| k < |s[u..]| && SticksAt(p, s[u..], k) {
      assert s[u..][k..] == s[u + k..];
      assert SticksAt(p, s, u + k);
    }
  }

  // The bytes of a message of the day whose length field is -11 bring the read
  // position back to where it was, so the loop would not end.
  const STUCK_MOTD: seq<Byte> := [PKT_MOTD, 0, 0, 0, 0, 255, 245, 0, 0, 0, 0]

  lemma NegativeMotdIsStuck(p: Protocol)
    ensures HandleAll(p, STUCK_MOTD).end.Stuck?
  {
    MotdHeader(STUCK_MOTD);
    assert STUCK_MOTD[5..7] == [255, 245];
  }
}
