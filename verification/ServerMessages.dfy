/** The messages that the server, netserver.c, writes to the reliable stream, and that the
    client reads them as what they were. */
module ServerMessages {
  import opened Bytes
  import opened Options
  import opened PacketPrint
  import opened ReliableMessages
  import opened Sockets

  // The format with which each kind of message is written: replies, messages, scores,
  // bases, players that leave, score objects, acknowledgements of talk, teams and race
  // timings. No function of the server writes the last four, strings, seek and war notices
  // and team scores; older servers did.
  function SentFormat(p: Protocol, kind: Byte): Option<seq<Item>> {
    match kind
    case 2 => Some([Char, Char, Char])
    case 5 => Some([Char, BigString])
    case 29 => Some(if p.decimals then [Char, Short, Int, Short, Char, Char] else [Char, Short, Short, Short, Char])
    case 31 => Some([Char, Short, UShort])
    case 33 => Some([Char, Short])
    case 49 => Some(if p.decimals then [Char, Int, UShort, UShort, SmallString]
                    else [Char, Short, UShort, UShort, SmallString])
    case 52 => Some([Char, Long])
    case 61 => Some([Char, Short, Char])
    case 76 => Some([Char, Short, UShort])
    case 20 => Some([Char, Char, UShort, UShort])
    case 25 => Some([Char, Short, Short, Short])
    case 27 => Some([Char, Short, Int])
    case 40 => Some([Char, Short, Short])
    case _ => None
  }

  // The two formats that are followed by more, and the second format of a player.
  const MOTD_SENT := [Char, Long, Short, Long]
  const PLAYER_SENT := [Char, Short, Char, Char, SmallString, SmallString, SmallString, BigString]

  // Behind type, number, team, status and nick comes the user name.
  const USER_SENT := 5

  function ShapeSent(p: Protocol): seq<Item> { if p.playerFlag then [BigString, Char] else [BigString] }

  // A message whose values are of the types of its formats; the length of a message of the
  // day is that of its bytes.
  predicate IsMessage(p: Protocol, msg: Message) {
    && msg.values != [] && msg.values[0] == Number(msg.kind)
    && match KindSent(p, msg.kind)
       case Plain(fmt) => TypesFit(fmt, msg.values)
       case Motd => IsMotd(msg.values)
       case Player => IsPlayer(p, msg.values)
       case Unknown => false
  }

  function KindSent(p: Protocol, kind: Byte): Kind {
    if kind == 28 then Player
    else if kind == 58 then Motd
    else
      match SentFormat(p, kind)
      case Some(fmt) => Plain(fmt)
      case None => Unknown
  }

  predicate IsMotd(values: seq<Value>) {
    && |values| == 5 && TypesFit(MOTD_SENT, values[..4])
    && values[4].Text? && values[2] == Number(|values[4].bytes|)
  }

  predicate IsPlayer(p: Protocol, values: seq<Value>) {
    |values| >= 8 && TypesFit(PLAYER_SENT, values[..8]) && TypesFit(ShapeSent(p), values[8..])
  }

  // What is written for a message where there is room for that many bytes before the spare
  // ones, if anything.
  function Written(p: Protocol, msg: Message, room: int): Option<seq<Byte>>
    requires IsMessage(p, msg)
  {
    match KindSent(p, msg.kind)
    case Plain(fmt) => Print(fmt, msg.values, room)
    case Motd => WrittenMotd(msg.values, room)
    case Player => WrittenPlayer(p, msg.values, room)
    case Unknown => None
  }

  // The bytes of a message of the day are appended as they are.
  function WrittenMotd(values: seq<Value>, room: int): Option<seq<Byte>>
    requires IsMotd(values)
  {
    match Print(MOTD_SENT, values[..4], room)
    case None => None
    case Some(header) =>
      if room + SOCKBUF_WRITE_SPARE - |header| < |values[4].bytes| then None else Some(header + values[4].bytes)
  }

  // When there is no room for the rest of a player, the first part is taken back.
  function WrittenPlayer(p: Protocol, values: seq<Value>, room: int): Option<seq<Byte>>
    requires IsPlayer(p, values)
  {
    match Print(PLAYER_SENT, values[..8], room)
    case None => None
    case Some(first) =>
      (match Print(ShapeSent(p), values[8..], room - |first|)
       case None => None
       case Some(second) => Some(first + second))
  }

  // Every number is one that its field can hold, every text is within its limit and the
  // room, and the client accepts the user name.
  predicate MessageFits(p: Protocol, msg: Message, room: int)
    requires IsMessage(p, msg)
  {
    match KindSent(p, msg.kind)
    case Plain(fmt) => AllFit(fmt, msg.values, room)
    case Motd => AllFit(MOTD_SENT, msg.values[..4], room)
    case Player => PlayerFits(p, msg.values, room)
    case Unknown => false
  }

  predicate PlayerFits(p: Protocol, values: seq<Value>, room: int)
    requires IsPlayer(p, values)
  {
    && AllFit(PLAYER_SENT, values[..8], room) && p.userNameOk(values[USER_SENT].bytes)
    && AllFit(ShapeSent(p), values[8..], room - |EncodedAll(PLAYER_SENT, values[..8])|)
  }

  // ---- The client reads what the server writes ----

  // The client knows the kinds that are sent, and scans each with the format it is written
  // with.
  lemma KindsAgree(p: Protocol, kind: Byte)
    ensures KindSent(p, kind) == KindOf(p, kind)
  {
  }

  // A message is handled as just what it was, with all its bytes and no others, exactly
  // when everything in it fits.
  lemma WrittenIsHandled(p: Protocol, msg: Message, room: int, rest: seq<Byte>)
    requires IsMessage(p, msg) && Written(p, msg, room).Some?
    ensures var s := Written(p, msg, room).value;
      s != [] && (ReceiveMessage(p, s + rest) == Handled(|s|, msg) <==> MessageFits(p, msg, room))
  {
    var s := Written(p, msg, room).value;
    KindsAgree(p, msg.kind);
    match KindOf(p, msg.kind)
    case Plain(fmt) =>
      KindIsFirst(fmt, msg.values, room, msg.kind);
      PlainIsHandled(fmt, msg, room, rest);
    case Motd =>
      KindIsFirst(MOTD_SENT, msg.values[..4], room, msg.kind);
      MotdIsHandled(msg, room, rest);
    case Player =>
      KindIsFirst(PLAYER_SENT, msg.values[..8], room, msg.kind);
      PlayerIsHandled(p, msg, room, rest);
  }

  lemma KindIsFirst(fmt: seq<Item>, values: seq<Value>, room: int, kind: Byte)
    requires TypesFit(fmt, values) && Print(fmt, values, room).Some?
    requires fmt != [] && fmt[0].Char? && values[0] == Number(kind)
    ensures var s := Print(fmt, values, room).value; s != [] && s[0] == kind
  {
  }

  lemma PlainIsHandled(fmt: seq<Item>, msg: Message, room: int, rest: seq<Byte>)
    requires TypesFit(fmt, msg.values) && Print(fmt, msg.values, room).Some?
    ensures var s := Print(fmt, msg.values, room).value;
      Receive(msg.kind, fmt, s + rest) == Handled(|s|, msg) <==> AllFit(fmt, msg.values, room)
  {
    PrintedIsScanned(fmt, msg.values, room, rest);
  }

  lemma MotdIsHandled(msg: Message, room: int, rest: seq<Byte>)
    requires msg.kind == PKT_MOTD && IsMotd(msg.values) && WrittenMotd(msg.values, room).Some?
    ensures var s := WrittenMotd(msg.values, room).value;
      ReceiveMotd(s + rest) == Handled(|s|, msg) <==> AllFit(MOTD_SENT, msg.values[..4], room)
  {
    var header, bytes := Print(MOTD_SENT, msg.values[..4], room).value, msg.values[4].bytes;
    PrintedIsScanned(MOTD_SENT, msg.values[..4], room, bytes + rest);
    Associated(header, bytes, rest);
    HeaderThenBytes(msg, header, bytes, rest);
  }

  lemma HeaderThenBytes(msg: Message, header: seq<Byte>, bytes: seq<Byte>, rest: seq<Byte>)
    requires msg.kind == PKT_MOTD && IsMotd(msg.values) && msg.values[4].bytes == bytes
    ensures ReceiveMotd(header + (bytes + rest)) == Handled(|header + bytes|, msg) <==>
      ScanFormat(MOTD_HEADER, header + (bytes + rest)) == Complete(|header|, msg.values[..4])
  {
    var s := header + (bytes + rest);
    assert s[|header|..|header| + |bytes|] == bytes;
    assert msg.values == msg.values[..4] + [Text(bytes)];
    var r := ScanFormat(MOTD_HEADER, s);
    if r.Complete? {
      assert |r.values| == 4;
      assert forall t: Value :: (r.values + [t])[..4] == r.values;
    }
  }

  lemma PlayerIsHandled(p: Protocol, msg: Message, room: int, rest: seq<Byte>)
    requires msg.kind == PKT_PLAYER && IsPlayer(p, msg.values) && WrittenPlayer(p, msg.values, room).Some?
    ensures var s := WrittenPlayer(p, msg.values, room).value;
      ReceivePlayer(p, s + rest) == Handled(|s|, msg) <==> PlayerFits(p, msg.values, room)
  {
    var first := Print(PLAYER_SENT, msg.values[..8], room).value;
    var second := Print(ShapeSent(p), msg.values[8..], room - |first|).value;
    Associated(first, second, rest);
    TwoScans(p, msg, first, second, rest);
    if AllFit(PLAYER_SENT, msg.values[..8], room) {
      FittingReadsBack(PLAYER_SENT, msg.values[..8], room, second + rest);
      PrintedIsEncoded(PLAYER_SENT, msg.values[..8], room);
      PrintedIsScanned(ShapeSent(p), msg.values[8..], room - |first|, rest);
    } else if ReadsValues(PLAYER_SENT, msg.values[..8], first, second + rest) {
      ReadOn(PLAYER_SENT, msg.values[..8], room, first, second + rest);
      PrintedIsWithin(ShapeSent(p), msg.values[8..], 0);
    }
  }

  // A player is handled when both parts are read with their values, the first one not
  // beyond its end unless there is no second.
  lemma TwoScans(p: Protocol, msg: Message, first: seq<Byte>, second: seq<Byte>, rest: seq<Byte>)
    requires msg.kind == PKT_PLAYER && IsPlayer(p, msg.values)
    ensures var s := first + (second + rest);
      && (ReceivePlayer(p, s) == Handled(|first + second|, msg) ==>
            ReadsValues(PLAYER_SENT, msg.values[..8], first, second + rest)
            && ScanFormat(PLAYER_SENT, s).used < |first + second|)
      && (ReadsBack(PLAYER_SENT, msg.values[..8], first, second + rest) ==>
            (ReceivePlayer(p, s) == Handled(|first + second|, msg) <==>
               p.userNameOk(msg.values[USER_SENT].bytes) && ReadsBack(ShapeSent(p), msg.values[8..], second, rest)))
  {
    var s := first + (second + rest);
    var r := ScanFormat(PLAYER_FIRST, s);
    assert s[|first|..] == second + rest;
    assert msg.values == msg.values[..8] + msg.values[8..];
    if r.Complete? {
      assert |r.values| == 8;
      var r2 := ScanFormat(PlayerSecond(p), s[r.used..]);
      if r2.Complete? {
        SplitAt8(r.values, r2.values, msg.values);
      }
    }
  }

  lemma SplitAt8(a: seq<Value>, b: seq<Value>, values: seq<Value>)
    requires |a| == 8 && |values| >= 8
    ensures a + b == values <==> a == values[..8] && b == values[8..]
  {
    assert (a + b)[..8] == a && (a + b)[8..] == b;
    assert values[..8] + values[8..] == values;
  }

  // ---- Whole streams ----

  // The message has been written into some room in which it fits, as the first bytes.
  ghost predicate IsFirst(p: Protocol, msg: Message, s: seq<Byte>, room: int, n: nat) {
    && IsMessage(p, msg) && MessageFits(p, msg, room) && n <= |s| && Written(p, msg, room) == Some(s[..n])
  }

  // The messages have been written one after the other.
  ghost predicate IsSent(p: Protocol, msgs: seq<Message>, s: seq<Byte>)
    decreases |msgs|
  {
    if msgs == [] then s == []
    else exists room, n: nat :: IsFirst(p, msgs[0], s, room, n) && IsSent(p, msgs[1..], s[n..])
  }

  // The loop of the client handles just these messages and uses up all the bytes.
  lemma {:induction false} SentAreHandled(p: Protocol, msgs: seq<Message>, s: seq<Byte>)
    requires IsSent(p, msgs, s)
    ensures HandleAll(p, s) == Handling(msgs, |s|, Waiting)
    decreases |msgs|
  {
    if msgs != [] {
      var room, n: nat :| IsFirst(p, msgs[0], s, room, n) && IsSent(p, msgs[1..], s[n..]);
      SentAreHandled(p, msgs[1..], s[n..]);
      FirstIsHandled(p, msgs[0], msgs[1..], s, room, n);
      assert [msgs[0]] + msgs[1..] == msgs;
    }
  }

  lemma FirstIsHandled(p: Protocol, msg: Message, others: seq<Message>, s: seq<Byte>, room: int, n: nat)
    requires IsFirst(p, msg, s, room, n) && HandleAll(p, s[n..]) == Handling(others, |s[n..]|, Waiting)
    ensures HandleAll(p, s) == Handling([msg] + others, |s|, Waiting)
  {
    FirstIsReceived(p, msg, s, room, n);
    HandleFirst(p, s, n, msg);
  }

  lemma FirstIsReceived(p: Protocol, msg: Message, s: seq<Byte>, room: int, n: nat)
    requires IsFirst(p, msg, s, room, n)
    ensures 0 < n && s != [] && ReceiveMessage(p, s) == Handled(n, msg)
  {
    WrittenIsHandled(p, msg, room, s[n..]);
    assert s[..n] + s[n..] == s;
  }

  lemma HandleFirst(p: Protocol, s: seq<Byte>, n: nat, msg: Message)
    requires s != [] && 0 < n <= |s| && ReceiveMessage(p, s) == Handled(n, msg)
    ensures var rest := HandleAll(p, s[n..]); HandleAll(p, s) == Handling([msg] + rest.msgs, n + rest.used, rest.end)
  {
  }

  // ---- A text at the end of the room ----

  const CUT_TEXT := Message(PKT_MESSAGE, [Number(5), Text([97, 98])])
  const CUT_BYTES: seq<Byte> := [5, 97, 98]
  const TALK_ACK: seq<Byte> := [52, 0, 0, 0, 1]

  lemma TextIsCutOff(p: Protocol)
    ensures IsMessage(p, CUT_TEXT) && Written(p, CUT_TEXT, 3) == Some(CUT_BYTES)
  {
    var fmt, values := [Char, BigString], CUT_TEXT.values;
    assert SentFormat(p, PKT_MESSAGE) == Some(fmt);
    assert fmt[1..] == [BigString] && values[1..] == [Text([97, 98])] && fmt[1..][1..] == [];
    CutPrint(fmt, values, [97, 98]);
    assert [5] + [97, 98] == CUT_BYTES;
  }

  lemma CutPrint(fmt: seq<Item>, values: seq<Value>, bytes: seq<Byte>)
    requires |fmt| == 2 && fmt[0] == Char && fmt[1..] == [BigString] && |bytes| == 2 && 0 !in bytes
    requires |values| == 2 && values[0] == Number(5) && values[1..] == [Text(bytes)]
    ensures TypesFit(fmt, values) && Print(fmt, values, 3) == Some([5] + bytes)
  {
    assert fmt[1] == fmt[1..][0] && values[1] == values[1..][0];
    assert (bytes + [0])[..2] == bytes;
    assert PrintItem(BigString, Text(bytes), 2) == Some(bytes);
    assert [BigString][1..] == [] && bytes + [] == bytes;
    assert Print(fmt[1..], values[1..], 2) == Some(bytes);
    assert PrintItem(fmt[0], values[0], 3) == Some([5]);
  }

  // A text that is written where the room ends can lose its NUL byte. The message behind it,
  // here the acknowledgement of some talk, is then read as part of the text.
  lemma CutTextIsReadOn(p: Protocol)
    ensures IsMessage(p, CUT_TEXT) && Written(p, CUT_TEXT, 3) == Some(CUT_BYTES)
    ensures ReceiveMessage(p, CUT_BYTES + TALK_ACK) == Handled(5, Message(PKT_MESSAGE, [Number(5), Text([97, 98, 52])]))
  {
    TextIsCutOff(p);
    TextIsRead([Char, BigString], CUT_BYTES + TALK_ACK, [97, 98, 52], [0, 0, 1]);
    assert KindOf(p, PKT_MESSAGE) == Plain([Char, BigString]);
  }

  lemma TextIsRead(fmt: seq<Item>, s: seq<Byte>, bytes: seq<Byte>, rest: seq<Byte>)
    requires |fmt| == 2 && fmt[0] == Char && fmt[1] == BigString
    requires 0 !in bytes && |bytes| < MSG_LEN && s == [5] + (bytes + [0] + rest)
    ensures ScanFormat(fmt, s) == Complete(|bytes| + 2, [Number(5), Text(bytes)])
  {
    StringIsFound(bytes, rest, MSG_LEN);
    assert fmt[1..][1..] == [];
    assert s[1..] == bytes + [0] + rest && s[..1] == [5];
    ScannedFirst(fmt, Number(5), 1, s);
    ScannedFirst(fmt[1..], Text(bytes), |bytes| + 1, s[1..]);
    assert [Text(bytes)] + [] == [Text(bytes)];
  }
}
