/** The receive side of netclient.c: taking reliable data out of frame packets,
    acknowledging them, and handling the messages they carry. */
module NetClients {
  import opened Options
  import opened Bytes
  import opened PacketPrint
  import opened Sockets
  import opened ReliableMessages
  import opened ReliableStream

  const PKT_RELIABLE: Byte := 42
  const PKT_ACK: Byte := 43

  const RELIABLE_HEADER := [Char, Short, Long, Long]

  datatype Header = Header(len: int, rel: int, loops: int)

  // The header of a packet of reliable data, when all of it is there.
  function HeaderOf(s: seq<Byte>): Option<Header> {
    if |s| < 11 then None
    else Some(Header(GetShort(s[1..3]), GetLong(s[3..7]), GetLong(s[7..11])))
  }

  lemma HeaderScan(s: seq<Byte>)
    ensures HeaderOf(s).None? ==> ScanFormat(RELIABLE_HEADER, s).Incomplete?
    ensures HeaderOf(s).Some? ==>
      var h := HeaderOf(s).value;
      var r := ScanFormat(RELIABLE_HEADER, s);
      r.Complete? && r.used == 11 && r.values == [Number(s[0]), Number(h.len), Number(h.rel), Number(h.loops)]
  {
    HeaderTails();
    FixedScan(RELIABLE_HEADER, s);
    if |s| >= 11 {
      HeaderNumbers(s);
      assert ScanFormat(RELIABLE_HEADER, s).values == [Number(s[0])] + ScanFormat([Short, Long, Long], s[1..]).values;
    }
  }

  lemma HeaderTails()
    ensures RELIABLE_HEADER[1..] == [Short, Long, Long] && [Short, Long, Long][1..] == [Long, Long]
    ensures [Long, Long][1..] == [Long] && [Long][1..] == []
    ensures TotalWidth(RELIABLE_HEADER) == 11 && TotalWidth([Short, Long, Long]) == 10
    ensures TotalWidth([Long, Long]) == 8 && TotalWidth([Long]) == 4
  {
  }

  lemma HeaderNumbers(s: seq<Byte>)
    requires |s| >= 11
    ensures ScanFormat([Short, Long, Long], s[1..]).Complete?
    ensures ScanFormat([Short, Long, Long], s[1..]).values ==
      [Number(GetShort(s[1..3])), Number(GetLong(s[3..7])), Number(GetLong(s[7..11]))]
  {
    HeaderTails();
    var a := s[1..];
    var b := a[2..];
    FixedScan([Short, Long, Long], a);
    FixedScan([Long, Long], b);
    FixedScan([Long], b[4..]);
    assert a[..2] == s[1..3] && b[..4] == s[3..7] && b[4..][..4] == s[7..11];
    assert ScanFormat([Long], b[4..]).values == [Number(GetLong(s[7..11]))];
    assert ScanFormat([Long, Long], b).values == [Number(GetLong(s[3..7])), Number(GetLong(s[7..11]))];
  }

  // The bytes that the server sends for a slice of the stream.
  function Wire(p: Packet, loops: int): seq<Byte> {
    [PKT_RELIABLE] + PutShort(|p.payload|) + PutLong(p.rel) + PutLong(loops) + p.payload
  }

  // The client reads the position of a slice back exactly when it fits a signed
  // 32-bit number.
  lemma WireHeader(p: Packet, loops: int, rest: seq<Byte>)
    requires |p.payload| < 0x8000 && -0x8000_0000 <= loops < 0x8000_0000
    ensures var s := Wire(p, loops) + rest;
      && HeaderOf(s).Some? && HeaderOf(s).value.len == |p.payload| && HeaderOf(s).value.loops == loops
      && s[11..11 + |p.payload|] == p.payload
      && (HeaderOf(s).value.rel == p.rel <==> -0x8000_0000 <= p.rel < 0x8000_0000)
  {
    var s := Wire(p, loops) + rest;
    ShortRoundTrip(|p.payload|);
    LongRoundTrip(p.rel);
    LongRoundTrip(loops);
    assert s[1..3] == PutShort(|p.payload|) && s[3..7] == PutLong(p.rel) && s[7..11] == PutLong(loops);
  }

  function AckBytes(offset: int, loops: int): seq<Byte> {
    [PKT_ACK] + PutLong(offset) + PutLong(loops)
  }

  // An acknowledgement is written if it leaves the spare room of the buffer free.
  function Acked(wbuf: Sockbuf, offset: int, loops: int): Sockbuf {
    if |wbuf.data| + 9 >= wbuf.size - SOCKBUF_WRITE_SPARE then wbuf
    else wbuf.(data := wbuf.data + AckBytes(offset, loops))
  }

  // The acknowledgement is what Packet_printf writes for these three arguments, and the
  // server's scan of it gives them back when they fit 32 bits.
  lemma AckIsRead(wbuf: Sockbuf, offset: int, loops: int, rest: seq<Byte>)
    ensures var values := [Number(PKT_ACK), Number(offset), Number(loops)];
      && TypesFit(ACK_READ, values) && Acked(wbuf, offset, loops) == PrintTo(wbuf, ACK_READ, values)
      && (ReadsBack(ACK_READ, values, AckBytes(offset, loops), rest) <==>
            -0x8000_0000 <= offset < 0x8000_0000 && -0x8000_0000 <= loops < 0x8000_0000)
  {
    var values := [Number(PKT_ACK), Number(offset), Number(loops)];
    assert ACK_READ[1..] == [Long, Long] && values[1..] == [Number(offset), Number(loops)];
    CharTwoLongs(ACK_READ, values, PKT_ACK, offset, loops, Room(wbuf));
    CharTwoLongs(ACK_READ, values, PKT_ACK, offset, loops, 10);
    Associated([PKT_ACK], PutLong(offset), PutLong(loops));
    PrintedIsScanned(ACK_READ, values, 10, rest);
  }

  // The format of the server's scan.
  const ACK_READ := [Char, Long, Long]

  // The buffer after a packet that ends at `end` has been taken out of it.
  function Taken(rbuf: Sockbuf, end: int): Sockbuf
    requires rbuf.Valid() && 0 <= end <= |rbuf.data|
  {
    rbuf.(ptr := end).Advance(end)
  }

  // The slice in a packet of reliable data, when header and data are all there.
  function SliceOf(s: seq<Byte>): Option<Packet> {
    match HeaderOf(s)
    case None => None
    case Some(h) =>
      if h.len <= 0 || |s| < 11 + h.len then None else Some(Packet(h.rel, s[11..11 + h.len]))
  }

  // Behind a header with a proper length there is a slice if the buffer holds that much.
  lemma SliceIsThere(rbuf: Sockbuf, h: Header)
    requires rbuf.Valid() && HeaderOf(rbuf.Unread()) == Some(h) && h.len > 0
    ensures var start := rbuf.ptr + 11;
      SliceOf(rbuf.Unread()) ==
        if start + h.len > |rbuf.data| then None else Some(Packet(h.rel, rbuf.data[start..start + h.len]))
  {
    var start := rbuf.ptr + 11;
    assert start + h.len <= |rbuf.data| ==> rbuf.Unread()[11..11 + h.len] == rbuf.data[start..start + h.len];
  }

  lemma WiderSync(stream: seq<Byte>, written: seq<Byte>, c: Client)
    requires InSync(stream, c) && stream <= written
    ensures InSync(written, c)
  {
    assert stream[c.base..c.offset] == written[c.base..c.offset];
  }

  lemma NarrowSync(written: seq<Byte>, c: Client)
    requires InSync(written, c)
    ensures InSync(written[..c.offset], c)
  {
    assert written[..c.offset][c.base..c.offset] == written[c.base..c.offset];
  }

  // Appending to the control buffer does not move the place up to which messages
  // have been handled.
  lemma AbsorbKeepsPlace(c: Client, p: Packet)
    requires c.cbuf.Valid()
    ensures var d := Absorb(c, p.rel, p.payload); d.base + d.cbuf.ptr == c.base + c.cbuf.ptr
  {
  }

  // With the first k bytes handled, what is left of the part seen before and what
  // came after it is unread.
  lemma UnreadIsLeft(stream: seq<Byte>, seen: nat, k: nat, c: Client)
    requires InSync(stream, c) && c.offset == |stream| && k <= seen <= |stream| && k == c.base + c.cbuf.ptr
    ensures c.cbuf.Unread() == stream[..seen][k..] + stream[seen..]
  {
    assert c.cbuf.Unread() == stream[k..];
    assert stream[..seen][k..] == stream[k..seen];
    Consecutive(stream, k, seen, |stream|);
    assert stream[k..|stream|] == stream[k..] && stream[seen..|stream|] == stream[seen..];
  }

  // The messages of the whole stream are those of the part seen before, followed
  // by those of the bytes not handled yet.
  lemma ReceivedInTwo(p: Protocol, stream: seq<Byte>, seen: nat, c: Client)
    requires InSync(stream, c) && c.offset == |stream| && seen <= |stream|
    requires HandleAll(p, stream[..seen]).end.Waiting?
    requires HandleAll(p, stream[..seen]).used == c.base + c.cbuf.ptr
    ensures HandleAll(p, stream) == Joined(HandleAll(p, stream[..seen]), HandleAll(p, c.cbuf.Unread()))
  {
    UnreadIsLeft(stream, seen, c.base + c.cbuf.ptr, c);
    HandledInTwo(p, stream, stream[..seen], stream[seen..], c.cbuf.Unread());
  }

  // Of the bytes that give all, the first n have given done, and s is left.
  ghost predicate SoFar(p: Protocol, all: Handling, done: seq<Message>, n: nat, s: seq<Byte>) {
    all == Joined(Handling(done, n, Waiting), HandleAll(p, s))
  }

  lemma NothingYet(p: Protocol, s: seq<Byte>)
    ensures SoFar(p, HandleAll(p, s), [], 0, s)
  {
    assert [] + HandleAll(p, s).msgs == HandleAll(p, s).msgs;
  }

  lemma NoMore(p: Protocol, all: Handling, done: seq<Message>, n: nat)
    requires SoFar(p, all, done, n, [])
    ensures all == Handling(done, n, Waiting)
  {
    assert done + [] == done;
  }

  // One turn of the loop.
  lemma OneMore(p: Protocol, all: Handling, done: seq<Message>, n: nat, s: seq<Byte>)
    requires s != [] && SoFar(p, all, done, n, s) && !all.end.Stuck?
    ensures var r := ReceiveMessage(p, s);
      if r.Handled? then 0 < r.used <= |s| && SoFar(p, all, done + [r.msg], n + r.used, s[r.used..])
      else all == Handling(done, n, if r.Wait? then Waiting else Ended)
  {
    var r := ReceiveMessage(p, s);
    if r.Handled? {
      UsedFits(p, s);
      var rest := HandleAll(p, s[r.used..]);
      assert done + [r.msg] + rest.msgs == done + ([r.msg] + rest.msgs);
    } else {
      assert done + [] == done;
    }
  }

  class NetClient {
    const protocol: Protocol
    var rbuf: Sockbuf
    var cbuf: Sockbuf
    var wbuf: Sockbuf
    var reliableOffset: int
    // The messages handled, in order.
    var handled: seq<Message>
    // The stream received so far, how many of its bytes have left cbuf, and how
    // much of it had arrived when messages were last handled.
    ghost var stream: seq<Byte>
    ghost var base: int
    ghost var seen: int

    ghost function End(): Client
      reads this
    {
      Client(cbuf, base, reliableOffset)
    }

    // The client is in step with the stream, and has handled the messages of the
    // part of it that it has seen.
    ghost predicate Valid()
      reads this
    {
      && rbuf.Valid() && InSync(stream, End()) && reliableOffset == |stream|
      && 0 <= seen <= |stream|
      && HandleAll(protocol, stream[..seen]) == Handling(handled, base + cbuf.ptr, Waiting)
    }

    constructor (protocol: Protocol, rbuf: Sockbuf, size: nat, sendSize: nat)
      requires rbuf.Valid()
      ensures Valid() && stream == [] && handled == [] && this.protocol == protocol
    {
      this.protocol, this.rbuf := protocol, rbuf;
      cbuf, wbuf := Sockbuf([], 0, size), Sockbuf([], 0, sendSize);
      reliableOffset, handled := 0, [];
      stream, base, seen := [], 0, 0;
    }

    // Acknowledge the reliable data received so far.
    method SendAck(relLoops: int) returns (n: int)
      modifies this`wbuf
      ensures wbuf == Acked(old(wbuf), reliableOffset, relLoops)
      ensures n == if wbuf == old(wbuf) then 0 else 1
    {
      if |wbuf.data| + 9 >= wbuf.size - SOCKBUF_WRITE_SPARE {
        return 0;
      }
      wbuf := wbuf.(data := wbuf.data + AckBytes(reliableOffset, relLoops));
      assert |wbuf.data| != |old(wbuf).data|;
      return 1;
    }

    // Skip to the end of the current packet in the read buffer.
    method SkipTo(end: int)
      requires rbuf.Valid() && 0 <= end <= |rbuf.data|
      modifies this`rbuf
      ensures rbuf == Taken(old(rbuf), end)
    {
      rbuf := rbuf.(ptr := end);
      rbuf := rbuf.Advance(rbuf.ptr);
    }

    // Copy the part of a slice that is new to the control buffer.
    method Append(rel: int, ghost payload: seq<Byte>, news: seq<Byte>) returns (ok: bool)
      requires cbuf.Valid() && rel <= reliableOffset < rel + |payload|
      requires news == payload[reliableOffset - rel..]
      modifies this`cbuf, this`reliableOffset, this`base
      ensures End() == Absorb(old(End()), rel, payload)
      ensures ok <==> reliableOffset > old(reliableOffset)
      ensures !ok ==> reliableOffset == old(reliableOffset)
    {
      base := base + cbuf.ptr;
      if cbuf.ptr > 0 {
        cbuf := cbuf.Advance(cbuf.ptr);
      }
      if cbuf.size - |cbuf.data| < |news| {
        return false;
      }
      cbuf := cbuf.Write(news);
      reliableOffset := reliableOffset + |news|;
      return true;
    }

    // Deal with a slice of len bytes at the read position.
    method TakeSlice(len0: int, rel: int, relLoops: int, ghost payload: seq<Byte>) returns (result: int)
      requires rbuf.Valid() && cbuf.Valid() && 0 < len0 && rbuf.ptr + len0 <= |rbuf.data|
      requires payload == rbuf.data[rbuf.ptr..rbuf.ptr + len0]
      modifies this`rbuf, this`cbuf, this`wbuf, this`reliableOffset, this`base
      ensures End() == Absorb(old(End()), rel, payload)
      ensures rbuf == Taken(old(rbuf), old(rbuf.ptr) + len0)
      ensures result == 1 ==> wbuf == Acked(old(wbuf), reliableOffset, relLoops)
      ensures result == 1 || (result == -1 && reliableOffset == old(reliableOffset) && wbuf == old(wbuf))
    {
      var len, start, end := len0, rbuf.ptr, rbuf.ptr + len0;
      if rel > reliableOffset || rel + len <= reliableOffset {
        SkipTo(end);
        var n := SendAck(relLoops);
        return 1;
      }
      if rel < reliableOffset {
        len := len - (reliableOffset - rel);
        start := start + (reliableOffset - rel);
      }
      var news := rbuf.data[start..start + len];
      assert news == payload[reliableOffset - rel..];
      var ok := Append(rel, payload, news);
      SkipTo(end);
      if !ok {
        return -1;
      }
      var n := SendAck(relLoops);
      return 1;
    }

    // Take a slice of the stream out of the read buffer.
    method ReceiveReliable() returns (result: int)
      requires rbuf.Valid() && cbuf.Valid()
      modifies this`rbuf, this`cbuf, this`wbuf, this`reliableOffset, this`base
      ensures var slice := SliceOf(old(rbuf.Unread()));
        if slice.None? then End() == old(End()) && wbuf == old(wbuf) && result <= 0
        else
          && End() == Absorb(old(End()), slice.value.rel, slice.value.payload)
          && rbuf == Taken(old(rbuf), old(rbuf.ptr) + 11 + |slice.value.payload|)
          && (result == 1 ==> wbuf == Acked(old(wbuf), reliableOffset, HeaderOf(old(rbuf.Unread())).value.loops))
          && (result == 1 || (result == -1 && reliableOffset == old(reliableOffset) && wbuf == old(wbuf)))
      ensures rbuf.Valid()
    {
      var unread := rbuf.Unread();
      HeaderScan(unread);
      var scan := ScanFormat(RELIABLE_HEADER, unread);
      if scan.Failed? {
        return -1;
      }
      if scan.Incomplete? {
        return 0;
      }
      var len, rel, relLoops := scan.values[1].n, scan.values[2].n, scan.values[3].n;
      var start := rbuf.ptr + scan.used;
      if len <= 0 {
        rbuf := rbuf.(ptr := start);
        return -1;
      }
      SliceIsThere(rbuf, Header(len, rel, relLoops));
      ghost var slice := SliceOf(unread);
      if start + len > |rbuf.data| {
        rbuf := rbuf.Clear();
        return -1;
      }
      assert slice == Some(Packet(rel, rbuf.data[start..start + len])) && start == old(rbuf.ptr) + 11;
      rbuf := rbuf.(ptr := start);
      result := TakeSlice(len, rel, relLoops, slice.value.payload);
    }

    // A packet that carries a slice of the stream moves the client along it.
    method ReceiveHonest(ghost written: seq<Byte>) returns (result: int)
      requires Valid() && stream <= written
      requires SliceOf(rbuf.Unread()).Some? ==> Honest(written, SliceOf(rbuf.Unread()).value)
      modifies this
      ensures Valid() && old(stream) <= stream <= written && handled == old(handled)
      ensures result == 1 ==> SliceOf(old(rbuf.Unread())).Some?
    {
      ghost var before, slice := End(), SliceOf(rbuf.Unread());
      ghost var d := stream;
      WiderSync(stream, written, before);
      if slice.Some? {
        AbsorbKeepsSync(written, before, slice.value);
        AbsorbKeepsPlace(before, slice.value);
      }
      result := ReceiveReliable();
      NarrowSync(written, End());
      stream := written[..reliableOffset];
      assert stream[..seen] == d[..seen];
    }

    // Handle the messages that have arrived whole.  Whatever packets the stream
    // came in, the messages handled are those of the stream received so far.
    method HandleReliable() returns (result: int)
      requires Valid() && !MeetsNegativeMotd(protocol, cbuf.Unread())
      modifies this`cbuf, this`handled, this`seen
      ensures stream == old(stream) && handled == HandleAll(protocol, stream).msgs
      ensures result == if HandleAll(protocol, stream).end.Waiting? then 0 else -1
      ensures result == 0 ==> Valid() && seen == |stream|
    {
      StuckAtNegativeMotd(protocol, cbuf.Unread());
      ReceivedInTwo(protocol, stream, seen, End());
      result := HandleUnread();
      if result == 0 {
        seen := |stream|;
        assert stream[..seen] == stream;
      }
    }

    method HandleUnread() returns (result: int)
      requires cbuf.Valid() && !HandleAll(protocol, cbuf.Unread()).end.Stuck?
      modifies this`cbuf, this`handled
      ensures cbuf.Valid() && cbuf == old(cbuf).(ptr := old(cbuf.ptr) + HandleAll(protocol, old(cbuf.Unread())).used)
      ensures handled == old(handled) + HandleAll(protocol, old(cbuf.Unread())).msgs
      ensures result == if HandleAll(protocol, old(cbuf.Unread())).end.Waiting? then 0 else -1
    {
      NothingYet(protocol, cbuf.Unread());
      result := HandleEach(HandleAll(protocol, cbuf.Unread()));
    }

    // The loop over the unread messages, which are all there is to handle.
    method HandleEach(ghost all: Handling) returns (result: int)
      requires cbuf.Valid() && SoFar(protocol, all, [], 0, cbuf.Unread()) && !all.end.Stuck?
      modifies this`cbuf, this`handled
      ensures cbuf.Valid() && cbuf == old(cbuf).(ptr := old(cbuf.ptr) + all.used)
      ensures handled == old(handled) + all.msgs
      ensures result == if all.end.Waiting? then 0 else -1
    {
      ghost var done, n := [], 0;
      while cbuf.ptr < |cbuf.data|
        invariant cbuf.Valid() && cbuf == old(cbuf).(ptr := old(cbuf.ptr) + n)
        invariant handled == old(handled) + done
        invariant SoFar(protocol, all, done, n, cbuf.Unread())
        decreases |cbuf.data| - cbuf.ptr
      {
        ghost var unread := cbuf.Unread();
        OneMore(protocol, all, done, n, unread);
        match ReceiveMessage(protocol, cbuf.Unread()) {
          case Wait =>
            return 0;
          case Quit =>
            return -1;
          case Handled(used, msg) =>
            handled, done, n := handled + [msg], done + [msg], n + used;
            cbuf := cbuf.(ptr := cbuf.ptr + used);
            assert cbuf.Unread() == unread[used..];
        }
      }
      assert cbuf.Unread() == [];
      NoMore(protocol, all, done, n);
      return 0;
    }
  }
}
