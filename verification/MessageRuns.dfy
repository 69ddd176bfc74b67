/** Whole runs of the two ends in which the client handles messages with the loop of
    netclient.c: the messages handled are those of the stream that was written. */
module MessageRuns {
  import opened Bytes
  import opened Sockets
  import opened ReliableStream
  import opened ReliableMessages
  import opened NetClients
  import ServerMessages

  // The network, the messages handled so far, and how the last loop over them ended.
  datatype Session = Session(net: System, handled: seq<Message>, end: End)

  datatype Deed =
    | Net(event: Event)
    | HandleUnread

  ghost predicate Allowed(p: Protocol, s: Session, d: Deed)
    requires s.net.client.cbuf.Valid()
  {
    && s.end.Waiting?
    && match d
       case Net(event) => !event.Handle? && Enabled(s.net, event)
       case HandleUnread => !MeetsNegativeMotd(p, s.net.client.cbuf.Unread())
  }

  function Do(p: Protocol, s: Session, d: Deed): Session
    requires s.net.client.cbuf.Valid() && Allowed(p, s, d)
  {
    match d
    case Net(event) => s.(net := Step(s.net, event))
    case HandleUnread =>
      var c := s.net.client;
      var h := HandleAll(p, c.cbuf.Unread());
      Session(Step(s.net, Handle(c.cbuf.ptr + h.used)), s.handled + h.msgs, h.end)
  }

  ghost predicate Runs(p: Protocol, s: Session, deeds: seq<Deed>, t: Session)
    decreases |deeds|
  {
    && s.net.client.cbuf.Valid()
    && if deeds == [] then s == t
       else Allowed(p, s, deeds[0]) && Runs(p, Do(p, s, deeds[0]), deeds[1..], t)
  }

  // When messages were last handled, the first `seen` bytes of the stream had arrived.
  ghost predicate Sound(p: Protocol, s: Session, seen: nat) {
    && Inv(s.net) && seen <= s.net.client.offset
    && HandleAll(p, s.net.written[..seen]) ==
       Handling(s.handled, s.net.client.base + s.net.client.cbuf.ptr, s.end)
  }

  function Begin(size: nat): Session { Session(Start(size), [], Waiting) }

  lemma BeginIsSound(p: Protocol, size: nat)
    ensures Sound(p, Begin(size), 0)
  {
    StartInv(size);
  }

  lemma NetIsSound(p: Protocol, s: Session, event: Event, seen: nat)
    requires Sound(p, s, seen) && Allowed(p, s, Net(event))
    ensures Sound(p, Do(p, s, Net(event)), seen)
  {
    StepKeepsInv(s.net, event);
    StepsGoForward(s.net, event);
    assert Step(s.net, event).written[..seen] == s.net.written[..seen];
    if event.Deliver? {
      AbsorbKeepsPlace(s.net.client, event.packet);
    }
  }

  lemma HandlingIsSound(p: Protocol, s: Session, seen: nat)
    requires Sound(p, s, seen) && Allowed(p, s, HandleUnread)
    ensures Sound(p, Do(p, s, HandleUnread), s.net.client.offset)
  {
    var c := s.net.client;
    var stream := s.net.written[..c.offset];
    NarrowSync(s.net.written, c);
    assert stream[..seen] == s.net.written[..seen];
    ReceivedInTwo(p, stream, seen, c);
    StepKeepsInv(s.net, Handle(c.cbuf.ptr + HandleAll(p, c.cbuf.Unread()).used));
  }

  lemma {:induction false} RunsAreSound(p: Protocol, s: Session, deeds: seq<Deed>, t: Session, seen: nat)
    returns (last: nat)
    requires Sound(p, s, seen) && Runs(p, s, deeds, t)
    ensures Sound(p, t, last)
    decreases |deeds|
  {
    if deeds == [] {
      last := seen;
    } else if deeds[0].Net? {
      NetIsSound(p, s, deeds[0].event, seen);
      last := RunsAreSound(p, Do(p, s, deeds[0]), deeds[1..], t, seen);
    } else {
      HandlingIsSound(p, s, seen);
      last := RunsAreSound(p, Do(p, s, deeds[0]), deeds[1..], t, s.net.client.offset);
    }
  }

  lemma SoundIsPrefix(p: Protocol, s: Session, seen: nat)
    requires Sound(p, s, seen)
    ensures s.handled <= HandleAll(p, s.net.written).msgs
    ensures s.end.Ended? ==> HandleAll(p, s.net.written) == HandleAll(p, s.net.written[..seen])
  {
    var first, rest := s.net.written[..seen], s.net.written[seen..];
    HandledInTwo(p, s.net.written, first, rest, Left(p, first) + rest);
  }

  // In every run the messages handled are the first messages of the stream that the
  // server has written, in order and each once.
  lemma HandledAreWritten(p: Protocol, size: nat, deeds: seq<Deed>, t: Session)
    requires Runs(p, Begin(size), deeds, t)
    ensures t.handled <= HandleAll(p, t.net.written).msgs
    ensures t.end.Ended? ==> t.handled == HandleAll(p, t.net.written).msgs
  {
    BeginIsSound(p, size);
    var seen := RunsAreSound(p, Begin(size), deeds, t, 0);
    SoundIsPrefix(p, t, seen);
  }

  // ---- Progress ----

  function Nets(events: seq<Event>): seq<Deed>
    decreases |events|
  {
    if events == [] then [] else [Net(events[0])] + Nets(events[1..])
  }

  ghost predicate NoHandling(events: seq<Event>) { forall k :: 0 <= k < |events| ==> !events[k].Handle? }

  lemma {:induction false} ResendingHandlesNothing(written: seq<Byte>, from: int, ends: seq<int>)
    requires 0 <= from && Cut(from, ends, |written|)
    ensures NoHandling(Resending(written, from, ends))
    decreases |ends|
  {
    if ends != [] {
      CutIsInside(from, ends, |written|);
      ResendingHandlesNothing(written, ends[0], ends[1..]);
    }
  }

  // What the network does, and then one more deed.
  lemma {:induction false} NetThenOne(p: Protocol, s: Session, events: seq<Event>, net: System, d: Deed)
    requires s.end.Waiting? && NoHandling(events) && LeadsTo(s.net, events, net) && net.client.cbuf.Valid()
    requires Allowed(p, s.(net := net), d) && Do(p, s.(net := net), d).net.client.cbuf.Valid()
    ensures Runs(p, s, Nets(events) + [d], Do(p, s.(net := net), d))
    decreases |events|
  {
    var t := Do(p, s.(net := net), d);
    if events == [] {
      assert Runs(p, t, [], t);
      assert [d][1..] == [];
    } else {
      var next := s.(net := Step(s.net, events[0]));
      NetThenOne(p, next, events[1..], net, d);
      assert (Nets(events) + [d])[1..] == Nets(events[1..]) + [d];
    }
  }

  // From every reachable state, when all unacknowledged data are sent once more and
  // delivered, in any slices, the next loop handles every message of the stream
  // that is complete.
  lemma AllGetHandled(p: Protocol, s: Session, seen: nat, ends: seq<int>) returns (t: Session)
    requires Sound(p, s, seen) && s.end.Waiting? && !MeetsNegativeMotd(p, s.net.written)
    requires Fits(s.net) && s.net.acked < |s.net.written| && Cut(s.net.acked, ends, |s.net.written|)
    ensures Runs(p, s, Nets(Resending(s.net.written, s.net.acked, ends)) + [HandleUnread], t)
    ensures t.net.written == s.net.written && t.handled == HandleAll(p, s.net.written).msgs
  {
    var net := SlicesCatchUp(s.net, s.net.acked, ends);
    var arrived := s.(net := net);
    var stream := s.net.written;
    ReceivedInTwo(p, stream, seen, net.client);
    StuckAtNegativeMotd(p, stream);
    StuckAtNegativeMotd(p, net.client.cbuf.Unread());
    HandlingIsSound(p, arrived, seen);
    t := Do(p, arrived, HandleUnread);
    assert stream[..|stream|] == stream;
    ResendingHandlesNothing(stream, s.net.acked, ends);
    NetThenOne(p, s, Resending(stream, s.net.acked, ends), net, HandleUnread);
  }

  // So every run that has not ended can go on until every complete message of the stream
  // has been handled, if the data fit.
  lemma AllCanGetHandled(p: Protocol, size: nat, deeds: seq<Deed>, s: Session) returns (more: seq<Deed>, t: Session)
    requires Runs(p, Begin(size), deeds, s) && s.end.Waiting? && !MeetsNegativeMotd(p, s.net.written)
    requires Fits(s.net) && s.net.acked < |s.net.written|
    ensures Runs(p, s, more, t) && t.net.written == s.net.written
    ensures t.handled == HandleAll(p, s.net.written).msgs
  {
    BeginIsSound(p, size);
    var seen := RunsAreSound(p, Begin(size), deeds, s, 0);
    var ends := CanBeCut(s.net.acked, |s.net.written|);
    t := AllGetHandled(p, s, seen, ends);
    more := Nets(Resending(s.net.written, s.net.acked, ends)) + [HandleUnread];
  }

  // ---- From message to message ----

  // When the stream has been written message by message, the client has at any time handled
  // the first of just these messages, and it never ends the connection.
  lemma HandledAreSent(p: Protocol, size: nat, deeds: seq<Deed>, t: Session, msgs: seq<Message>)
    requires Runs(p, Begin(size), deeds, t) && ServerMessages.IsSent(p, msgs, t.net.written)
    ensures t.handled <= msgs && t.end.Waiting?
  {
    BeginIsSound(p, size);
    var seen := RunsAreSound(p, Begin(size), deeds, t, 0);
    SoundIsPrefix(p, t, seen);
    ServerMessages.SentAreHandled(p, msgs, t.net.written);
    var first, rest := t.net.written[..seen], t.net.written[seen..];
    HandledInTwo(p, t.net.written, first, rest, Left(p, first) + rest);
  }

  // And the run can go on until all of them have been handled.
  lemma SentGetHandled(p: Protocol, size: nat, deeds: seq<Deed>, s: Session, msgs: seq<Message>)
    returns (more: seq<Deed>, t: Session)
    requires Runs(p, Begin(size), deeds, s) && ServerMessages.IsSent(p, msgs, s.net.written)
    requires Fits(s.net) && s.net.acked < |s.net.written|
    ensures Runs(p, s, more, t) && t.handled == msgs && t.net.written == s.net.written
  {
    HandledAreSent(p, size, deeds, s, msgs);
    ServerMessages.SentAreHandled(p, msgs, s.net.written);
    StuckAtNegativeMotd(p, s.net.written);
    more, t := AllCanGetHandled(p, size, deeds, s);
  }
}
