/** The reliable byte stream between server and client over a network that may
    lose, repeat and reorder packets and acknowledgements. */
module ReliableStream {
  import opened Bytes
  import opened Sockets

  // The client's end: cbuf holds the bytes of the stream from `base` on that have
  // not been handled, and `offset` bytes have been received in all.
  datatype Client = Client(cbuf: Sockbuf, base: int, offset: int)

  // What the client takes from a slice of the stream that starts at rel: nothing
  // when the slice is ahead of or behind its position or does not fit.
  function Absorb(c: Client, rel: int, payload: seq<Byte>): Client
    requires c.cbuf.Valid()
  {
    if rel > c.offset || rel + |payload| <= c.offset then c
    else
      var news := payload[c.offset - rel..];
      var room := c.cbuf.Advance(c.cbuf.ptr);
      if room.size - |room.data| < |news| then Client(room, c.base + c.cbuf.ptr, c.offset)
      else Client(room.Write(news), c.base + c.cbuf.ptr, c.offset + |news|)
  }

  datatype Packet = Packet(rel: int, payload: seq<Byte>)

  // Stream positions are sent as signed 32-bit numbers.
  const STREAM_LIMIT := 0x7fff_ffff

  // The server sends no longer slices than this.
  const MAX_RELIABLE_DATA_PACKET_SIZE := 1024

  // The whole system: everything the server has written to the stream, how much
  // of it has been acknowledged, and all packets and acknowledgements ever sent.
  datatype System = System(written: seq<Byte>, acked: int, packets: set<Packet>, acks: set<int>, client: Client)

  datatype Event =
    | Write(bytes: seq<Byte>)
    | Send(rel: int, len: int)
    | Deliver(packet: Packet)
    | Handle(ptr: int)
    | ReceiveAck(ack: int)

  predicate Enabled(s: System, e: Event) {
    match e
    case Write(bytes) => |s.written| + |bytes| <= STREAM_LIMIT
    case Send(rel, len) => 0 <= s.acked <= rel && 0 < len <= MAX_RELIABLE_DATA_PACKET_SIZE && rel + len <= |s.written|
    case Deliver(packet) => packet in s.packets
    case Handle(ptr) => s.client.cbuf.ptr <= ptr <= |s.client.cbuf.data|
    case ReceiveAck(ack) => ack in s.acks
  }

  // An acknowledgement beyond the data that have been written.
  predicate BadAck(s: System, ack: int) { ack > |s.written| }

  function Step(s: System, e: Event): System
    requires s.client.cbuf.Valid() && Enabled(s, e)
  {
    match e
    case Write(bytes) => s.(written := s.written + bytes)
    case Send(rel, len) => s.(packets := s.packets + {Packet(rel, s.written[rel..rel + len])})
    case Deliver(packet) =>
      var c := Absorb(s.client, packet.rel, packet.payload);
      s.(client := c, acks := s.acks + {c.offset})
    case Handle(ptr) => s.(client := s.client.(cbuf := s.client.cbuf.(ptr := ptr)))
    case ReceiveAck(ack) => if BadAck(s, ack) || ack <= s.acked then s else s.(acked := ack)
  }

  // The client holds exactly the stream up to its position.
  ghost predicate InSync(written: seq<Byte>, c: Client) {
    && c.cbuf.Valid() && 0 <= c.base
    && c.base + |c.cbuf.data| == c.offset <= |written|
    && c.cbuf.data == written[c.base..c.offset]
  }

  ghost predicate Honest(written: seq<Byte>, p: Packet) {
    0 <= p.rel && p.rel + |p.payload| <= |written| && p.payload == written[p.rel..p.rel + |p.payload|]
  }

  ghost predicate Inv(s: System) {
    && |s.written| <= STREAM_LIMIT
    && InSync(s.written, s.client)
    && 0 <= s.acked <= s.client.offset
    && (forall p :: p in s.packets ==> Honest(s.written, p) && 0 < |p.payload| <= MAX_RELIABLE_DATA_PACKET_SIZE)
    && (forall a :: a in s.acks ==> 0 <= a <= s.client.offset)
  }

  function Start(size: nat): System { System([], 0, {}, {}, Client(Sockbuf([], 0, size), 0, 0)) }

  lemma StartInv(size: nat)
    ensures Inv(Start(size))
  {
  }

  // Consecutive pieces of the stream.
  lemma Consecutive(written: seq<Byte>, i: nat, j: nat, k: nat)
    requires i <= j <= k <= |written|
    ensures written[i..j] + written[j..k] == written[i..k]
  {
  }

  // Whatever slice of the stream arrives, the client stays in step with it, and
  // its position never decreases.
  lemma AbsorbKeepsSync(written: seq<Byte>, c: Client, p: Packet)
    requires InSync(written, c) && Honest(written, p)
    ensures InSync(written, Absorb(c, p.rel, p.payload))
    ensures Absorb(c, p.rel, p.payload).offset >= c.offset
  {
    if p.rel <= c.offset < p.rel + |p.payload| {
      assert p.payload[c.offset - p.rel..] == written[c.offset..p.rel + |p.payload|];
      Consecutive(written, c.base + c.cbuf.ptr, c.offset, p.rel + |p.payload|);
    }
  }

  // A slice that covers the client's position and fits moves it to the slice's end.
  lemma AbsorbAdvances(c: Client, p: Packet)
    requires c.cbuf.Valid() && p.rel <= c.offset < p.rel + |p.payload|
    requires |c.cbuf.data| - c.cbuf.ptr + (p.rel + |p.payload| - c.offset) <= c.cbuf.size
    ensures Absorb(c, p.rel, p.payload).offset == p.rel + |p.payload|
  {
  }

  lemma StepKeepsInv(s: System, e: Event)
    requires Inv(s) && Enabled(s, e)
    ensures Inv(Step(s, e))
  {
    match e
    case Write(bytes) =>
      var longer := s.written + bytes;
      assert forall i, j :: 0 <= i <= j <= |s.written| ==> longer[i..j] == s.written[i..j];
    case Deliver(packet) => AbsorbKeepsSync(s.written, s.client, packet);
    case _ =>
  }

  // Neither end ever moves back, and what the server has written stays.
  ghost predicate Forward(s: System, t: System) {
    && s.written <= t.written && s.acked <= t.acked
    && s.client.offset <= t.client.offset
    && s.client.base + s.client.cbuf.ptr <= t.client.base + t.client.cbuf.ptr
  }

  lemma StepsGoForward(s: System, e: Event)
    requires Inv(s) && Enabled(s, e)
    ensures Forward(s, Step(s, e))
  {
    if e.Deliver? {
      AbsorbKeepsSync(s.written, s.client, e.packet);
    }
  }

  // ---- Runs ----

  ghost predicate IsRun(s: System, events: seq<Event>)
    requires s.client.cbuf.Valid()
    decreases |events|
  {
    events == [] ||
    (Enabled(s, events[0]) && Step(s, events[0]).client.cbuf.Valid() && IsRun(Step(s, events[0]), events[1..]))
  }

  function After(s: System, events: seq<Event>): System
    requires s.client.cbuf.Valid() && IsRun(s, events)
    decreases |events|
  {
    if events == [] then s else After(Step(s, events[0]), events[1..])
  }

  // For every run: the bytes received are exactly the stream up to the client's
  // position, nothing the server has dropped is missing, and nothing moves back.
  lemma {:induction false} RunsAreSafe(s: System, events: seq<Event>)
    requires Inv(s) && IsRun(s, events)
    ensures Inv(After(s, events)) && Forward(s, After(s, events))
    decreases |events|
  {
    if events != [] {
      StepKeepsInv(s, events[0]);
      StepsGoForward(s, events[0]);
      RunsAreSafe(Step(s, events[0]), events[1..]);
    }
  }

  // The server never has to reject an acknowledgement.
  lemma NoBadAck(size: nat, events: seq<Event>, ack: int)
    requires IsRun(Start(size), events) && ack in After(Start(size), events).acks
    ensures !BadAck(After(Start(size), events), ack)
  {
    StartInv(size);
    RunsAreSafe(Start(size), events);
  }

  ghost predicate LeadsTo(s: System, events: seq<Event>, t: System) {
    s.client.cbuf.Valid() && IsRun(s, events) && After(s, events) == t
  }

  lemma FirstThenRest(s: System, e: Event, rest: seq<Event>, t: System)
    requires s.client.cbuf.Valid() && Enabled(s, e) && LeadsTo(Step(s, e), rest, t)
    ensures LeadsTo(s, [e] + rest, t)
  {
    assert ([e] + rest)[1..] == rest;
  }

  lemma TwoThenRest(s: System, e1: Event, e2: Event)
    requires s.client.cbuf.Valid() && Enabled(s, e1)
    requires Step(s, e1).client.cbuf.Valid() && Enabled(Step(s, e1), e2)
    ensures forall rest, u :: LeadsTo(Step(Step(s, e1), e2), rest, u) ==> LeadsTo(s, [e1, e2] + rest, u)
  {
    forall rest, u | LeadsTo(Step(Step(s, e1), e2), rest, u) ensures LeadsTo(s, [e1, e2] + rest, u) {
      FirstThenRest(Step(s, e1), e2, rest, u);
      FirstThenRest(s, e1, [e2] + rest, u);
      assert [e1, e2] + rest == [e1] + ([e2] + rest);
    }
  }

  // The data from `from` on can be cut at these places into slices that the server sends.
  ghost predicate Cut(from: int, ends: seq<int>, n: int)
    decreases |ends|
  {
    if ends == [] then from == n
    else from < ends[0] <= from + MAX_RELIABLE_DATA_PACKET_SIZE && Cut(ends[0], ends[1..], n)
  }

  function Slice(written: seq<Byte>, from: int, end: int): seq<Event>
    requires 0 <= from <= end <= |written|
  {
    [Send(from, end - from), Deliver(Packet(from, written[from..end]))]
  }

  // Send these slices and deliver each, and then the last acknowledgement.
  function Resending(written: seq<Byte>, from: int, ends: seq<int>): seq<Event>
    requires 0 <= from && Cut(from, ends, |written|)
    decreases |ends|
  {
    if ends == [] then [ReceiveAck(from)]
    else
      CutIsInside(from, ends, |written|);
      Slice(written, from, ends[0]) + Resending(written, ends[0], ends[1..])
  }

  lemma {:induction false} CutIsInside(from: int, ends: seq<int>, n: int)
    requires Cut(from, ends, n)
    ensures from <= n && (ends != [] ==> from < ends[0] <= n)
    decreases |ends|
  {
    if ends != [] {
      CutIsInside(ends[0], ends[1..], n);
    }
  }

  // What the client has not handled fits its control buffer together with all it
  // has not received.
  ghost predicate Fits(s: System) {
    |s.client.cbuf.data| - s.client.cbuf.ptr + (|s.written| - s.client.offset) <= s.client.cbuf.size
  }

  // The slice up to `end` has arrived, and is acknowledged.
  ghost predicate Arrived(s: System, end: int, t: System) {
    && Inv(t) && Fits(t) && t.written == s.written && t.acked == s.acked
    && end <= t.client.offset && t.client.offset in t.acks
    && t.client.base + t.client.cbuf.ptr == s.client.base + s.client.cbuf.ptr
  }

  lemma DeliveredArrives(s: System, p: Packet)
    requires Inv(s) && Fits(s) && p in s.packets && s.acked <= p.rel <= s.client.offset
    ensures Arrived(s, p.rel + |p.payload|, Step(s, Deliver(p)))
  {
    StepKeepsInv(s, Deliver(p));
    if s.client.offset < p.rel + |p.payload| {
      AbsorbAdvances(s.client, p);
    }
  }

  // One slice is sent and delivered.
  lemma SliceArrives(s: System, from: int, end: int) returns (t: System)
    requires Inv(s) && Fits(s) && s.acked <= from <= s.client.offset
    requires from < end <= from + MAX_RELIABLE_DATA_PACKET_SIZE && end <= |s.written|
    ensures Arrived(s, end, t)
    ensures forall rest, u :: LeadsTo(t, rest, u) ==> LeadsTo(s, Slice(s.written, from, end) + rest, u)
  {
    var p := Packet(from, s.written[from..end]);
    var sent := Step(s, Send(from, end - from));
    StepKeepsInv(s, Send(from, end - from));
    DeliveredArrives(sent, p);
    t := Step(sent, Deliver(p));
    TwoThenRest(s, Send(from, end - from), Deliver(p));
  }

  // Both ends have everything, and nothing more has been handled.
  ghost predicate CaughtUp(s: System, t: System) {
    && Inv(t) && t.written == s.written && t.client.offset == |s.written| == t.acked
    && t.client.base + t.client.cbuf.ptr == s.client.base + s.client.cbuf.ptr
  }

  lemma LastAck(s: System) returns (t: System)
    requires Inv(s) && s.client.offset == |s.written| && |s.written| in s.acks
    ensures LeadsTo(s, [ReceiveAck(|s.written|)], t) && CaughtUp(s, t)
  {
    t := Step(s, ReceiveAck(|s.written|));
    assert LeadsTo(t, [], t);
    FirstThenRest(s, ReceiveAck(|s.written|), [], t);
  }

  lemma {:induction false} SlicesCatchUp(s: System, from: int, ends: seq<int>) returns (t: System)
    requires Inv(s) && Fits(s) && s.acked <= from <= s.client.offset && Cut(from, ends, |s.written|)
    requires ends == [] ==> |s.written| in s.acks
    ensures LeadsTo(s, Resending(s.written, from, ends), t) && CaughtUp(s, t)
    decreases |ends|, 0
  {
    if ends == [] {
      t := LastAck(s);
    } else {
      CutIsInside(ends[0], ends[1..], |s.written|);
      t := RestCatchesUp(s, from, ends[0], ends[1..]);
    }
  }

  // The first slice has arrived.
  lemma RestCatchesUp(s: System, from: int, end: int, ends: seq<int>) returns (t: System)
    requires Inv(s) && Fits(s) && s.acked <= from <= s.client.offset
    requires from < end <= from + MAX_RELIABLE_DATA_PACKET_SIZE && end <= |s.written| && Cut(end, ends, |s.written|)
    ensures LeadsTo(s, Slice(s.written, from, end) + Resending(s.written, end, ends), t) && CaughtUp(s, t)
    decreases |ends|, 1
  {
    var arrived := SliceArrives(s, from, end);
    t := SlicesCatchUp(arrived, end, ends);
  }

  // Sending all unacknowledged data again, cut in any way the server may cut it,
  // and delivering it brings the client up to date, if the data fit, and its last
  // acknowledgement lets the server forget them.
  lemma RetransmissionCatchesUp(s: System, ends: seq<int>)
    requires Inv(s) && Fits(s) && s.acked < |s.written| && Cut(s.acked, ends, |s.written|)
    ensures exists t :: LeadsTo(s, Resending(s.written, s.acked, ends), t) && CaughtUp(s, t)
  {
    var t := SlicesCatchUp(s, s.acked, ends);
  }

  // Such a cut always exists.
  lemma {:induction false} CanBeCut(from: int, n: int) returns (ends: seq<int>)
    requires from <= n
    ensures Cut(from, ends, n)
    decreases n - from
  {
    if from == n {
      ends := [];
    } else {
      var end := if n - from > MAX_RELIABLE_DATA_PACKET_SIZE then from + MAX_RELIABLE_DATA_PACKET_SIZE else n;
      var rest := CanBeCut(end, n);
      ends := [end] + rest;
      assert ends[1..] == rest;
    }
  }
}
