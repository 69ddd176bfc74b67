/** The small window of frame packets in front of the client, as one call of
    Net_input sees it: which packets are kept, and which one is processed. */
module FrameWindow {
  import opened Options
  import opened Bytes
  import PacketPrint
  import Sockets

  const PKT_START: Byte := 6

  // What the socket yields: a packet, or an error after which the connection has
  // been made anew and all buffers have been cleared.
  datatype Arrival = Record(bytes: seq<Byte>) | Reconnected

  // A frame buffer: the number of the frame it holds, or 0, and the packet.
  datatype FrameBuf = FrameBuf(loops: int, bytes: seq<Byte>)

  const EMPTY := FrameBuf(0, [])

  // The packets waiting to be processed: numbered frames, and possibly a packet
  // that does not begin with a frame.
  datatype Window = Window(held: set<FrameBuf>, other: Option<seq<Byte>>) {
    ghost function Size(): nat { |held| + if other.Some? then 1 else 0 }
  }

  // A frame packet whose number cannot be read or is not new is dropped.
  predicate Stale(bytes: seq<Byte>, last: int)
    requires bytes != [] && bytes[0] == PKT_START
  {
    |bytes| < 5 || GetLong(bytes[1..5]) <= last
  }

  function LoopOf(bytes: seq<Byte>): int
    requires |bytes| >= 5
  {
    GetLong(bytes[1..5])
  }

  const FRAME_SENT := [Sockets.Char, Sockets.Long, Sockets.Long]

  // The frame number is the one that the server writes at the start of a frame, when it fits
  // 32 bits.
  lemma LoopIsRead(loops: int, keys: int, room: int, rest: seq<Byte>)
    requires room > 9
    ensures var values := [Sockets.Number(6), Sockets.Number(loops), Sockets.Number(keys)];
      && PacketPrint.TypesFit(FRAME_SENT, values) && PacketPrint.Print(FRAME_SENT, values, room).Some?
      && var s := PacketPrint.Print(FRAME_SENT, values, room).value + rest;
         |s| >= 5 && s[0] == PKT_START && (LoopOf(s) == loops <==> -0x8000_0000 <= loops < 0x8000_0000)
  {
    var values := [Sockets.Number(6), Sockets.Number(loops), Sockets.Number(keys)];
    assert FRAME_SENT[1..] == [Sockets.Long, Sockets.Long];
    assert values[1..] == [Sockets.Number(loops), Sockets.Number(keys)];
    PacketPrint.CharTwoLongs(FRAME_SENT, values, 6, loops, keys, room);
    LongRoundTrip(loops);
    assert ([6] + (PutLong(loops) + PutLong(keys)) + rest)[1..5] == PutLong(loops);
  }

  ghost predicate HasLoop(held: set<FrameBuf>, loop: int) {
    exists f :: f in held && f.loops == loop
  }

  ghost predicate IsOldest(held: set<FrameBuf>, f: FrameBuf) {
    f in held && forall g :: g in held ==> f.loops <= g.loops
  }

  ghost predicate DistinctLoops(held: set<FrameBuf>) {
    forall f, g :: f in held && g in held && f.loops == g.loops ==> f == g
  }

  lemma {:induction false} OldestExists(held: set<FrameBuf>)
    requires held != {}
    ensures exists f :: IsOldest(held, f)
  {
    var f :| f in held;
    if held - {f} == {} {
      assert held == {f};
      assert IsOldest(held, f);
    } else {
      OldestExists(held - {f});
      var g :| IsOldest(held - {f}, g);
      assert IsOldest(held, if f.loops <= g.loops then f else g);
    }
  }

  ghost function Oldest(held: set<FrameBuf>): (f: FrameBuf)
    requires held != {}
    ensures IsOldest(held, f)
  {
    OldestExists(held);
    var f :| IsOldest(held, f);
    f
  }

  // Reading packets into the window until there are none, one that is not a frame
  // has arrived, or the connection was lost.  When the window would be full, its
  // oldest frame is dropped.
  ghost function Fill(w: Window, arrivals: seq<Arrival>, cap: nat, last: int): (Window, seq<Arrival>)
    decreases |arrivals|
  {
    if w.other.Some? || arrivals == [] || (cap == 1 && w.held != {}) then (w, arrivals)
    else
      match arrivals[0]
      case Reconnected => (Window({}, None), arrivals[1..])
      case Record(bytes) =>
        if bytes == [] then (w, arrivals[1..])
        else if bytes[0] != PKT_START then (w.(other := Some(bytes)), arrivals[1..])
        else if Stale(bytes, last) || HasLoop(w.held, LoopOf(bytes)) then Fill(w, arrivals[1..], cap, last)
        else Fill(w.(held := Added(w.held, FrameBuf(LoopOf(bytes), bytes), cap)), arrivals[1..], cap, last)
  }

  ghost function Added(held: set<FrameBuf>, f: FrameBuf, cap: nat): set<FrameBuf> {
    if |held + {f}| == cap && cap > 1 then held + {f} - {Oldest(held + {f})} else held + {f}
  }

  // The frames held are numbered differently, newer than the last one processed,
  // and leave a buffer free.
  ghost predicate Sound(w: Window, cap: nat, last: int) {
    && DistinctLoops(w.held) && (forall f :: f in w.held ==> f.loops > last && f.bytes != [])
    && (w.other.Some? ==> w.other.value != [])
    && w.Size() < cap
  }

  // ---- The buffers ----

  // The first n buffers are in use, the others are empty; at most one of those in
  // use holds a packet that is not a frame.
  ghost predicate Slots(fs: seq<FrameBuf>, n: nat, last: int) {
    && n <= |fs| && 0 <= last
    && (forall i :: 0 <= i < n ==> fs[i].bytes != [] && (fs[i].loops > last || fs[i].loops == 0))
    && (forall i :: n <= i < |fs| ==> fs[i] == EMPTY)
    && (forall i, j :: 0 <= i < j < n ==> fs[i].loops != fs[j].loops)
  }

  ghost function OtherOf(fs: seq<FrameBuf>, n: nat): Option<seq<Byte>>
    requires n <= |fs|
  {
    if i :| 0 <= i < n && fs[i].loops == 0 then Some(fs[i].bytes) else None
  }

  ghost function View(fs: seq<FrameBuf>, n: nat): Window
    requires n <= |fs|
  {
    Window(set i | 0 <= i < n && fs[i].loops != 0 :: fs[i], OtherOf(fs, n))
  }

  function Swap(fs: seq<FrameBuf>, i: nat, j: nat): seq<FrameBuf>
    requires i < |fs| && j < |fs|
  {
    fs[i := fs[j]][j := fs[i]]
  }

  // Each buffer in use holds a frame or the packet that is not one.
  lemma CountHeld(fs: seq<FrameBuf>, n: nat, last: int)
    requires Slots(fs, n, last)
    ensures View(fs, n).Size() == n
  {
    CountFrames(fs, n);
    if i :| 0 <= i < n && fs[i].loops == 0 {
      assert View(fs, n).held == Frames(fs, n) - {fs[i]};
      assert fs[i] in Frames(fs, n);
    } else {
      assert View(fs, n).held == Frames(fs, n);
    }
  }

  ghost function Frames(fs: seq<FrameBuf>, k: nat): set<FrameBuf>
    requires k <= |fs|
  {
    set i | 0 <= i < k :: fs[i]
  }

  lemma {:induction false} CountFrames(fs: seq<FrameBuf>, k: nat)
    requires k <= |fs| && forall i, j :: 0 <= i < j < k ==> fs[i].loops != fs[j].loops
    ensures |Frames(fs, k)| == k
  {
    if k > 0 {
      CountFrames(fs, k - 1);
      assert Frames(fs, k) == Frames(fs, k - 1) + {fs[k - 1]};
    }
  }

  // ---- What a fill keeps ----

  // The window while it is being filled.
  ghost predicate Filled(w: Window, cap: nat, last: int) {
    && DistinctLoops(w.held) && (forall f :: f in w.held ==> f.loops > last && f.bytes != [])
    && (w.other.Some? ==> w.other.value != [])
    && (if cap == 1 then w.Size() <= 1
        else |w.held| < cap && w.Size() <= cap)
  }

  lemma AddedKeeps(held: set<FrameBuf>, f: FrameBuf, cap: nat, last: int)
    requires 0 < cap && Filled(Window(held, None), cap, last) && (cap == 1 ==> held == {})
    requires f.loops > last && f.bytes != [] && !HasLoop(held, f.loops)
    ensures Filled(Window(Added(held, f, cap), None), cap, last)
  {
    assert f !in held;
    assert |held + {f}| == |held| + 1;
  }

  lemma {:induction false} FillKeepsFilled(w: Window, arrivals: seq<Arrival>, cap: nat, last: int)
    requires 0 < cap && Filled(w, cap, last)
    ensures Filled(Fill(w, arrivals, cap, last).0, cap, last)
    decreases |arrivals|
  {
    if w.other.Some? || arrivals == [] || (cap == 1 && w.held != {}) {
    } else if arrivals[0].Record? && arrivals[0].bytes != [] && arrivals[0].bytes[0] == PKT_START {
      var bytes := arrivals[0].bytes;
      if Stale(bytes, last) || HasLoop(w.held, LoopOf(bytes)) {
        FillKeepsFilled(w, arrivals[1..], cap, last);
      } else {
        var f := FrameBuf(LoopOf(bytes), bytes);
        AddedKeeps(w.held, f, cap, last);
        FillKeepsFilled(w.(held := Added(w.held, f, cap)), arrivals[1..], cap, last);
      }
    }
  }

  // A frame number is kept by the window, or every frame kept is newer and there
  // is no room for more.
  ghost predicate KeptOrOld(held: set<FrameBuf>, loop: int, cap: nat) {
    HasLoop(held, loop) || (|held| + 1 >= cap && forall f :: f in held ==> f.loops > loop)
  }

  lemma AddedKeptOrOld(held: set<FrameBuf>, f: FrameBuf, cap: nat, loop: int)
    requires DistinctLoops(held) && !HasLoop(held, f.loops) && |held| < cap && 1 < cap
    requires loop == f.loops || KeptOrOld(held, loop, cap)
    ensures KeptOrOld(Added(held, f, cap), loop, cap)
  {
    var more := held + {f};
    assert f !in held && |more| == |held| + 1;
    if HasLoop(more, loop) {
      var g :| g in more && g.loops == loop;
      if |more| == cap {
        var o := Oldest(more);
        assert |more - {o}| == cap - 1;
        if g != o {
          assert g in more - {o};
        } else {
          forall h | h in more - {o} ensures h.loops > loop {
          }
        }
      } else {
        assert g in Added(held, f, cap);
      }
    } else {
      assert f in more;
    }
  }

  predicate IsFrame(a: Arrival, last: int) {
    a.Record? && a.bytes != [] && a.bytes[0] == PKT_START && !Stale(a.bytes, last)
  }

  // Some packet among the first n is a new frame with this number.
  ghost predicate Arrived(arrivals: seq<Arrival>, n: int, loop: int, last: int) {
    exists k :: 0 <= k < n && k < |arrivals| && IsFrame(arrivals[k], last) && LoopOf(arrivals[k].bytes) == loop
  }

  ghost function Consumed(w: Window, arrivals: seq<Arrival>, cap: nat, last: int): int {
    |arrivals| - |Fill(w, arrivals, cap, last).1|
  }

  // Only the oldest frames are dropped: every frame that was held or has been
  // read is still held, unless all those held are newer and fill the window.
  lemma {:induction false} FillKeepsNewest(w: Window, arrivals: seq<Arrival>, cap: nat, last: int, loop: int)
    requires 1 < cap && Filled(w, cap, last)
    requires var n := Consumed(w, arrivals, cap, last);
      && (KeptOrOld(w.held, loop, cap) || Arrived(arrivals, n, loop, last))
      && forall k :: 0 <= k < n && k < |arrivals| ==> !arrivals[k].Reconnected?
    ensures KeptOrOld(Fill(w, arrivals, cap, last).0.held, loop, cap)
    decreases |arrivals|
  {
    if w.other.Some? || arrivals == [] {
    } else {
      assert !arrivals[0].Reconnected?;
      if IsFrame(arrivals[0], last) || (arrivals[0].bytes != [] && arrivals[0].bytes[0] == PKT_START) {
        var bytes := arrivals[0].bytes;
        var v := if Stale(bytes, last) || HasLoop(w.held, LoopOf(bytes)) then w
                 else w.(held := Added(w.held, FrameBuf(LoopOf(bytes), bytes), cap));
        if v != w || !(Stale(bytes, last) || HasLoop(w.held, LoopOf(bytes))) {
          var f := FrameBuf(LoopOf(bytes), bytes);
          AddedKeeps(w.held, f, cap, last);
          if loop == f.loops || KeptOrOld(w.held, loop, cap) {
            AddedKeptOrOld(w.held, f, cap, loop);
          }
        }
        LaterArrival(arrivals, Consumed(w, arrivals, cap, last), loop, last);
        FillKeepsNewest(v, arrivals[1..], cap, last, loop);
      } else {
        LaterArrival(arrivals, 1, loop, last);
      }
    }
  }

  lemma LaterArrival(arrivals: seq<Arrival>, n: int, loop: int, last: int)
    requires arrivals != []
    ensures Arrived(arrivals, n, loop, last) ==>
      (IsFrame(arrivals[0], last) && LoopOf(arrivals[0].bytes) == loop) || Arrived(arrivals[1..], n - 1, loop, last)
  {
    if Arrived(arrivals, n, loop, last) {
      var k :| 0 <= k < n && k < |arrivals| && IsFrame(arrivals[k], last) && LoopOf(arrivals[k].bytes) == loop;
      if k > 0 {
        assert arrivals[1..][k - 1] == arrivals[k];
      }
    }
  }

  // Nothing is invented: a frame in the window was there or has been read.
  lemma {:induction false} HeldHasArrived(w: Window, arrivals: seq<Arrival>, cap: nat, last: int, f: FrameBuf)
    requires f in Fill(w, arrivals, cap, last).0.held
    ensures f in w.held || Record(f.bytes) in arrivals
    decreases |arrivals|
  {
    if w.other.Some? || arrivals == [] || (cap == 1 && w.held != {}) {
    } else if arrivals[0].Record? && arrivals[0].bytes != [] && arrivals[0].bytes[0] == PKT_START {
      var bytes := arrivals[0].bytes;
      if Stale(bytes, last) || HasLoop(w.held, LoopOf(bytes)) {
        HeldHasArrived(w, arrivals[1..], cap, last, f);
      } else {
        HeldHasArrived(w.(held := Added(w.held, FrameBuf(LoopOf(bytes), bytes), cap)), arrivals[1..], cap, last, f);
      }
    }
  }

  // ---- Processing ----

  // The oldest frame is processed first, a packet that is not a frame last.
  ghost predicate Processes(w: Window, done: Option<FrameBuf>, v: Window) {
    if w.held != {} then
      done.Some? && IsOldest(w.held, done.value) && v == w.(held := w.held - {done.value})
    else if w.other.Some? then
      done == Some(FrameBuf(0, w.other.value)) && v == Window({}, None)
    else done == None && v == w
  }

  // Processing a frame leaves the window sound, whether or not its number has
  // become the last one processed.
  lemma ProcessingKeepsSound(w: Window, done: Option<FrameBuf>, v: Window, cap: nat, last: int, now: int)
    requires 0 < cap && Filled(w, cap, last) && Processes(w, done, v)
    requires now == last || (done.Some? && now == done.value.loops && now != 0)
    ensures Sound(v, cap, now)
  {
    if w.held != {} {
      forall f | f in v.held ensures f.loops > now {
        assert f.loops != done.value.loops;
      }
    }
  }

  // Windows, each of which processes one packet to become the next.
  ghost predicate Calls(ws: seq<Window>, done: seq<Option<FrameBuf>>) {
    |ws| == |done| + 1 && forall i :: 0 <= i < |done| ==> Processes(ws[i], done[i], ws[i + 1])
  }

  // The packets of such a window are processed in order: the frames, oldest first,
  // and then the one that is not a frame.
  lemma {:induction false} FramesThenOther(ws: seq<Window>, done: seq<Option<FrameBuf>>)
    requires Calls(ws, done) && ws[0].other.Some? && DistinctLoops(ws[0].held)
    requires |done| == |ws[0].held| + 1
    ensures done[|done| - 1] == Some(FrameBuf(0, ws[0].other.value))
    ensures forall i :: 0 <= i < |done| - 1 ==> done[i].Some? && done[i].value in ws[0].held
    ensures forall i, j :: 0 <= i < j < |done| - 1 ==> done[i].value.loops < done[j].value.loops
    decreases |done|
  {
    assert Processes(ws[0], done[0], ws[0 + 1]);
    if ws[0].held != {} {
      assert |ws[1].held| == |ws[0].held| - 1;
      FramesThenOther(ws[1..], done[1..]);
      forall j | 0 < j < |done| - 1 ensures done[j].Some? && done[j].value in ws[1].held {
        assert done[j] == done[1..][j - 1];
      }
      forall i, j | 0 <= i < j < |done| - 1 ensures done[i].value.loops < done[j].value.loops {
        if i > 0 {
          assert done[1..][i - 1].value.loops < done[1..][j - 1].value.loops;
        }
      }
    }
  }

  // ---- Calls of Net_input ----

  // One call: it reads what there is into the window, and processes a packet.
  ghost predicate NetStep(w: Window, arrivals: seq<Arrival>, cap: nat, last: int,
                          done: Option<FrameBuf>, v: Window, left: seq<Arrival>) {
    left == Fill(w, arrivals, cap, last).1 && Processes(Fill(w, arrivals, cap, last).0, done, v)
  }

  // What happens in one call of several: what the socket yields from then on, and the
  // last frame processed before; what has not been read, and the packet processed.
  datatype Turn = Turn(arrivals: seq<Arrival>, last: int, left: seq<Arrival>, done: Option<FrameBuf>)

  ghost predicate NetRun(ws: seq<Window>, turns: seq<Turn>, cap: nat) {
    |ws| == |turns| + 1 && forall i :: 0 <= i < |turns| ==> TurnIs(ws[i], turns[i], cap, ws[i + 1])
  }

  ghost predicate TurnIs(w: Window, t: Turn, cap: nat, v: Window) {
    NetStep(w, t.arrivals, cap, t.last, t.done, v, t.left)
  }

  // The window once the first call has read all that it reads.
  ghost function FirstFill(ws: seq<Window>, turns: seq<Turn>, cap: nat): Window
    requires ws != [] && turns != []
  {
    Fill(ws[0], turns[0].arrivals, cap, turns[0].last).0
  }

  // While a packet that is not a frame waits, nothing is read, and each call takes
  // one frame out.
  lemma {:induction false} StillWaits(ws: seq<Window>, turns: seq<Turn>, cap: nat, i: nat)
    requires NetRun(ws, turns, cap) && 0 < i < |turns|
    requires FirstFill(ws, turns, cap).other.Some? && i <= |FirstFill(ws, turns, cap).held|
    ensures ws[i].other == FirstFill(ws, turns, cap).other && |ws[i].held| == |FirstFill(ws, turns, cap).held| - i
    ensures turns[i].left == turns[i].arrivals && Processes(ws[i], turns[i].done, ws[i + 1])
  {
    assert TurnIs(ws[i], turns[i], cap, ws[i + 1]);
    if i == 1 {
      assert TurnIs(ws[0], turns[0], cap, ws[0 + 1]);
    } else {
      StillWaits(ws, turns, cap, i - 1);
    }
  }

  // The packet that stops the reading of a call is never dropped. Whatever arrives in
  // the meantime, the calls process the frames held when it arrived, oldest first, and
  // directly after them that packet, and until then they read nothing.
  lemma OtherIsProcessedLast(ws: seq<Window>, turns: seq<Turn>, cap: nat)
    requires 0 < cap && turns != [] && NetRun(ws, turns, cap) && Filled(ws[0], cap, turns[0].last)
    requires FirstFill(ws, turns, cap).other.Some? && |turns| == |FirstFill(ws, turns, cap).held| + 1
    ensures var w, n := FirstFill(ws, turns, cap), |turns| - 1;
      && turns[n].done == Some(FrameBuf(0, w.other.value))
      && (forall i :: 0 <= i < n ==> turns[i].done.Some? && turns[i].done.value in w.held)
      && (forall i, j :: 0 <= i < j < n ==> turns[i].done.value.loops < turns[j].done.value.loops)
      && (forall i :: 0 < i <= n ==> turns[i].left == turns[i].arrivals)
  {
    var w, n := FirstFill(ws, turns, cap), |turns| - 1;
    var vs := [w] + ws[1..];
    var done := seq(|turns|, i requires 0 <= i < |turns| => turns[i].done);
    FillKeepsFilled(ws[0], turns[0].arrivals, cap, turns[0].last);
    assert TurnIs(ws[0], turns[0], cap, ws[0 + 1]);
    forall i | 0 <= i < |done|
      ensures Processes(vs[i], done[i], vs[i + 1]) && (i > 0 ==> turns[i].left == turns[i].arrivals)
    {
      if i > 0 {
        StillWaits(ws, turns, cap, i);
      }
    }
    FramesThenOther(vs, done);
    assert forall i :: 0 <= i <= n ==> done[i] == turns[i].done;
  }
}
