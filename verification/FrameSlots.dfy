/** What reading, dropping and taking out packets does to the frame buffers of
    netclient.c. */
module FrameSlots {
  import opened Options
  import opened Bytes
  import opened FrameWindow

  // The packets from the first that is not a stale frame on.
  function SkipStale(arrivals: seq<Arrival>, last: int): (r: seq<Arrival>)
    ensures |r| <= |arrivals|
    ensures r != [] && r[0].Record? && r[0].bytes != [] && r[0].bytes[0] == PKT_START ==> !Stale(r[0].bytes, last)
  {
    if arrivals == [] then []
    else if arrivals[0].Record? && arrivals[0].bytes != [] && arrivals[0].bytes[0] == PKT_START
            && Stale(arrivals[0].bytes, last) then SkipStale(arrivals[1..], last)
    else arrivals
  }

  lemma {:induction false} FillSkips(w: Window, arrivals: seq<Arrival>, cap: nat, last: int)
    requires w.other.None? && !(cap == 1 && w.held != {})
    ensures Fill(w, arrivals, cap, last) == Fill(w, SkipStale(arrivals, last), cap, last)
    decreases |arrivals|
  {
    if arrivals != [] && SkipStale(arrivals, last) != arrivals {
      FillSkips(w, arrivals[1..], cap, last);
    }
  }

  // A frame read into the first empty buffer joins the frames in view.
  lemma ReadFrame(fs: seq<FrameBuf>, n: nat, f: FrameBuf, last: int)
    requires Slots(fs, n, last) && View(fs, n).other.None? && n < |fs|
    requires f.loops > last && f.bytes != [] && forall i :: 0 <= i < n ==> fs[i].loops != f.loops
    ensures Slots(fs[n := f], n + 1, last)
    ensures View(fs[n := f], n + 1) == Window(View(fs, n).held + {f}, None)
  {
    var gs := fs[n := f];
    forall g ensures g in View(gs, n + 1).held <==> g in View(fs, n).held + {f} {
      if g in View(fs, n).held {
        var i :| 0 <= i < n && fs[i].loops != 0 && fs[i] == g;
        assert gs[i] == g;
      }
      if g == f {
        assert gs[n] == g;
      }
    }
  }

  lemma ReadOther(fs: seq<FrameBuf>, n: nat, bytes: seq<Byte>, last: int)
    requires Slots(fs, n, last) && View(fs, n).other.None? && n < |fs| && bytes != []
    ensures Slots(fs[n := FrameBuf(0, bytes)], n + 1, last)
    ensures View(fs[n := FrameBuf(0, bytes)], n + 1) == Window(View(fs, n).held, Some(bytes))
  {
    var gs := fs[n := FrameBuf(0, bytes)];
    forall g ensures g in View(gs, n + 1).held <==> g in View(fs, n).held {
      if g in View(fs, n).held {
        var i :| 0 <= i < n && fs[i].loops != 0 && fs[i] == g;
        assert gs[i] == g;
      }
    }
    assert gs[n].loops == 0;
  }

  lemma RemovedIsNotHeld(fs: seq<FrameBuf>, n: nat, i: nat, last: int)
    requires Slots(fs, n, last) && i < n
    ensures View(Swap(fs, i, n - 1)[n - 1 := EMPTY], n - 1).held == View(fs, n).held - {fs[i]}
  {
    var gs := Swap(fs, i, n - 1)[n - 1 := EMPTY];
    forall g ensures g in View(gs, n - 1).held <==> g in View(fs, n).held && g != fs[i] {
      if g in View(fs, n).held && g != fs[i] {
        var k :| 0 <= k < n && fs[k].loops != 0 && fs[k] == g;
        assert gs[if k == n - 1 then i else k] == g;
      }
      if g in View(gs, n - 1).held {
        var k :| 0 <= k < n - 1 && gs[k].loops != 0 && gs[k] == g;
        assert fs[if k == i then n - 1 else k] == g;
      }
    }
  }

  // Moving the last buffer in use into the place of buffer i and emptying it
  // removes buffer i and leaves no gap.
  lemma RemoveSlot(fs: seq<FrameBuf>, n: nat, i: nat, last: int)
    requires Slots(fs, n, last) && i < n
    ensures var gs := Swap(fs, i, n - 1)[n - 1 := EMPTY];
      && Slots(gs, n - 1, last)
      && View(gs, n - 1) ==
           Window(View(fs, n).held - {fs[i]}, if fs[i].loops == 0 then None else View(fs, n).other)
  {
    var gs := Swap(fs, i, n - 1)[n - 1 := EMPTY];
    RemovedIsNotHeld(fs, n, i, last);
    if k :| 0 <= k < n && k != i && fs[k].loops == 0 {
      assert gs[if k == n - 1 then i else k].loops == 0;
    }
  }

  // The buffer of least number among the first n, all of which hold frames.
  ghost predicate LeastOf(fs: seq<FrameBuf>, n: int, o: int) {
    && n <= |fs| && (if n == 0 then o == 0 else 0 <= o < n)
    && forall k :: 0 <= k < n ==> fs[k].loops != 0 && fs[o].loops <= fs[k].loops
  }

  lemma OldestIsLast(fs: seq<FrameBuf>, o: nat, last: int)
    requires 0 < |fs| && Slots(fs, |fs|, last) && LeastOf(fs, |fs|, o)
    requires fs[o].loops >= fs[|fs| - 1].loops
    ensures Swap(fs, o, |fs| - 1) == fs
  {
  }

  // Reading one more frame into the last buffer, then dropping the oldest.
  lemma DropOldest(fs: seq<FrameBuf>, held: set<FrameBuf>, f: FrameBuf, o: nat, last: int)
    requires 1 < |fs| && Slots(fs, |fs|, last) && LeastOf(fs, |fs|, o)
    requires View(fs, |fs|) == Window(held + {f}, None)
    ensures var gs := Swap(fs, o, |fs| - 1)[|fs| - 1 := EMPTY];
      Slots(gs, |fs| - 1, last) && View(gs, |fs| - 1) == Window(Added(held, f, |fs|), None)
  {
    RemoveSlot(fs, |fs|, o, last);
    CountHeld(fs, |fs|, last);
    assert fs[o] in held + {f};
    assert IsOldest(held + {f}, fs[o]);
    var p := Oldest(held + {f});
    var k :| 0 <= k < |fs| && fs[k] == p;
    assert p == fs[o];
  }

  lemma EmptyView(fs: seq<FrameBuf>, last: int)
    requires 0 <= last && forall k :: 0 <= k < |fs| ==> fs[k] == EMPTY
    ensures Slots(fs, 0, last) && View(fs, 0) == Window({}, None)
  {
  }

  ghost predicate Numbered(fs: seq<FrameBuf>, n: nat, loop: int)
    requires n <= |fs|
  {
    exists j :: 0 <= j < n && fs[j].loops == loop
  }

  lemma NumberedIsHeld(fs: seq<FrameBuf>, n: nat, loop: int)
    requires n <= |fs| && loop != 0
    ensures Numbered(fs, n, loop) <==> HasLoop(View(fs, n).held, loop)
  {
    if Numbered(fs, n, loop) {
      var j :| 0 <= j < n && fs[j].loops == loop;
      assert fs[j] in View(fs, n).held;
    }
  }

  // What the next packet that is not a stale frame does to the window.
  lemma ReadStep(fs: seq<FrameBuf>, n: nat, arrivals: seq<Arrival>, last: int)
    requires Slots(fs, n, last) && n < |fs| && View(fs, n).other.None? && (|fs| == 1 ==> n == 0)
    ensures var w, rest := View(fs, n), SkipStale(arrivals, last);
      var goal := Fill(w, arrivals, |fs|, last);
      && (rest == [] ==> goal == (w, []))
      && (rest != [] && rest[0] == Record([]) ==> goal == (w, rest[1..]))
      && (rest != [] && rest[0].Reconnected? ==> goal == (Window({}, None), rest[1..]))
      && (rest != [] && rest[0].Record? && rest[0].bytes != [] ==>
            if rest[0].bytes[0] != PKT_START then goal == (Window(w.held, Some(rest[0].bytes)), rest[1..])
            else
              var f := FrameBuf(LoopOf(rest[0].bytes), rest[0].bytes);
              goal == Fill(if Numbered(fs, n, f.loops) then w else Window(Added(w.held, f, |fs|), None),
                           rest[1..], |fs|, last))
  {
    var w, rest := View(fs, n), SkipStale(arrivals, last);
    CountHeld(fs, n, last);
    FillSkips(w, arrivals, |fs|, last);
    if rest != [] && rest[0].Record? && rest[0].bytes != [] && rest[0].bytes[0] == PKT_START {
      NumberedIsHeld(fs, n, LoopOf(rest[0].bytes));
    }
  }

  ghost predicate ReadResult(n: int, fs: seq<FrameBuf>, gs: seq<FrameBuf>, i: nat, used: nat)
    requires i < |fs| == |gs|
  {
    && 0 <= n <= 3
    && (n == 0 ==> used <= i)
    && (n == 2 ==> used == i + 1 && gs == fs[i := gs[i]] && gs[i].loops != 0)
    && (n == 3 ==> used == i && gs == fs)
  }

  // Where the reading that had started from fs and `before` now stands.
  ghost predicate ReadGoal(n: int, fs: seq<FrameBuf>, i: nat, before: seq<Arrival>,
                           gs: seq<FrameBuf>, used: nat, arrivals: seq<Arrival>, last: int)
    requires i < |fs| == |gs| && used <= |gs|
  {
    var goal := Fill(View(fs, i), before, |fs|, last);
    && (n <= 1 ==> goal == (View(gs, used), arrivals))
    && (n == 2 ==> View(gs, used) == Window(View(fs, i).held + {gs[i]}, None))
    && (n == 2 ==> goal == Fill(Window(Added(View(fs, i).held, gs[i], |fs|), None), arrivals, |fs|, last))
    && (n == 3 ==> goal == Fill(View(fs, i), arrivals, |fs|, last))
  }

  lemma NothingRead(fs: seq<FrameBuf>, gs: seq<FrameBuf>, n: nat, before: seq<Arrival>,
                      arrivals: seq<Arrival>, last: int)
    returns (used: nat)
    requires Slots(fs, n, last) && n < |fs| == |gs| && View(fs, n).other.None? && (|fs| == 1 ==> n == 0)
    requires var rest := SkipStale(before, last);
      && arrivals == (if rest == [] then [] else rest[1..])
      && if rest == [] || rest[0] == Record([]) then gs == fs
         else rest[0].Reconnected? && forall k :: 0 <= k < |gs| ==> gs[k] == EMPTY
    ensures used <= n && Slots(gs, used, last) && ReadGoal(0, fs, n, before, gs, used, arrivals, last)
  {
    ReadStep(fs, n, before, last);
    var rest := SkipStale(before, last);
    if rest != [] && rest[0].Reconnected? {
      used := 0;
      EmptyView(gs, last);
    } else {
      used := n;
    }
  }

  lemma NoOther(fs: seq<FrameBuf>, n: nat, last: int)
    requires Slots(fs, n, last) && forall k :: 0 <= k < n ==> fs[k].loops != 0
    ensures View(fs, n).other.None?
  {
  }

  // Among the first n buffers, o holds the oldest frame if there is one.
  ghost predicate OldestSoFar(fs: seq<FrameBuf>, n: nat, o: int) {
    && 0 <= o < n <= |fs|
    && forall k :: 0 <= k < n && fs[k].loops != 0 ==> fs[o].loops != 0 && fs[o].loops <= fs[k].loops
  }

  lemma OldestFound(fs: seq<FrameBuf>, n: nat, o: int, last: int)
    requires Slots(fs, n, last) && OldestSoFar(fs, n, o)
    ensures if View(fs, n).held != {} then IsOldest(View(fs, n).held, fs[o])
            else View(fs, n).other == Some(fs[o].bytes) && fs[o].loops == 0
  {
    if fs[o].loops != 0 {
      assert fs[o] in View(fs, n).held;
    }
  }

  lemma OldestTaken(w: Window, f: FrameBuf, v: Window)
    requires v == Window(w.held - {f}, if f.loops == 0 then None else w.other)
    requires forall g :: g in w.held ==> g.loops != 0
    requires DistinctLoops(w.held)
    requires if w.held != {} then IsOldest(w.held, f) else w.other == Some(f.bytes) && f.loops == 0
    ensures Processes(w, Some(f), v)
    ensures forall g :: g in v.held ==> g.loops > f.loops
  {
  }

  lemma ViewIsDistinct(fs: seq<FrameBuf>, n: nat, last: int)
    requires Slots(fs, n, last)
    ensures DistinctLoops(View(fs, n).held) && forall g :: g in View(fs, n).held ==> g.loops > last
  {
  }

  // When the oldest frame has been taken out, the others are newer than it.
  lemma NewerSlots(fs: seq<FrameBuf>, n: nat, last: int, now: int)
    requires Slots(fs, n, last) && now > last
    requires forall f :: f in View(fs, n).held ==> f.loops > now
    ensures Slots(fs, n, now)
  {
    forall i | 0 <= i < n && fs[i].loops != 0 ensures fs[i].loops > now {
      assert fs[i] in View(fs, n).held;
    }
  }
}
