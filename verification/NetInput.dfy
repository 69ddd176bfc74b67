/** Net_input and Net_read of netclient.c over the array of frame buffers. */
module NetInput {
  import opened Options
  import opened Bytes
  import opened FrameWindow
  import opened FrameSlots

  class FrameBuffers {
    const frames: array<FrameBuf>
    var lastLoops: int
    // What can still be read from the socket.
    var arrivals: seq<Arrival>
    ghost var used: nat

    // Between calls the empty buffers come last, and there is at least one.
    ghost predicate Valid()
      reads this, frames
    {
      Slots(frames[..], used, lastLoops) && used < frames.Length
    }

    ghost function Waiting(): Window
      requires used <= frames.Length
      reads this, frames
    {
      View(frames[..], used)
    }

    method ClearBuffers()
      modifies frames
      ensures forall k :: 0 <= k < frames.Length ==> frames[k] == EMPTY
    {
      for k := 0 to frames.Length
        invariant forall j :: 0 <= j < k ==> frames[j] == EMPTY
      {
        frames[k] := EMPTY;
      }
    }

    // Read a packet into an empty buffer: 2 for a new frame, 1 for a packet that is
    // not a frame, 0 when there is none.
    method NetRead(i: int) returns (n: int)
      requires 0 <= i < frames.Length && frames[i] == EMPTY
      modifies frames, this`arrivals
      ensures var rest := SkipStale(old(arrivals), lastLoops);
        && arrivals == (if rest == [] then [] else rest[1..])
        && if rest == [] || rest[0] == Record([]) then n == 0 && frames[..] == old(frames[..])
           else if rest[0].Reconnected? then n == 0 && forall k :: 0 <= k < frames.Length ==> frames[k] == EMPTY
           else if rest[0].bytes[0] == PKT_START then
             && n == 2 && !Stale(rest[0].bytes, lastLoops)
             && frames[..] == old(frames[..])[i := FrameBuf(LoopOf(rest[0].bytes), rest[0].bytes)]
           else n == 1 && frames[..] == old(frames[..])[i := FrameBuf(0, rest[0].bytes)]
    {
      while arrivals != []
        invariant frames[..] == old(frames[..])
        invariant SkipStale(arrivals, lastLoops) == SkipStale(old(arrivals), lastLoops)
        decreases |arrivals|
      {
        var a := arrivals[0];
        ghost var before := arrivals;
        arrivals := arrivals[1..];
        if a.Reconnected? {
          ClearBuffers();
          return 0;
        }
        if a.bytes == [] {
          return 0;
        }
        if a.bytes[0] != PKT_START {
          frames[i] := FrameBuf(0, a.bytes);
          return 1;
        }
        if |a.bytes| < 5 {
          continue;
        }
        if LoopOf(a.bytes) > lastLoops {
          frames[i] := FrameBuf(LoopOf(a.bytes), a.bytes);
          return 2;
        }
      }
      return 0;
    }

    // Is the frame in buffer i also in an earlier buffer?
    method IsDuplicate(i: int) returns (dup: bool)
      requires 0 <= i < frames.Length
      ensures dup <==> exists j :: 0 <= j < i && frames[j].loops == frames[i].loops
    {
      var j := i - 1;
      while j >= 0
        invariant -1 <= j < i
        invariant forall k :: j < k < i ==> frames[k].loops != frames[i].loops
      {
        if frames[i].loops == frames[j].loops {
          return true;
        }
        j := j - 1;
      }
      return false;
    }

    // Read into the empty buffer i, and keep the packet unless it is a duplicate.
    // Returns 0 or 1 when reading ends, 2 when a frame has been added, and 3 when
    // a duplicate has been dropped.
    method ReadInto(i: int) returns (n: int)
      requires Slots(frames[..], used, lastLoops) && i == used < frames.Length && Waiting().other.None?
      requires frames.Length == 1 ==> used == 0
      modifies frames, this`arrivals, this`used
      ensures Slots(frames[..], used, lastLoops) && ReadResult(n, old(frames[..]), frames[..], i, used)
      ensures ReadGoal(n, old(frames[..]), i, old(arrivals), frames[..], used, arrivals, lastLoops)
      ensures n >= 2 ==> |arrivals| < |old(arrivals)|
    {
      ghost var fs := frames[..];
      ReadStep(fs, i, arrivals, lastLoops);
      n := NetRead(i);
      if n == 0 {
        used := NothingRead(fs, frames[..], i, old(arrivals), arrivals, lastLoops);
        return;
      }
      if n == 1 {
        ReadOther(fs, i, frames[i].bytes, lastLoops);
        used := used + 1;
        return;
      }
      n := KeepOrDrop(i, fs);
    }

    // A new frame has been read into buffer i.
    method KeepOrDrop(i: int, ghost fs: seq<FrameBuf>) returns (n: int)
      requires |fs| == frames.Length && 0 <= i == used < |fs| && fs[i] == EMPTY && Slots(fs, i, lastLoops)
      requires View(fs, i).other.None? && frames[..] == fs[i := frames[i]]
      requires frames[i].loops > lastLoops && frames[i].bytes != []
      modifies frames, this`used
      ensures n == if Numbered(fs, i, old(frames[i].loops)) then 3 else 2
      ensures n == 3 ==> frames[..] == fs && used == i
      ensures n == 2 ==> frames[..] == old(frames[..]) && used == i + 1 && Slots(frames[..], used, lastLoops)
      ensures n == 2 ==> Waiting() == Window(View(fs, i).held + {frames[i]}, None)
    {
      assert forall j :: 0 <= j < i ==> frames[j] == fs[j];
      var dup := IsDuplicate(i);
      if dup {
        frames[i] := EMPTY;
        assert frames[..] == fs;
        return 3;
      }
      ReadFrame(fs, i, frames[i], lastLoops);
      used := used + 1;
      n := 2;
    }

    method Exchange(i: int, j: int)
      requires 0 <= i < frames.Length && 0 <= j < frames.Length
      modifies frames
      ensures frames[..] == Swap(old(frames[..]), i, j)
    {
      frames[i], frames[j] := frames[j], frames[i];
    }

    // Put the oldest frame last, if it is not there, and empty the last buffer.
    method EmptyOldest(oldest: int)
      requires 1 < frames.Length && Slots(frames[..], frames.Length, lastLoops)
      requires LeastOf(frames[..], frames.Length, oldest)
      modifies frames
      ensures frames[..] == Swap(old(frames[..]), oldest, frames.Length - 1)[frames.Length - 1 := EMPTY]
    {
      var i := frames.Length - 1;
      ghost var fs := frames[..];
      if frames[oldest].loops < frames[i].loops {
        Exchange(oldest, i);
      } else {
        OldestIsLast(fs, oldest, lastLoops);
      }
      assert frames[..] == Swap(fs, oldest, i);
      frames[i] := EMPTY;
    }

    // All buffers hold frames: drop the oldest, so that the last buffer is empty.
    method DropFrame(oldest: int, ghost held: set<FrameBuf>)
      requires 1 < frames.Length == used && Slots(frames[..], used, lastLoops)
      requires LeastOf(frames[..], used, oldest)
      requires Waiting() == Window(held + {frames[used - 1]}, None)
      modifies frames, this`used
      ensures used == frames.Length - 1 && Slots(frames[..], used, lastLoops)
      ensures Waiting() == Window(Added(held, old(frames[used - 1]), frames.Length), None)
    {
      DropOldest(frames[..], held, frames[used - 1], oldest, lastLoops);
      EmptyOldest(oldest);
      used := used - 1;
    }

    // The state at buffer i: the earlier buffers hold frames, `oldest` the oldest.
    ghost predicate Scanning(i: int, oldest: int)
      reads this, frames
    {
      && Slots(frames[..], used, lastLoops) && 0 <= i <= used && LeastOf(frames[..], i, oldest)
      && (used < frames.Length || (frames.Length == 1 && i == 1))
    }

    // Go on from a buffer that holds a frame, or read into an empty one.  Returns
    // whether to go on, and where.
    method FillStep(i0: int, oldest0: int) returns (more: bool, i: int, oldest: int)
      requires Scanning(i0, oldest0) && i0 < frames.Length
      modifies frames, this`arrivals, this`used
      ensures more ==> Scanning(i, oldest)
      ensures more ==> |arrivals| < |old(arrivals)| || (arrivals == old(arrivals) && i == i0 + 1)
      ensures more ==> Fill(Waiting(), arrivals, frames.Length, lastLoops) ==
                       old(Fill(Waiting(), arrivals, frames.Length, lastLoops))
      ensures Slots(frames[..], used, lastLoops)
      ensures !more ==> (Waiting(), arrivals) == old(Fill(Waiting(), arrivals, frames.Length, lastLoops))
    {
      i, oldest := i0, oldest0;
      if frames[i].loops != 0 {
        assert i < used;
        if frames[i].loops < frames[oldest].loops || frames[oldest].loops == 0 {
          oldest := i;
        }
        return true, i + 1, oldest;
      }
      if frames[i].bytes != [] {
        return false, i, oldest;
      }
      NoOther(frames[..], used, lastLoops);
      more, i, oldest := ReadNext(i, oldest);
    }

    method ReadNext(i0: int, oldest0: int) returns (more: bool, i: int, oldest: int)
      requires Scanning(i0, oldest0) && i0 == used < frames.Length && Waiting().other.None?
      modifies frames, this`arrivals, this`used
      ensures more ==> Scanning(i, oldest) && |arrivals| < |old(arrivals)|
      ensures more ==> Fill(Waiting(), arrivals, frames.Length, lastLoops) ==
                       old(Fill(Waiting(), arrivals, frames.Length, lastLoops))
      ensures Slots(frames[..], used, lastLoops)
      ensures !more ==> (Waiting(), arrivals) == old(Fill(Waiting(), arrivals, frames.Length, lastLoops))
    {
      i, oldest := i0, oldest0;
      ghost var fs := frames[..];
      var n := ReadInto(i);
      if n <= 1 {
        return false, i, oldest;
      }
      if n == 2 {
        i, oldest := KeepFrame(i, oldest, View(fs, i).held);
      }
      more := true;
    }

    // A frame has been read into buffer i0.
    method KeepFrame(i0: int, oldest0: int, ghost held: set<FrameBuf>) returns (i: int, oldest: int)
      requires 0 <= i0 < frames.Length && used == i0 + 1 && Slots(frames[..], used, lastLoops)
      requires LeastOf(frames[..], i0, oldest0) && frames[i0].loops != 0
      requires Waiting() == Window(held + {frames[i0]}, None)
      modifies frames, this`used
      ensures Scanning(i, oldest)
      ensures Waiting() == Window(Added(held, old(frames[i0]), frames.Length), None)
    {
      oldest := oldest0;
      if frames[i0].loops < frames[oldest].loops {
        oldest := i0;
      }
      if i0 == frames.Length - 1 && i0 > 0 {
        DropFrame(oldest, held);
        return 0, 0;
      }
      CountHeld(frames[..], used, lastLoops);
      i := i0 + 1;
    }

    // Read packets until there are none, or one that is not a frame waits.
    method FillWindow()
      requires Valid()
      modifies frames, this`arrivals, this`used
      ensures Slots(frames[..], used, lastLoops)
      ensures Waiting() == old(Fill(Waiting(), arrivals, frames.Length, lastLoops).0)
      ensures arrivals == old(Fill(Waiting(), arrivals, frames.Length, lastLoops).1)
    {
      ghost var goal := Fill(Waiting(), arrivals, frames.Length, lastLoops);
      var i, oldest := 0, 0;
      while i < frames.Length
        invariant Scanning(i, oldest)
        invariant Fill(Waiting(), arrivals, frames.Length, lastLoops) == goal
        decreases |arrivals|, frames.Length - i
      {
        var more;
        more, i, oldest := FillStep(i, oldest);
        if !more {
          return;
        }
      }
      CountHeld(frames[..], used, lastLoops);
      NoOther(frames[..], used, lastLoops);
    }

    // Find the packet to process, and the last buffer in use: the oldest frame, or
    // the packet that is not a frame when no frame is left.
    method FindOldest() returns (oldest: int, last: int, count: int)
      requires 0 < frames.Length && 0 < used && Slots(frames[..], used, lastLoops)
      ensures last == used - 1 && count == used && 0 <= oldest < used
      ensures if Waiting().held != {} then IsOldest(Waiting().held, frames[oldest])
              else Waiting().other == Some(frames[oldest].bytes) && frames[oldest].loops == 0
    {
      oldest, last, count := 0, 0, 1;
      var i := 1;
      while i < frames.Length
        invariant 1 <= i <= used && last == i - 1 && count == i && OldestSoFar(frames[..], i, oldest)
      {
        if frames[i].loops == 0 {
          if frames[i].bytes == [] {
            break;
          }
        } else if frames[i].loops < frames[oldest].loops || frames[oldest].loops == 0 {
          oldest := i;
        }
        count := count + 1;
        i, last := i + 1, last + 1;
      }
      OldestFound(frames[..], used, oldest, lastLoops);
    }

    // Take the packet in buffer i out, without leaving a gap.
    method TakeOut(i: int, last: int) returns (f: FrameBuf)
      requires 0 <= i < used && last == used - 1 && Slots(frames[..], used, lastLoops)
      modifies frames, this`used
      ensures f == old(frames[i]) && used == old(used) - 1 && Slots(frames[..], used, lastLoops)
      ensures Waiting() ==
        old(Window(Waiting().held - {frames[i]}, if frames[i].loops == 0 then None else Waiting().other))
    {
      ghost var fs := frames[..];
      RemoveSlot(fs, used, i, lastLoops);
      f := frames[i];
      if last != i {
        Exchange(i, last);
      }
      frames[last] := EMPTY;
      assert frames[..] == Swap(fs, i, last)[last := EMPTY];
      used := used - 1;
    }

    // Process one packet.  `accepted` tells whether processing a frame has made its
    // number the last one seen.
    method NetInput(accepted: bool) returns (done: Option<FrameBuf>, count: int)
      requires Valid()
      modifies this, frames
      ensures Valid()
      ensures NetStep(old(Waiting()), old(arrivals), frames.Length, old(lastLoops), done, Waiting(), arrivals)
      ensures count == old(Fill(Waiting(), arrivals, frames.Length, lastLoops).0).Size()
      ensures lastLoops == if accepted && done.Some? && done.value.loops != 0 then done.value.loops else old(lastLoops)
    {
      FillWindow();
      CountHeld(frames[..], used, lastLoops);
      if frames[0].bytes == [] {
        return None, 0;
      }
      var f;
      f, count := ProcessOldest(accepted);
      done := Some(f);
    }

    // Take the oldest frame out of the buffers, or what is not a frame when no frame
    // is left, and process it.
    method ProcessOldest(accepted: bool) returns (f: FrameBuf, count: int)
      requires 0 < used && Slots(frames[..], used, lastLoops)
      modifies this`used, this`lastLoops, frames
      ensures used == old(used) - 1 && Slots(frames[..], used, lastLoops) && count == old(used)
      ensures Processes(old(Waiting()), Some(f), Waiting())
      ensures lastLoops == if accepted && f.loops != 0 then f.loops else old(lastLoops)
    {
      var oldest, last;
      oldest, last, count := FindOldest();
      ghost var w := Waiting();
      ViewIsDistinct(frames[..], used, lastLoops);
      f := TakeOut(oldest, last);
      OldestTaken(w, f, Waiting());
      if accepted && f.loops != 0 {
        NewerSlots(frames[..], used, lastLoops, f.loops);
        lastLoops := f.loops;
      }
    }
  }
}
