/** The sound slots of oalaudio.c: audioDeviceInit, audioDevicePlay and audioDeviceUpdate. */
module Sounds {
  import opened SoundLists

  const MAX_SOUNDS := 16

  // Slots are named by their place in the table; -1 stands for no slot, and samples
  // by a number.
  class SoundDevice {
    const next: array<int>
    const sample: array<int>
    const volume: array<int>
    const updated: array<int>
    var ring: int
    var looping: int
    ghost var ringSlots: seq<int>
    ghost var loopSlots: seq<int>

    ghost predicate Valid()
      reads this, next, sample, volume, updated
    {
      && next.Length == sample.Length == volume.Length == updated.Length
      && next != sample && next != volume && next != updated
        && sample != volume && sample != updated && volume != updated
      && IsRing(next[..], ring, ringSlots) && IsList(next[..], looping, loopSlots)
      && IsSplit(next.Length, ringSlots, loopSlots)
    }

    constructor ()
      ensures Valid() && loopSlots == [] && ringSlots == seq(MAX_SOUNDS, i => i)
    {
      next := new int[MAX_SOUNDS](i => (i + 1) % MAX_SOUNDS);
      sample := new int[MAX_SOUNDS](i => -1);
      volume := new int[MAX_SOUNDS](i => 0);
      updated := new int[MAX_SOUNDS](i => 0);
      ring, looping := 0, -1;
      ringSlots, loopSlots := seq(MAX_SOUNDS, i => i), [];
    }

    // A looping sound that plays already, nearly as loud, goes on where it is.
    method Refresh(wanted: int, loud: int, loops: int) returns (slot: int)
      requires Valid()
      modifies volume, updated
      ensures Valid()
      ensures var i := Playing(loopSlots, sample[..], old(volume[..]), wanted, loud);
        slot == if i < |loopSlots| then loopSlots[i] else -1
      ensures Touched(slot, old(volume[..]), volume[..], loud) && Touched(slot, old(updated[..]), updated[..], loops)
    {
      var iter := looping;
      ghost var i := 0;
      while iter != -1
        invariant 0 <= i <= Playing(loopSlots, sample[..], volume[..], wanted, loud)
        invariant iter == if i < |loopSlots| then loopSlots[i] else -1
        decreases |loopSlots| - i
      {
        if sample[iter] == wanted && -VOL_THRESHOLD < volume[iter] - loud < VOL_THRESHOLD {
          volume[iter] := loud;
          updated[iter] := loops;
          return iter;
        }
        assert Points(next[..], loopSlots, i, -1);
        iter := next[iter];
        i := i + 1;
      }
      slot := -1;
    }

    // The slot after the first of the ring moves to the front of the looping list.
    method StartLooping() returns (slot: int)
      requires Valid() && |ringSlots| > 1
      modifies this, next
      ensures Valid() && slot == old(ringSlots)[1]
      ensures ringSlots == [old(ringSlots)[0]] + old(ringSlots)[2..] && loopSlots == [slot] + old(loopSlots)
    {
      slot := next[ring];
      assert Points(next[..], ringSlots, 0, ringSlots[0]) && ringSlots[0] != slot;
      next[ring] := next[slot];
      next[slot] := looping;
      StartedLeavesRing(old(next[..]), next[..], ringSlots, loopSlots);
      StartedJoinsList(old(next[..]), next[..], looping, ringSlots, loopSlots);
      StartedSplits(next.Length, ringSlots, loopSlots);
      looping := slot;
      ringSlots, loopSlots := [ringSlots[0]] + ringSlots[2..], [slot] + loopSlots;
    }

    // The slot that plays now, or -1: a looping sound that is playing already goes on
    // where it is, any other takes the next slot of the ring, if one is to spare.
    method Play(wanted: int, loop: bool, loud: int, loops: int) returns (slot: int)
      requires Valid()
      modifies this, next, sample, volume, updated
      ensures Valid()
      ensures var i := Playing(old(loopSlots), old(sample[..]), old(volume[..]), wanted, loud);
        if loop && i < |old(loopSlots)| then
          slot == old(loopSlots)[i] && sample[..] == old(sample[..])
            && ringSlots == old(ringSlots) && loopSlots == old(loopSlots)
        else if |old(ringSlots)| == 1 then
          slot == -1 && sample[..] == old(sample[..]) && ringSlots == old(ringSlots) && loopSlots == old(loopSlots)
        else
          && slot == old(ringSlots)[1] && Touched(slot, old(sample[..]), sample[..], wanted)
          && (if loop then
                ringSlots == [old(ringSlots)[0]] + old(ringSlots)[2..] && loopSlots == [slot] + old(loopSlots)
              else
                ringSlots == old(ringSlots)[1..] + [old(ringSlots)[0]] && loopSlots == old(loopSlots))
      ensures Touched(slot, old(volume[..]), volume[..], loud) && Touched(slot, old(updated[..]), updated[..], loops)
    {
      if loop {
        slot := Refresh(wanted, loud, loops);
        if slot != -1 {
          return;
        }
      }
      assert Points(next[..], ringSlots, 0, ringSlots[0]) && (|ringSlots| > 1 ==> ringSlots[0] != ringSlots[1]);
      if next[ring] == ring {
        return -1;
      }
      if loop {
        slot := StartLooping();
      } else {
        slot := next[ring];
        RingTurned(next[..], ringSlots, loopSlots);
        ring := slot;
        ringSlots := ringSlots[1..] + [ringSlots[0]];
      }
      sample[slot] := wanted;
      volume[slot] := loud;
      updated[slot] := loops;
    }

    // Looping sounds that were not heard in the last frame go back to the ring.
    method Update(loops: int)
      requires Valid()
      modifies this, next
      ensures Valid() && InTable(old(loopSlots), updated.Length)
      ensures loopSlots == Kept(old(loopSlots), updated[..], loops)
      ensures ringSlots ==
        [old(ringSlots)[0]] + Reversed(Stopped(old(loopSlots), updated[..], loops)) + old(ringSlots)[1..]
    {
      var prev, iter := -1, looping;
      ghost var kept, stopped, rest := [], [], loopSlots;
      assert kept + rest == loopSlots && ringSlots == [ringSlots[0]] + stopped + ringSlots[1..];
      while iter != -1
        invariant Updating(prev, iter, kept, stopped, rest, old(loopSlots), old(ringSlots), loops)
        invariant updated[..] == old(updated[..])
        decreases |rest|
      {
        prev, iter, kept, stopped := UpdateOne(prev, iter, kept, stopped, rest, old(loopSlots), old(ringSlots), loops);
        rest := rest[1..];
      }
    }

    // The list is walked up to iter; prev is the last slot kept.
    ghost predicate Updating(prev: int, iter: int, kept: seq<int>, stopped: seq<int>, rest: seq<int>,
      list: seq<int>, slots: seq<int>, loops: int)
      reads this, next, sample, volume, updated
    {
      && Valid() && loopSlots == kept + rest && slots != [] && ringSlots == [slots[0]] + stopped + slots[1..]
      && prev == (if kept == [] then -1 else kept[|kept| - 1])
      && iter == (if rest == [] then -1 else rest[0])
      && Divided(list, kept, stopped, rest, updated[..], loops)
    }

    method UpdateOne(prev: int, iter: int, ghost kept: seq<int>, ghost stopped: seq<int>, ghost rest: seq<int>,
      ghost list: seq<int>, ghost slots: seq<int>, loops: int)
      returns (last: int, following: int, ghost kept': seq<int>, ghost stopped': seq<int>)
      requires Updating(prev, iter, kept, stopped, rest, list, slots, loops) && iter != -1
      modifies this, next
      ensures Updating(last, following, kept', stopped', rest[1..], list, slots, loops)
    {
      DividedOn(list, kept, stopped, rest, updated[..], loops);
      if updated[iter] < loops - 1 {
        RingGrows(slots, stopped, iter, ringSlots);
        last, kept', stopped' := prev, kept, [iter] + stopped;
        following := Stop(prev, iter, kept, rest);
      } else {
        NextInList(next[..], looping, kept, rest);
        last, following := iter, next[iter];
        kept', stopped' := kept + [rest[0]], stopped;
      }
    }

    // Moves one slot from the looping list to the ring.
    method Stop(prev: int, it: int, ghost kept: seq<int>, ghost rest: seq<int>) returns (iter: int)
      requires Valid() && loopSlots == kept + rest && rest != [] && it == rest[0]
      requires prev == if kept == [] then -1 else kept[|kept| - 1]
      modifies this, next
      ensures Valid() && loopSlots == kept + rest[1..] && ringSlots == [old(ringSlots)[0], it] + old(ringSlots)[1..]
      ensures iter == if |rest| == 1 then -1 else rest[1]
    {
      SplitMoved(next.Length, ringSlots, kept, rest);
      assert (kept + rest)[|kept|] == it && (kept != [] ==> (kept + rest)[|kept| - 1] == prev);
      NextInList(next[..], looping, kept, rest);
      assert ringSlots[0] != it;
      if prev != -1 {
        next[prev] := next[it];
      } else {
        looping := next[it];
      }
      iter := next[it];
      next[it] := next[ring];
      next[ring] := it;
      StoppedLeavesList(old(next[..]), next[..], old(looping), looping, kept, rest, ringSlots);
      StoppedJoinsRing(old(next[..]), next[..], old(looping), looping, kept, rest, ringSlots);
      ringSlots, loopSlots := [ringSlots[0], it] + ringSlots[1..], kept + rest[1..];
    }
  }
}
