/**
 The loop of `CAN_Interrupt` while nothing else happens, as far as its end depends on it: frames in the
 controller, and free slots in the receive queue.
 */
module QuietBus {
  import opened Words

  /** Frames in the controller, free slots in the receive queue, error messages that the next pass has to report. */
  datatype Load = Load(frames: nat, room: nat, errors: nat)

  function AfterPass(l: Load): Load {
    var took := Min(l.room, One(l.frames > 0) + l.errors);
    Load(if l.frames > 0 && l.room > 0 then l.frames - 1 else l.frames, l.room - took, 0)
  }

  function AfterPasses(l: Load, k: nat): Load
    decreases k
  {
    if k == 0 then l else AfterPasses(AfterPass(l), k - 1)
  }

  /** Every frame finds a slot: those after the first only behind the error messages. */
  predicate EveryFrameFits(l: Load) {
    l.frames == 0 || (l.frames == 1 && l.room >= 1) || l.room >= l.frames + l.errors
  }

  lemma {:induction false} LoopEnds(l: Load)
    requires EveryFrameFits(l)
    ensures AfterPasses(l, l.frames).frames == 0
    decreases l.frames
  {
    if l.frames > 0 { LoopEnds(AfterPass(l)); }
  }

  lemma {:induction false} LoopGoesOn(l: Load, k: nat)
    requires !EveryFrameFits(l)
    ensures AfterPasses(l, k).frames > 0
    decreases k
  {
    if k > 0 { LoopGoesOn(AfterPass(l), k - 1); }
  }

  /**
   On a quiet bus, with nobody reading, the loop of the handler ends exactly if every frame fits.
   Otherwise the last frames stay in the controller, their interrupt stays on, and the loop goes round for ever.
   */
  lemma LoopEndsExactlyIfEveryFrameFits(l: Load)
    ensures (exists k: nat :: AfterPasses(l, k).frames == 0) <==> EveryFrameFits(l)
  {
    if EveryFrameFits(l) {
      LoopEnds(l);
    } else {
      forall k: nat ensures AfterPasses(l, k).frames != 0 { LoopGoesOn(l, k); }
    }
  }

  /** Free slots when all is done. */
  function RoomLeft(l: Load): int {
    if l.room <= l.frames + l.errors then 0 else l.room - l.frames - l.errors
  }

  lemma PassKeepsFit(l: Load)
    requires EveryFrameFits(l)
    ensures EveryFrameFits(AfterPass(l)) && AfterPass(l).errors == 0
    ensures AfterPass(l).frames == if l.frames > 0 then l.frames - 1 else 0
  {
  }

  lemma PassKeepsRoomLeft(l: Load)
    requires EveryFrameFits(l)
    ensures RoomLeft(AfterPass(l)) == RoomLeft(l)
  {
    if l.room >= l.frames + l.errors {
      assert AfterPass(l).room == l.room - One(l.frames > 0) - l.errors;
    } else {
      assert AfterPass(l) == Load(0, 0, 0);
    }
  }

  lemma {:induction false} OnePassMore(l: Load, k: nat)
    ensures AfterPasses(l, k + 1) == AfterPass(AfterPasses(l, k))
    decreases k
  {
    if k > 0 { OnePassMore(AfterPass(l), k - 1); }
  }

  lemma {:induction false} PassesKeepFit(l: Load, k: nat)
    requires EveryFrameFits(l)
    ensures EveryFrameFits(AfterPasses(l, k)) && RoomLeft(AfterPasses(l, k)) == RoomLeft(l)
    decreases k
  {
    if k > 0 {
      PassKeepsFit(l);
      PassKeepsRoomLeft(l);
      PassesKeepFit(AfterPass(l), k - 1);
    }
  }
}
