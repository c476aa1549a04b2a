/**
 `CAN_Interrupt` on a quiet bus: what it leaves behind, and exactly when it comes to an end.
 */
module Interrupt {
  import opened Words
  import opened CanTypes
  import opened Codec
  import opened Rings
  import opened Sja1000
  import opened MsgQueue
  import opened Device
  import opened Receive
  import opened QuietBus
  import opened Configured

  // ---------------------------------------------------------------- what a pass adds

  lemma ReportIsSeen(m: Msg, r: Report, sec: int, usec: int)
    requires Reports(m, r, sec, usec) && (r.FrameReport? ==> PlainFlags(r.flags))
    ensures Frames(Sight(), [m]) == if r.FrameReport? then [Decode(r.w)] else []
  {
    match r
    case FrameReport(w, flags) =>
      var o: Msg :| m == Received(w, o, flags, sec, usec);
      SeenIsDecoded(w, o, flags, sec, usec);
    case ErrorReport(_) =>
  }

  /** The frames among reports. */
  function FramesIn(rs: seq<Report>): seq<Frame> {
    if rs == [] then []
    else FramesIn(rs[..|rs| - 1]) + (if rs[|rs| - 1].FrameReport? then [Decode(rs[|rs| - 1].w)] else [])
  }

  lemma {:induction false} TookIsSeen(ms: seq<Msg>, rs: seq<Report>, sec: int, usec: int)
    requires |ms| == |rs| && forall k :: 0 <= k < |ms| ==> Reports(ms[k], rs[k], sec, usec)
    requires forall k :: 0 <= k < |rs| && rs[k].FrameReport? ==> PlainFlags(rs[k].flags)
    ensures Frames(Sight(), ms) == FramesIn(rs)
    decreases |ms|
  {
    hide Reports, Decode, PlainFlags, Frames, Sight;
    if ms == [] {
      NothingSeen([]);
    } else {
      var n := |ms| - 1;
      TookIsSeen(ms[..n], rs[..n], sec, usec);
      FramesConcat(Sight(), ms[..n], [ms[n]]);
      assert ms == ms[..n] + [ms[n]];
      ReportIsSeen(ms[n], rs[n], sec, usec);
    }
  }

  lemma ToldShape(src: Irq, fifo: seq<Image>, base: nat, bits: nat, dos: bool)
    requires src.ri ==> fifo != []
    ensures var rs := Told(src, fifo, base, bits, dos);
            && |rs| == One(src.ri) + One(src.ei) + One(src.di)
            && (forall k :: 1 <= k < |rs| ==> rs[k].ErrorReport?)
            && (rs != [] ==> if src.ri then rs[0] == FrameReport(fifo[0], base) else rs[0].ErrorReport?)
  {
  }

  /** The frame comes first: it is taken whenever there is any room. */
  lemma PassIsSeen(ms: seq<Msg>, src: Irq, fifo: seq<Image>, overrun: bool, bits: nat, dos: bool,
                   room: nat, sec: int, usec: int)
    requires src.ri ==> fifo != []
    requires TookFirst(ms, Told(src, fifo, BaseFlags(overrun), bits, dos), room, sec, usec)
    ensures |ms| == Min(room, One(src.ri) + One(src.ei) + One(src.di))
    ensures Frames(Sight(), ms) == if src.ri && room > 0 then [Decode(fifo[0])] else []
  {
    hide Received, Decode, Driver.ErrorMsg, Frames, Reports, Told, FramesIn;
    ToldShape(src, fifo, BaseFlags(overrun), bits, dos);
    var rs := Told(src, fifo, BaseFlags(overrun), bits, dos);
    ReadFlagsArePlain(overrun);
    TookIsSeen(ms, rs[..|ms|], sec, usec);
    OnlyFirstIsFrame(rs[..|ms|]);
  }

  lemma {:induction false} OnlyFirstIsFrame(rs: seq<Report>)
    requires forall k :: 1 <= k < |rs| ==> rs[k].ErrorReport?
    ensures FramesIn(rs) == if rs != [] && rs[0].FrameReport? then [Decode(rs[0].w)] else []
    decreases |rs|
  {
    if |rs| == 1 {
      assert rs[..0] == [];
    } else if |rs| > 1 {
      OnlyFirstIsFrame(rs[..|rs| - 1]);
    }
  }

  // ---------------------------------------------------------------- CAN_Interrupt

  ghost function LoadOf(dev: Dev, errors: nat): Load
    requires dev.rxq.Ready()
    reads dev.chip`fifo
    reads dev.rxq`produced, dev.rxq`consumed, dev.rxq`made, dev.rxq`taken, dev.rxq`mask, dev.rxq`data, dev.rxq.data
  {
    dev.rxq.QueuedFits();
    Load(|dev.chip.fifo|, dev.rxq.data.Length - |dev.rxq.Queued()|, errors)
  }

  lemma LoadIs(dev: Dev, errors: nat)
    requires dev.rxq.Ready()
    ensures LoadOf(dev, errors) == Load(|dev.chip.fifo|, dev.rxq.data.Length - |dev.rxq.Queued()|, errors)
  {
  }

  lemma FirstTaken(fifo: seq<Image>, room: nat)
    ensures var n := if fifo != [] && room > 0 then 1 else 0;
            && DecodeAll(Sight(), fifo)
               == (if fifo != [] && room > 0 then [Decode(fifo[0])] else []) + DecodeAll(Sight(), fifo[n..])
            && forall e: nat :: AfterPass(Load(|fifo|, room, e)) == Load(|fifo[n..]|, room - Min(room, One(fifo != []) + e), 0)
  {
    hide Decode;
    if fifo != [] && room > 0 {
      assert fifo == [fifo[0]] + fifo[1..];
      DecodeAllConcat(Sight(), [fifo[0]], fifo[1..]);
      assert DecodeAll(Sight(), [fifo[0]]) == [Decode(fifo[0])];
    }
  }

  /** One pass, seen from the receive queue. */
  method RunPass(dev: Dev, src: Irq, sec: int, usec: int) returns (ghost ms: seq<Msg>)
    requires dev.Valid() && src.ri == (dev.chip.fifo != [])
    requires (src.ti || src.ei) && dev.txq.Queued() != [] ==> dev.txq.Queued()[0].length >= 0
    modifies dev`overrun, dev`woken, dev.rxq`produced, dev.rxq`made, dev.rxq.data, dev.chip`fifo, dev.chip`dos, dev.chip`mode
    modifies dev`txinprogress, dev`timer, dev`frames, dev.txq`idle, dev.txq`consumed, dev.txq`taken, dev.txq.data
    modifies dev.chip`locked, dev.chip`requested, dev.chip.window, dev.chip.filter
    ensures dev.Valid() && dev.rxq.Queued() == old(dev.rxq.Queued()) + ms
    ensures LoadOf(dev, 0) == AfterPass(old(LoadOf(dev, One(src.ei) + One(src.di))))
    ensures |ms| == old(LoadOf(dev, 0)).room - LoadOf(dev, 0).room
    ensures Frames(Sight(), ms) + DecodeAll(Sight(), dev.chip.fifo) == DecodeAll(Sight(), old(dev.chip.fifo))
    ensures dev.View() == old(dev.Served(src))
  {
    hide *;
    dev.QueuesFit();
    LoadIs(dev, 0);
    LoadIs(dev, One(src.ei) + One(src.di));
    ghost var q, fifo, overrun, dos := dev.rxq.Queued(), dev.chip.fifo, dev.overrun, dev.chip.dos;
    ms := dev.HandlePass(src, sec, usec);
    dev.QueuesFit();
    LoadIs(dev, 0);
    ghost var room := dev.rxq.data.Length - |q|;
    PassIsSeen(ms, src, fifo, overrun, ErrorBits(dev.chip.busoff, dev.chip.errstatus), dos, room, sec, usec);
    FirstTaken(fifo, room);
  }

  /**
   A frame finds the queue full, some messages are read, and the handler looks again: the same frame is
   queued, bit 7 of its flags is set, and the mark is gone.
   */
  method OverrunIsTold(dev: Dev, count: nat, sec: int, usec: int) returns (read: seq<Msg>, ghost told: seq<Msg>)
    requires dev.Valid() && dev.chip.fifo != [] && |dev.rxq.Queued()| == dev.rxq.data.Length && count > 0
    modifies dev`overrun, dev`woken, dev.rxq`produced, dev.rxq`made, dev.rxq.data, dev.chip`fifo, dev.chip`dos, dev.chip`mode
    modifies dev`txinprogress, dev`timer, dev`frames, dev.txq`idle, dev.txq`consumed, dev.txq`taken, dev.txq.data
    modifies dev.chip`locked, dev.chip`requested, dev.chip.window, dev.chip.filter
    modifies dev.rxq`idle, dev.rxq`consumed, dev.rxq`taken
    ensures dev.Valid() && |told| == 1 && !dev.overrun && dev.chip.fifo == old(dev.chip.fifo)[1..]
    ensures read + dev.rxq.Queued() == old(dev.rxq.Queued()) + told
    ensures IsFrame(told[0], old(dev.chip.fifo)[0], true, sec, usec)
  {
    hide *;
    var src := Irq(true, false, false, false);
    dev.QueuesFit();
    HasSlots(dev.rxq);
    ghost var q, fifo, was, dos := dev.rxq.Queued(), dev.chip.fifo, dev.overrun, dev.chip.dos;
    ghost var none := dev.HandlePass(src, sec, usec);
    OnlyFrameTold(none, 0, fifo, was, dev.chip.busoff, dev.chip.errstatus, dos, sec, usec);
    dev.QueuesFit();
    assert none == [] && q + [] == q;
    assert dev.rxq.Queued() == q && dev.chip.fifo == fifo;
    read := dev.CanRead(count);
    dev.QueuesFit();
    OnlyRead(q, count);
    ghost var room := dev.Room();
    assert read == q[..Min(count, |q|)];
    assert room == |read| > 0;
    dos := dev.chip.dos;
    told := dev.HandlePass(src, sec, usec);
    OnlyFrameTold(told, room, fifo, true, dev.chip.busoff, dev.chip.errstatus, dos, sec, usec);
    assert read + (q[|read|..] + told) == read + q[|read|..] + told;
  }

  lemma HasSlots(q: MsgQ)
    requires q.Ready()
    ensures q.data.Length > 0
  {
    RingSizeBounds(q.data.Length);
  }

  lemma OnlyRead(q: seq<Msg>, count: nat)
    requires count > 0 && q != []
    ensures 0 < Min(count, |q|) <= |q| && q[..Min(count, |q|)] + q[Min(count, |q|)..] == q
  {
  }

  lemma OnlyFrameTold(ms: seq<Msg>, room: nat, fifo: seq<Image>, overrun: bool, busoff: bool, errstatus: bool, dos: bool,
                      sec: int, usec: int)
    requires PassTold(ms, room, Irq(true, false, false, false), fifo, overrun, busoff, errstatus, dos, sec, usec)
    ensures fifo != [] && |ms| == (if room > 0 then 1 else 0) && (room > 0 ==> IsFrame(ms[0], fifo[0], overrun, sec, usec))
    ensures Overruns(Irq(true, false, false, false), room, overrun) <==> room == 0
  {
  }

  /** The interrupt bits are about to be handled, and nothing else will come up. */
  ghost predicate Pending(dev: Dev, src: Irq)
    reads dev.chip`fifo, dev.chip`warn, dev.chip`txint, dev.chip`ovrint
  {
    src.ri == (dev.chip.fifo != []) && !dev.chip.warn && !dev.chip.txint && !dev.chip.ovrint
  }

  /** The error messages that a pass over these bits has to report. */
  function Due(src: Irq): nat {
    One(src.ei) + One(src.di)
  }

  lemma DueIs(src: Irq)
    ensures Due(src) == One(src.ei) + One(src.di)
    ensures !src.ei && !src.di ==> Due(src) == 0
  {
  }

  /** One turn of the loop. */
  method Turn(dev: Dev, src: Irq, sec: int, usec: int) returns (next: Irq, ghost ms: seq<Msg>)
    requires dev.Valid() && Pending(dev, src)
    requires (src.ti || src.ei) && dev.txq.Queued() != [] ==> dev.txq.Queued()[0].length >= 0
    modifies dev`overrun, dev`woken, dev.rxq`produced, dev.rxq`made, dev.rxq.data, dev.chip`fifo, dev.chip`dos, dev.chip`mode
    modifies dev`txinprogress, dev`timer, dev`frames, dev.txq`idle, dev.txq`consumed, dev.txq`taken, dev.txq.data
    modifies dev.chip`locked, dev.chip`requested, dev.chip.window, dev.chip.filter
    modifies dev.chip`warn, dev.chip`txint, dev.chip`ovrint
    ensures dev.Valid() && Pending(dev, next) && next == Irq(next.ri, false, false, false)
    ensures dev.rxq.Ready() && dev.txq.Ready() && dev.rxq.Queued() == old(dev.rxq.Queued()) + ms
    ensures LoadOf(dev, Due(next)) == AfterPass(old(LoadOf(dev, Due(src))))
    ensures |ms| == old(LoadOf(dev, 0)).room - LoadOf(dev, 0).room
    ensures Frames(Sight(), ms) + DecodeAll(Sight(), dev.chip.fifo) == DecodeAll(Sight(), old(dev.chip.fifo))
    ensures dev.View() == old(dev.Served(src))
  {
    hide *;
    dev.QueuesFit();
    PendingIs(dev, src);
    DueIs(src);
    ms := RunPass(dev, src, sec, usec);
    dev.QueuesFit();
    LoadIs(dev, 0);
    next := dev.chip.ReadIrq();
    DueIs(next);
    LoadIs(dev, 0);
    PendingIs(dev, next);
  }

  lemma PendingIs(dev: Dev, src: Irq)
    ensures Pending(dev, src)
        <==> src.ri == (dev.chip.fifo != []) && !dev.chip.warn && !dev.chip.txint && !dev.chip.ovrint
  {
  }

  lemma AnyIs(src: Irq)
    ensures src.Any() <==> src.ri || src.ei || src.ti || src.di
  {
  }

  /** Everything has been handled: the numbers of messages add up. */
  lemma AllHandled(l: Load, took: int, l': Load)
    requires RoomLeft(l') == RoomLeft(l) && l'.frames == 0 && l'.errors == 0 && took == l.room - l'.room
    ensures took == Min(l.room, l.frames + l.errors)
  {
  }

  /** The do-while loop, from the bits that were read before it. */
  method Loop(dev: Dev, first: Irq, clock: nat -> (int, int)) returns (last: Irq, ghost ms: seq<Msg>)
    requires dev.Valid() && Pending(dev, first) && EveryFrameFits(LoadOf(dev, Due(first)))
    requires dev.txq.Queued() != [] ==> dev.txq.Queued()[0].length >= 0
    modifies dev`overrun, dev`woken, dev.rxq`produced, dev.rxq`made, dev.rxq.data, dev.chip`fifo, dev.chip`dos, dev.chip`mode
    modifies dev`txinprogress, dev`timer, dev`frames, dev.txq`idle, dev.txq`consumed, dev.txq`taken, dev.txq.data
    modifies dev.chip`locked, dev.chip`requested, dev.chip.window, dev.chip.filter
    modifies dev.chip`warn, dev.chip`txint, dev.chip`ovrint
    ensures dev.Valid() && Pending(dev, last) && !last.Any()
    ensures dev.rxq.Queued() == old(dev.rxq.Queued()) + ms
    ensures Frames(Sight(), ms) + DecodeAll(Sight(), dev.chip.fifo) == DecodeAll(Sight(), old(dev.chip.fifo))
    ensures RoomLeft(LoadOf(dev, Due(last))) == old(RoomLeft(LoadOf(dev, Due(first))))
    ensures |ms| == old(LoadOf(dev, 0).room) - LoadOf(dev, 0).room
    ensures dev.View() == old(dev.Served(first))
  {
    hide *;
    dev.QueuesFit();
    ghost var q, fifo, load := dev.rxq.Queued(), dev.chip.fifo, LoadOf(dev, Due(first));
    ghost var room, served := LoadOf(dev, 0).room, dev.Served(first);
    NothingSeen(fifo);
    NoPass(load);
    ms := [];
    last := first;
    var k := 0;
    while last.Any()
      invariant dev.Valid() && dev.rxq.Ready() && dev.txq.Ready() && Pending(dev, last)
      invariant LoadOf(dev, Due(last)) == AfterPasses(load, k)
      invariant k > 0 ==> last == Irq(last.ri, false, false, false)
      invariant k == 0 ==> dev.txq.Queued() != [] ==> dev.txq.Queued()[0].length >= 0
      invariant dev.rxq.Queued() == q + ms && |ms| == room - LoadOf(dev, 0).room
      invariant Frames(Sight(), ms) + DecodeAll(Sight(), dev.chip.fifo) == DecodeAll(Sight(), fifo)
      invariant if k == 0 then dev.Served(last) == served else dev.View() == served
      decreases k == 0, LoadOf(dev, Due(last)).frames
    {
      if k > 0 { dev.NothingServed(last); }
      AnyMeansFrames(dev, last);
      ghost var more;
      last, more := Turn(dev, last, clock(k).0, clock(k).1);
      FramesConcat(Sight(), ms, more);
      OnePassMore(load, k);
      PassesKeepFit(load, k);
      PassKeepsFit(AfterPasses(load, k));
      ms := ms + more;
      k := k + 1;
    }
    PassesKeepFit(load, k);
    AnyIs(last);
    dev.NothingServed(last);
  }

  lemma NoPass(l: Load)
    ensures AfterPasses(l, 0) == l
  {
  }

  /** When the other bits are clear, the loop goes round for the sake of a frame. */
  lemma AnyMeansFrames(dev: Dev, src: Irq)
    requires dev.rxq.Ready() && Pending(dev, src)
    ensures src.Any() && src == Irq(src.ri, false, false, false) ==> LoadOf(dev, Due(src)).frames > 0
    ensures LoadOf(dev, Due(src)).frames > 0 ==> src.Any()
  {
    LoadIs(dev, Due(src));
  }

  /**
   When not every frame fits, the loop does not end: after any number of turns the load is the one that
   AfterPasses counts, frames are left, and the loop condition holds again.
   */
  method Spin(dev: Dev, first: Irq, turns: nat, clock: nat -> (int, int)) returns (last: Irq, ghost ms: seq<Msg>)
    requires dev.Valid() && Pending(dev, first) && !EveryFrameFits(LoadOf(dev, Due(first)))
    requires dev.txq.Queued() != [] ==> dev.txq.Queued()[0].length >= 0
    modifies dev`overrun, dev`woken, dev.rxq`produced, dev.rxq`made, dev.rxq.data, dev.chip`fifo, dev.chip`dos, dev.chip`mode
    modifies dev`txinprogress, dev`timer, dev`frames, dev.txq`idle, dev.txq`consumed, dev.txq`taken, dev.txq.data
    modifies dev.chip`locked, dev.chip`requested, dev.chip.window, dev.chip.filter
    modifies dev.chip`warn, dev.chip`txint, dev.chip`ovrint
    ensures dev.Valid() && Pending(dev, last) && last.Any() && dev.chip.fifo != []
    ensures LoadOf(dev, Due(last)) == AfterPasses(old(LoadOf(dev, Due(first))), turns)
    ensures dev.rxq.Queued() == old(dev.rxq.Queued()) + ms
    ensures Frames(Sight(), ms) + DecodeAll(Sight(), dev.chip.fifo) == DecodeAll(Sight(), old(dev.chip.fifo))
  {
    hide *;
    dev.QueuesFit();
    ghost var q, fifo, load := dev.rxq.Queued(), dev.chip.fifo, LoadOf(dev, Due(first));
    NothingSeen(fifo);
    NoPass(load);
    ms := [];
    last := first;
    for k := 0 to turns
      invariant dev.Valid() && dev.rxq.Ready() && dev.txq.Ready() && Pending(dev, last)
      invariant LoadOf(dev, Due(last)) == AfterPasses(load, k)
      invariant k > 0 ==> last == Irq(last.ri, false, false, false)
      invariant k == 0 ==> dev.txq.Queued() != [] ==> dev.txq.Queued()[0].length >= 0
      invariant dev.rxq.Queued() == q + ms
      invariant Frames(Sight(), ms) + DecodeAll(Sight(), dev.chip.fifo) == DecodeAll(Sight(), fifo)
    {
      ghost var more;
      last, more := Turn(dev, last, clock(k).0, clock(k).1);
      FramesConcat(Sight(), ms, more);
      OnePassMore(load, k);
      ms := ms + more;
    }
    LoopGoesOn(load, turns);
    LoadIs(dev, Due(last));
    AnyMeansFrames(dev, last);
  }

  lemma NothingSeen(fifo: seq<Image>)
    ensures Frames(Sight(), []) + DecodeAll(Sight(), fifo) == DecodeAll(Sight(), fifo)
    ensures forall ms: seq<Msg> :: Frames(Sight(), ms) + DecodeAll(Sight(), []) == Frames(Sight(), ms)
  {
  }

  /**
   `CAN_Interrupt` on a quiet bus with nobody reading, when every frame fits: it ends, and leaves exactly
   the frames of the controller behind what was queued, in order, and as many error messages as fit.
   The transmit interrupt, real or simulated, is served once.  `clock` gives the time at each pass.
   */
  method CanInterrupt(dev: Dev, clock: nat -> (int, int)) returns (ghost ms: seq<Msg>)
    requires dev.Valid() && (dev.txq.Queued() != [] ==> dev.txq.Queued()[0].length >= 0)
    requires EveryFrameFits(LoadOf(dev, One(dev.chip.warn) + One(dev.chip.ovrint)))
    modifies dev`overrun, dev`woken, dev.rxq`produced, dev.rxq`made, dev.rxq.data, dev.chip`fifo, dev.chip`dos, dev.chip`mode
    modifies dev`txinprogress, dev`timer, dev`frames, dev.txq`idle, dev.txq`consumed, dev.txq`taken, dev.txq.data
    modifies dev.chip`locked, dev.chip`requested, dev.chip.window, dev.chip.filter
    modifies dev.chip`warn, dev.chip`txint, dev.chip`ovrint
    ensures dev.Valid() && Pending(dev, Irq(false, false, false, false))
    ensures dev.rxq.Queued() == old(dev.rxq.Queued()) + ms
    ensures Frames(Sight(), ms) == DecodeAll(Sight(), old(dev.chip.fifo))
    ensures |ms| == old(Min(LoadOf(dev, 0).room, |dev.chip.fifo| + (One(dev.chip.warn) + One(dev.chip.ovrint))))
    ensures dev.View() == old(dev.Served(Irq(dev.chip.fifo != [], dev.chip.warn, dev.chip.txint, dev.chip.ovrint)))
  {
    hide *;
    dev.QueuesFit();
    var irqsrc := dev.chip.ReadIrq();
    PendingIs(dev, irqsrc);
    LoadIs(dev, 0);
    DueIs(irqsrc);
    LoadIs(dev, Due(irqsrc));
    ghost var load := LoadOf(dev, Due(irqsrc));
    irqsrc, ms := Loop(dev, irqsrc, clock);
    dev.QueuesFit();
    AnyIs(irqsrc);
    PendingIs(dev, irqsrc);
    DueIs(irqsrc);
    NothingSeen([]);
    LoadIs(dev, 0);
    AllHandled(load, |ms|, LoadOf(dev, 0));
  }
}
