/**
 One open CAN channel in memory: the routines of write.c, read.c and sja1000funcs.c on the device
 record, run without interference.  What they do while others run is the subject of module Driver.
 */
module Device {
  import opened Words
  import opened Bits
  import opened CanTypes
  import opened Codec
  import opened Rings
  import opened MsgQueue
  import opened Sja1000
  import Driver

  /** What the transmit side is in the middle of; `wire` are the frames requested so far. */
  datatype TxView = TxView(queue: seq<Msg>, idle: bool, inprogress: bool, timer: int, wire: seq<Frame>)

  /**
   One look of a consumer at the queue: park it, delay its head, or hand its head to the controller,
   which may be unable to take it.
   */
  function Consumed(v: TxView, baud: int, taken: bool): TxView
    requires baud > 0 && (v.queue != [] ==> v.queue[0].length >= 0)
  {
    if v.queue == [] then v.(idle := true)
    else
      var m := Capped(v.queue[0]);
      if Delay(m, baud) > 0 then
        v.(queue := [m.(usec := 0)] + v.queue[1..], timer := Delay(m, baud))
      else
        v.(queue := v.queue[1..], inprogress := true, wire := if taken then v.wire + [Wire(m)] else v.wire)
  }

  /** What a pass of the interrupt handler has to tell the reader, with the flags and the time it notes. */
  datatype Report = FrameReport(w: Image, flags: nat) | ErrorReport(flags: nat)

  /** The message reports that; its slot may have held anything before. */
  ghost predicate Reports(m: Msg, r: Report, sec: int, usec: int) {
    match r
    case FrameReport(w, flags) => exists o: Msg :: m == Received(w, o, flags, sec, usec)
    case ErrorReport(flags) => exists o: Msg :: m == Driver.ErrorMsg(o, flags, sec, usec)
  }

  /** Of the reports `rs`, in their order, as many as `room` allows. */
  ghost predicate TookFirst(ms: seq<Msg>, rs: seq<Report>, room: nat, sec: int, usec: int) {
    |ms| == Min(room, |rs|) && forall k :: 0 <= k < |ms| ==> Reports(ms[k], rs[k], sec, usec)
  }

  /**
   An error message, by its numbers: bit 7 of its flags for an overrun of the queue, bit 5 for bus-off,
   else bit 4 for error-passive, bit 1 for an overrun of the controller, and no others.
   */
  ghost predicate IsError(m: Msg, overrun: bool, busoff: bool, errstatus: bool, ovr: bool, sec: int, usec: int) {
    && m.id == 0xFFFF_FFFF && m.length == 0 && m.sec == sec && m.usec == usec
    && forall i: nat :: Bit(m.flags, i) == One(ErrorBit(i, overrun, busoff, errstatus, ovr))
  }

  predicate ErrorBit(i: nat, overrun: bool, busoff: bool, errstatus: bool, ovr: bool) {
    (i == 7 && overrun) || (i == 5 && busoff) || (i == 4 && errstatus && !busoff) || (i == 1 && ovr)
  }

  /** A frame's message: bit 7 of its flags says that the queue had overrun, and no other bit but those of the frame is set. */
  ghost predicate IsFrame(m: Msg, w: Image, overrun: bool, sec: int, usec: int) {
    ReadsAs(m, w, m.flags, sec, usec) && forall i: nat :: i != 0 && i != 2 ==> Bit(m.flags, i) == One(i == 7 && overrun)
  }

  /**
   What a pass adds to the queue, message by message: the frame, the state of the bus, and an overrun of
   the controller, whose bit is set unless the receive branch has cleared the status before.
   */
  ghost predicate PassTold(ms: seq<Msg>, room: nat, src: Irq, fifo: seq<Image>,
                           overrun: bool, busoff: bool, errstatus: bool, dos: bool, sec: int, usec: int) {
    var e, d := One(src.ri), One(src.ri) + One(src.ei);
    && |ms| == Min(room, d + One(src.di)) && (src.ri ==> fifo != [])
    && (src.ri && |ms| > 0 ==> IsFrame(ms[0], fifo[0], overrun, sec, usec))
    && (src.ei && |ms| > e ==> IsError(ms[e], overrun, busoff, errstatus, false, sec, usec))
    && (src.di && |ms| > d ==>
          IsError(ms[d], overrun, src.ei && busoff, src.ei && errstatus, dos && !src.ri, sec, usec))
  }

  lemma {:induction false} BitAbove(n: nat, k: nat, i: nat)
    requires n < Pow2(k) && k <= i
    ensures Bit(n, i) == 0
    decreases k
  {
    if k == 0 { BitOfZero(i); } else { BitAbove(n / 2, k - 1, i - 1); }
  }

  /** The flags that add up in a pass, bit by bit. */
  lemma FlagsAddUp(overrun: bool, ei: bool, busoff: bool, errstatus: bool, ovr: bool, i: nat)
    ensures var n := BaseFlags(overrun) + (if ei then ErrorBits(busoff, errstatus) else 0) + (if ovr then MSG_OVR else 0);
            Bit(n, i) == One(ErrorBit(i, overrun, ei && busoff, ei && errstatus, ovr))
  {
    hide Bit;
    var n := BaseFlags(overrun) + (if ei then ErrorBits(busoff, errstatus) else 0) + (if ovr then MSG_OVR else 0);
    var bus := if ei && busoff then 2 else if ei && errstatus then 1 else 0;
    var high, low := (if overrun then 8 else 0) + bus, if ovr then 2 else 0;
    assert n == 16 * high + low;
    if i >= 8 {
      ByteIsShort(n, i);
    } else {
      BitOfSum(high, low, i);
      HighBits(overrun, bus, i % 4);
      LowBits(ovr, i % 4);
    }
  }

  lemma ByteIsShort(n: nat, i: nat)
    requires n < 256 && i >= 8
    ensures Bit(n, i) == 0
  {
    assert Pow2(8) == 256;
    BitAbove(n, 8, i);
  }

  lemma HighBits(overrun: bool, bus: nat, j: nat)
    requires bus < 3 && j < 4
    ensures Bit((if overrun then 8 else 0) + bus, j) == One((j == 3 && overrun) || (j == 1 && bus == 2) || (j == 0 && bus == 1))
  {
    var h := (if overrun then 8 else 0) + bus;
    assert Bit(h, 1) == Bit(h / 2, 0);
    assert Bit(h, 2) == Bit(h / 2, 1) == Bit(h / 2 / 2, 0);
    assert Bit(h, 3) == Bit(h / 2, 2) == Bit(h / 2 / 2, 1) == Bit(h / 2 / 2 / 2, 0);
  }

  lemma LowBits(ovr: bool, j: nat)
    requires j < 4
    ensures Bit(if ovr then 2 else 0, j) == One(j == 1 && ovr)
  {
  }

  /** The bits of a byte, from its two halves. */
  lemma BitOfSum(high: nat, low: nat, i: nat)
    requires high < 16 && low < 16 && i < 8
    ensures Bit(16 * high + low, i) == if i < 4 then Bit(low, i) else Bit(high, i - 4)
  {
    ShlIsProduct(high, 4);
    assert Pow2(4) == 16;
    BitOfConcat(high, low, 4, i);
  }

  /** The reports of a pass are these messages. */
  lemma ToldIsPassTold(ms: seq<Msg>, room: nat, src: Irq, fifo: seq<Image>,
                       overrun: bool, busoff: bool, errstatus: bool, dos: bool, sec: int, usec: int)
    requires src.ri ==> fifo != []
    requires TookFirst(ms, Told(src, fifo, BaseFlags(overrun), ErrorBits(busoff, errstatus), dos), room, sec, usec)
    ensures PassTold(ms, room, src, fifo, overrun, busoff, errstatus, dos, sec, usec)
  {
    hide Bit, BaseFlags, ErrorBits, ErrorBit, ReadsAs, Reports, IsError, IsFrame, Told;
    var e, d := One(src.ri), One(src.ri) + One(src.ei);
    ToldAt(src, fifo, BaseFlags(overrun), ErrorBits(busoff, errstatus), dos);
    if src.ri && |ms| > 0 { ReportedFrame(ms[0], fifo[0], overrun, sec, usec); }
    if src.ei && |ms| > e { ReportedError(ms[e], overrun, true, busoff, errstatus, false, sec, usec); }
    if src.di && |ms| > d { ReportedError(ms[d], overrun, src.ei, busoff, errstatus, dos && !src.ri, sec, usec); }
  }

  /** What `errmsg` writes, with the flags and the time noted. */
  predicate IsErrmsg(m: Msg, flags: nat, sec: int, usec: int) {
    m.id == 0xFFFF_FFFF && m.length == 0 && m.flags == flags && m.sec == sec && m.usec == usec
  }

  lemma ReportedReadsAs(m: Msg, w: Image, flags: nat, sec: int, usec: int)
    requires Reports(m, FrameReport(w, flags), sec, usec) && PlainFlags(flags)
    ensures ReadsAs(m, w, flags, sec, usec)
  {
    var o: Msg :| m == Received(w, o, flags, sec, usec);
    ReceivedReadsAs(w, o, flags, sec, usec);
  }

  lemma ReportedErrmsg(m: Msg, flags: nat, sec: int, usec: int)
    requires Reports(m, ErrorReport(flags), sec, usec)
    ensures IsErrmsg(m, flags, sec, usec)
  {
  }

  lemma ToldAt(src: Irq, fifo: seq<Image>, base: nat, bits: nat, dos: bool)
    requires src.ri ==> fifo != []
    ensures var rs, flags := Told(src, fifo, base, bits, dos), base + (if src.ei then bits else 0);
            && |rs| == One(src.ri) + One(src.ei) + One(src.di)
            && (src.ri ==> rs[0] == FrameReport(fifo[0], base))
            && (src.ei ==> rs[One(src.ri)] == ErrorReport(flags))
            && (src.di ==> rs[One(src.ri) + One(src.ei)] == ErrorReport(flags + (if dos && !src.ri then MSG_OVR else 0)))
  {
  }

  lemma ReportedFrame(m: Msg, w: Image, overrun: bool, sec: int, usec: int)
    requires Reports(m, FrameReport(w, BaseFlags(overrun)), sec, usec)
    ensures IsFrame(m, w, overrun, sec, usec)
  {
    var flags := BaseFlags(overrun);
    var o: Msg :| m == Received(w, o, flags, sec, usec);
    hide Bit, Received, BaseFlags;
    forall i: nat ensures Bit(flags, i) == One(i == 7 && overrun) {
      FlagsAddUp(overrun, false, false, false, false, i);
    }
    ReceivedReadsAs(w, o, flags, sec, usec);
  }

  lemma ReportedError(m: Msg, overrun: bool, ei: bool, busoff: bool, errstatus: bool, ovr: bool, sec: int, usec: int)
    requires Reports(m, ErrorReport(BaseFlags(overrun) + (if ei then ErrorBits(busoff, errstatus) else 0)
                                    + (if ovr then MSG_OVR else 0)), sec, usec)
    ensures IsError(m, overrun, ei && busoff, ei && errstatus, ovr, sec, usec)
  {
    hide Bit, ErrorBit;
    forall i: nat ensures Bit(m.flags, i) == One(ErrorBit(i, overrun, ei && busoff, ei && errstatus, ovr)) {
      FlagsAddUp(overrun, ei, busoff, errstatus, ovr, i);
    }
  }

  lemma TookOneMore(ms: seq<Msg>, rs: seq<Report>, room: nat, sec: int, usec: int, m: Msg, r: Report)
    requires TookFirst(ms, rs, room, sec, usec) && (|ms| < room ==> Reports(m, r, sec, usec))
    ensures TookFirst(if |ms| < room then ms + [m] else ms, rs + [r], room, sec, usec)
  {
  }

  class Dev {
    const chip: Chip
    const txq: MsgQ
    const rxq: MsgQ
    var baud: int
    var txinprogress: bool
    var overrun: bool        // rxstatus & BUF_OVERRUN
    var timer: int           // microseconds that the delayed-work timer was last started with
    var woken: bool          // wake_up_interruptible has been called
    ghost var frames: seq<Frame>

    ghost predicate Valid()
      reads `baud, `frames, chip`mode, chip`fifo, chip`requested
      reads txq`produced, txq`consumed, txq`made, txq`taken, txq`mask, txq`data, txq.data
      reads rxq`produced, rxq`consumed, rxq`made, rxq`taken, rxq`mask, rxq`data, rxq.data
    {
      && chip.Valid() && txq.Ready() && rxq.Ready()
      && txq != rxq && txq.data != rxq.data && baud > 0
      && Logged()
    }

    ghost function View(): TxView
      requires txq.Ready()
      reads `txinprogress, `timer, `frames
      reads txq`produced, txq`consumed, txq`made, txq`taken, txq`mask, txq`data, txq`idle, txq.data
    {
      TxView(txq.Queued(), txq.idle, txinprogress, timer, frames)
    }

    constructor (chip: Chip, txq: MsgQ, rxq: MsgQ, baud: int)
      requires chip.Valid() && txq.Ready() && rxq.Ready() && txq != rxq && txq.data != rxq.data && baud > 0
      requires chip.requested == []
      ensures Valid() && this.chip == chip && this.txq == txq && this.rxq == rxq && this.baud == baud
      ensures !txinprogress && !overrun && timer == 0 && !woken && frames == []
    {
      this.chip, this.txq, this.rxq, this.baud := chip, txq, rxq, baud;
      txinprogress, overrun, timer, woken, frames := false, false, 0, false, [];
    }

    predicate Takes()
      reads chip`mode, chip`locked
    {
      !chip.InReset() && !chip.locked
    }

    lemma QueuesFit()
      requires Valid()
      ensures txq != rxq && txq.data != rxq.data && chip.Valid() && txq.Ready() && rxq.Ready()
      ensures |txq.Queued()| <= txq.data.Length && |rxq.Queued()| <= rxq.data.Length
    {
    }

    // ---------------------------------------------------------------- transmit side

    /** The wait that `sendcanmsg` finds necessary. */
    method Wait(m: Msg) returns (dly: int)
      requires baud > 0
      ensures dly == Delay(m, baud)
    {
      dly := ToInt32(m.usec);
      if dly != 0 {
        dly := ToInt32(dly - CDiv(FrameBits(m) * 1000, baud));
      }
    }

    /** The frames requested are those that the controller was given. */
    ghost predicate Logged()
      reads `frames, chip`requested
    {
      |frames| == |chip.requested| && forall k :: 0 <= k < |frames| ==> Carries(chip.requested[k], frames[k])
    }

    /** The second half of `sendcanmsg`. */
    method Request(m: Msg)
      requires chip.Valid() && Logged() && 0 <= m.length <= 8
      modifies this`txinprogress, this`frames
      modifies chip`locked, chip`requested, chip.window, chip.filter
      ensures chip.Valid() && Logged() && txinprogress && chip.locked == (old(chip.locked) || !chip.InReset())
      ensures !chip.InReset() ==> chip.filter[..] == old(chip.filter[..])
      ensures frames == old(frames) + (if old(Takes()) then [Wire(m)] else [])
    {
      chip.StoreFrame(m);
      if Takes() {
        WrittenCarries(chip.window[..], m);
        frames := frames + [Wire(m)];
      }
      chip.RequestTransmission();
      txinprogress := true;
    }

    /** `sendcanmsg` on the slot that `qconsume` hands over. */
    method SendCanMsg(i: nat) returns (consumed: bool)
      requires Valid() && i < txq.data.Length && txq.data[i].length >= 0
      modifies this`txinprogress, this`timer, this`frames, txq.data
      modifies chip`locked, chip`requested, chip.window, chip.filter
      ensures chip.Valid() && Logged() && chip.locked == (old(chip.locked) || (consumed && !chip.InReset()))
      ensures !chip.InReset() ==> chip.filter[..] == old(chip.filter[..])
      ensures var m := Capped(old(txq.data[i])); var d := Delay(m, baud);
              && consumed == (d <= 0)
              && txq.data[..] == old(txq.data[..])[i := if consumed then m else m.(usec := 0)]
              && timer == (if consumed then old(timer) else d)
              && txinprogress == (consumed || old(txinprogress))
              && frames == old(frames) + (if consumed && old(Takes()) then [Wire(m)] else [])
    {
      if txq.data[i].length > 8 {
        txq.data[i] := txq.data[i].(length := 8);
      }
      var m := txq.data[i];
      var dly := Wait(m);
      if dly > 0 {
        txq.data[i] := m.(usec := 0);
        timer := dly;
        return false;
      }
      Request(m);
      consumed := true;
    }

    /** `qconsume` once it has found a message. */
    method TransmitHead()
      requires Valid() && txq.Queued() != [] && txq.Queued()[0].length >= 0
      modifies this`txinprogress, this`timer, this`frames, txq`consumed, txq`taken, txq.data
      modifies chip`locked, chip`requested, chip.window, chip.filter
      ensures Valid() && View() == Consumed(old(View()), baud, old(Takes()))
      ensures chip.locked == (old(chip.locked) || (|txq.Queued()| < |old(txq.Queued())| && !chip.InReset()))
      ensures !chip.InReset() ==> chip.filter[..] == old(chip.filter[..])
    {
      var i := txq.HeadSlot();
      ghost var q := txq.Snapshot();
      CountersAreExact(q);
      var consumed := SendCanMsg(i);
      assert txq.Snapshot() == SetHead(q, txq.data[i]);
      SetHeadKeepsRest(q, txq.data[i]);
      assert txq.Queued() == [txq.data[i]] + Contents(q)[1..];
      if consumed {
        txq.Advance();
        assert txq.Queued() == Contents(q)[1..];
      }
    }

    /** `qconsume(&dev->txq, sendcanmsg, dev)` */
    method Transmit() returns (ret: int)
      requires Valid() && (txq.Queued() != [] ==> txq.Queued()[0].length >= 0)
      modifies this`txinprogress, this`timer, this`frames, txq`idle, txq`consumed, txq`taken, txq.data
      modifies chip`locked, chip`requested, chip.window, chip.filter
      ensures Valid() && View() == Consumed(old(View()), baud, old(Takes()))
      ensures ret == One(old(txq.Queued()) != [])
      ensures chip.locked == (old(chip.locked) || (|txq.Queued()| < |old(txq.Queued())| && !chip.InReset()))
      ensures !chip.InReset() ==> chip.filter[..] == old(chip.filter[..])
    {
      var found := txq.FindOrPark();
      if !found {
        return 0;
      }
      TransmitHead();
      ret := 1;
    }

    /** `delayedmsgworker` */
    method DelayedMsgWorker()
      requires Valid() && (txq.Queued() != [] ==> txq.Queued()[0].length >= 0)
      modifies this`txinprogress, this`timer, this`frames, this`woken, txq`idle, txq`consumed, txq`taken, txq.data
      modifies chip`locked, chip`requested, chip.window, chip.filter
      ensures Valid() && View() == Consumed(old(View()), baud, old(Takes()))
      ensures woken == (old(woken) || |txq.Queued()| <= txq.data.Length / 2)
    {
      var _ := Transmit();
      WakeWriters();
    }

    method WakeWriters()
      requires Valid()
      modifies this`woken
      ensures woken == (old(woken) || |txq.Queued()| <= txq.data.Length / 2)
    {
      var len := txq.QLen();
      var size := txq.QSize();
      if len <= size / 2 {
        woken := true;
      }
    }

    // ---------------------------------------------------------------- can_write

    /** One turn of the loop of `can_write`. */
    method WriteOne(m: Msg) returns (ok: bool)
      requires Valid() && (txq.idle ==> txq.Queued() == []) && m.length >= 0
      modifies this`txinprogress, this`timer, this`frames
      modifies txq`idle, txq`produced, txq`made, txq`consumed, txq`taken, txq.data
      modifies chip`locked, chip`requested, chip.window, chip.filter
      ensures Valid() && ok == (|old(txq.Queued())| < txq.data.Length)
      ensures var v := old(View()).(queue := old(txq.Queued()) + [m]);
              View() == if !ok then old(View()) else if v.idle then Consumed(v.(idle := false), baud, old(Takes())) else v
    {
      ok := txq.QProduce(_ => m);
      if ok && txq.idle {
        txq.idle := false;
        var _ := Transmit();
      }
    }

    /** One turn of the loop, as part of the whole call. */
    method WriteNext(ghost v: TxView, ghost taken: bool, buffer: seq<Msg>, written: nat) returns (ok: bool)
      requires Valid() && (v.idle ==> v.queue == []) && forall k :: 0 <= k < |buffer| ==> buffer[k].length >= 0
      requires written < |buffer| && View() == AfterWrite(v, baud, taken, buffer[..written])
      requires written == 0 ==> Takes() == taken
      modifies this`txinprogress, this`timer, this`frames
      modifies txq`idle, txq`produced, txq`made, txq`consumed, txq`taken, txq.data
      modifies chip`locked, chip`requested, chip.window, chip.filter
      ensures Valid() && View() == AfterWrite(v, baud, taken, buffer[..if ok then written + 1 else written])
      ensures !ok ==> |txq.Queued()| >= txq.data.Length
    {
      WroteOneMore(v, baud, taken, buffer[..written], buffer[written]);
      OneMore(buffer, written);
      ok := WriteOne(buffer[written]);
    }

    /** The loop of `can_write`: it stops at the end of the buffer, or when the queue is full. */
    method WriteAll(buffer: seq<Msg>) returns (written: nat)
      requires Valid() && (txq.idle ==> txq.Queued() == []) && forall k :: 0 <= k < |buffer| ==> buffer[k].length >= 0
      modifies this`txinprogress, this`timer, this`frames
      modifies txq`idle, txq`produced, txq`made, txq`consumed, txq`taken, txq.data
      modifies chip`locked, chip`requested, chip.window, chip.filter
      ensures Valid() && written <= |buffer| && (written < |buffer| ==> |txq.Queued()| >= txq.data.Length)
      ensures View() == AfterWrite(old(View()), baud, old(Takes()), buffer[..written])
    {
      hide AfterWrite, Rings.Contents;
      ghost var v, taken := View(), Takes();
      NothingWritten(v, baud, taken, buffer);
      written := 0;
      while written < |buffer|
        invariant written <= |buffer| && Valid() && View() == AfterWrite(v, baud, taken, buffer[..written])
        invariant written == 0 ==> Takes() == taken
        modifies this`txinprogress, this`timer, this`frames
        modifies txq`idle, txq`produced, txq`made, txq`consumed, txq`taken, txq.data
        modifies chip`locked, chip`requested, chip.window, chip.filter
      {
        var ok := WriteNext(v, taken, buffer, written);
        if !ok {
          break;
        }
        written := written + 1;
      }
    }

    /**
     `can_write` without interference: it takes as many messages as there is room for, and one more if it
     finds the queue idle and can send the first at once; always a prefix of the buffer.
     */
    method CanWrite(buffer: seq<Msg>) returns (written: nat)
      requires Valid() && (txq.idle ==> txq.Queued() == []) && forall k :: 0 <= k < |buffer| ==> buffer[k].length >= 0
      modifies this`txinprogress, this`timer, this`frames
      modifies txq`idle, txq`produced, txq`made, txq`consumed, txq`taken, txq.data
      modifies chip`locked, chip`requested, chip.window, chip.filter
      ensures Valid()
      ensures var now := old(txq.idle) && buffer != [] && Delay(Capped(buffer[0]), baud) <= 0;
              written == Min(|buffer|, txq.data.Length - |old(txq.Queued())| + One(now))
      ensures View() == AfterWrite(old(View()), baud, old(Takes()), buffer[..written])
    {
      ghost var v, taken := View(), Takes();
      written := WriteAll(buffer);
      txq.QueuedFits();
      WrittenExactly(v, baud, taken, buffer, written, txq.data.Length);
    }

    // ---------------------------------------------------------------- can_read

    /** `can_read` without interference: exactly the oldest messages, as many as asked for and there. */
    method CanRead(count: nat) returns (out: seq<Msg>)
      requires Valid()
      modifies rxq`idle, rxq`consumed, rxq`taken
      ensures Valid() && out == old(rxq.Queued())[..Min(count, |old(rxq.Queued())|)]
      ensures rxq.Queued() == old(rxq.Queued())[|out|..]
      ensures rxq.idle == (old(rxq.idle) || count > |old(rxq.Queued())|)
    {
      ghost var q := rxq.Queued();
      out := [];
      while |out| < count
        invariant |out| <= count && |out| <= |q| && Valid() && out == q[..|out|] && rxq.Queued() == q[|out|..]
        invariant rxq.idle == old(rxq.idle)
        modifies rxq`idle, rxq`consumed, rxq`taken
      {
        var found := rxq.FindOrPark();
        if !found {
          break;
        }
        var i := rxq.HeadSlot();
        out := out + [rxq.data[i]];
        rxq.Advance();
      }
    }

    // ---------------------------------------------------------------- can_select

    /** `can_select` once it has registered with the wait queue; its mask as two answers. */
    method CanSelect() returns (readable: bool, writable: bool)
      requires Valid()
      ensures readable <==> rxq.Queued() != []
      ensures writable <==> |txq.Queued()| <= txq.data.Length / 2
    {
      readable, writable := false, false;
      var waiting := rxq.QLen();
      if waiting > 0 {
        readable := true;
      }
      var len := txq.QLen();
      var size := txq.QSize();
      if len <= size / 2 {
        writable := true;
      }
    }

    // ---------------------------------------------------------------- the interrupt handler

    /** Free slots of the receive queue. */
    ghost function Room(): (r: nat)
      requires rxq.Ready()
      ensures r == rxq.data.Length - |rxq.Queued()|
      reads rxq`produced, rxq`consumed, rxq`made, rxq`taken, rxq`mask, rxq`data, rxq.data
    {
      rxq.QueuedFits();
      rxq.data.Length - |rxq.Queued()|
    }

    /** `rxproduce` has queued a message, or failed to. */
    method NoteQueued(ok: bool)
      modifies this`overrun, this`woken
      ensures overrun == !ok && woken == (old(woken) || ok)
    {
      if ok {
        overrun := false;
        woken := true;
      } else {
        overrun := true;
      }
    }

    /** `qproduce` with `readcanmsg` as callback. */
    method TakeFrame(flags: nat, sec: int, usec: int) returns (ok: bool)
      requires Valid() && chip.fifo != []
      modifies rxq`produced, rxq`made, rxq.data, chip`fifo
      ensures Valid() && ok == (old(Room()) > 0)
      ensures ok ==> chip.fifo == old(chip.fifo)[1..] && |rxq.Queued()| == |old(rxq.Queued())| + 1
      ensures ok ==> rxq.Queued() == old(rxq.Queued()) + [rxq.Queued()[|old(rxq.Queued())|]]
      ensures ok ==> Reports(rxq.Queued()[|old(rxq.Queued())|], FrameReport(old(chip.fifo)[0], flags), sec, usec)
      ensures !ok ==> chip.fifo == old(chip.fifo) && rxq.Queued() == old(rxq.Queued())
    {
      ok := rxq.HasRoom();
      if ok {
        ghost var q := rxq.Snapshot();
        CountersAreExact(q);
        var i := rxq.FreeSlot();
        var m := chip.FetchFrame(rxq.data[i], flags, sec, usec);
        FillKeepsContents(q, m);
        rxq.data[i] := m;
        assert rxq.Snapshot() == Fill(q, m);
        rxq.Publish();
      }
    }

    /** `rxproduce(dev, readcanmsg, &msginf)` */
    method ProduceFrame(flags: nat, sec: int, usec: int) returns (ok: bool)
      requires Valid() && chip.fifo != []
      modifies this`overrun, this`woken, rxq`produced, rxq`made, rxq.data, chip`fifo
      ensures Valid() && ok == (old(Room()) > 0) && overrun == !ok && woken == (old(woken) || ok)
      ensures ok ==> chip.fifo == old(chip.fifo)[1..] && |rxq.Queued()| == |old(rxq.Queued())| + 1
      ensures ok ==> rxq.Queued() == old(rxq.Queued()) + [rxq.Queued()[|old(rxq.Queued())|]]
      ensures ok ==> Reports(rxq.Queued()[|old(rxq.Queued())|], FrameReport(old(chip.fifo)[0], flags), sec, usec)
      ensures ok && PlainFlags(flags) ==> ReadsAs(rxq.Queued()[|old(rxq.Queued())|], old(chip.fifo)[0], flags, sec, usec)
      ensures !ok ==> chip.fifo == old(chip.fifo) && rxq.Queued() == old(rxq.Queued())
    {
      hide *;
      QueuesFit();
      ok := TakeFrame(flags, sec, usec);
      QueuesFit();
      if ok && PlainFlags(flags) {
        ReportedReadsAs(rxq.Queued()[|old(rxq.Queued())|], old(chip.fifo)[0], flags, sec, usec);
      }
      NoteQueued(ok);
    }

    /** `rxproduce(dev, errmsg, &msginf)` */
    method ProduceError(flags: nat, sec: int, usec: int) returns (ok: bool)
      requires Valid()
      modifies this`overrun, this`woken, rxq`produced, rxq`made, rxq.data
      ensures Valid() && ok == (old(Room()) > 0) && overrun == !ok && woken == (old(woken) || ok)
      ensures ok ==> |rxq.Queued()| == |old(rxq.Queued())| + 1
      ensures ok ==> rxq.Queued() == old(rxq.Queued()) + [rxq.Queued()[|old(rxq.Queued())|]]
      ensures ok ==> Reports(rxq.Queued()[|old(rxq.Queued())|], ErrorReport(flags), sec, usec)
      ensures ok ==> IsErrmsg(rxq.Queued()[|old(rxq.Queued())|], flags, sec, usec)
      ensures !ok ==> rxq.Queued() == old(rxq.Queued())
    {
      ok := rxq.QProduce(o => Driver.ErrorMsg(o, flags, sec, usec));
      NoteQueued(ok);
    }

    /** If `due`, `rxproduce(dev, errmsg, &msginf)` as the next report of a pass that has taken `ms` of `rs` behind `q`. */
    method ReportError(due: bool, ghost q: seq<Msg>, ghost ms: seq<Msg>, ghost rs: seq<Report>,
                       flags: nat, sec: int, usec: int)
      returns (ghost more: seq<Msg>)
      requires Valid() && |q| <= rxq.data.Length && rxq.Queued() == q + ms
      requires TookFirst(ms, rs, rxq.data.Length - |q|, sec, usec)
      modifies this`overrun, this`woken, rxq`produced, rxq`made, rxq.data
      ensures Valid() && rxq.Queued() == q + more
      ensures TookFirst(more, rs + If(due, ErrorReport(flags)), rxq.data.Length - |q|, sec, usec)
      ensures if due && |q| + |ms| < rxq.data.Length then |more| == |ms| + 1 && more[..|ms|] == ms && IsErrmsg(more[|ms|], flags, sec, usec)
              else more == ms
      ensures overrun == (if due then |rs| + 1 > rxq.data.Length - |q| else old(overrun))
      ensures woken == (old(woken) || |more| > |ms|)
    {
      more := ms;
      if due {
        ghost var was := rxq.Queued();
        var ok := ProduceError(flags, sec, usec);
        ghost var m := BLANK;
        if ok {
          m := rxq.Queued()[|was|];
          more := ms + [m];
        }
        TookOneMore(ms, rs, rxq.data.Length - |q|, sec, usec, m, ErrorReport(flags));
      } else {
        assert rs + [] == rs;
      }
    }

    /** The receive branch of the handler. */
    method ReceiveStage(ri: bool, flags: nat, sec: int, usec: int) returns (ghost ms: seq<Msg>)
      requires Valid() && (ri ==> chip.fifo != [])
      modifies this`overrun, this`woken, rxq`produced, rxq`made, rxq.data, chip`fifo, chip`dos
      ensures Valid() && rxq.Queued() == old(rxq.Queued()) + ms
      ensures TookFirst(ms, FrameReports(ri, old(chip.fifo), flags), rxq.data.Length - |old(rxq.Queued())|, sec, usec)
      ensures overrun == (if ri then |old(rxq.Queued())| == rxq.data.Length else old(overrun))
      ensures woken == (old(woken) || ms != [])
      ensures chip.fifo == old(chip.fifo)[if ri && |old(rxq.Queued())| < rxq.data.Length then 1 else 0..]
      ensures chip.dos == (old(chip.dos) && !ri)
    {
      hide Reports, ReadsAs, PlainFlags, Received;
      ms := [];
      if ri {
        ghost var q := rxq.Queued();
        var ok := ProduceFrame(flags, sec, usec);
        if ok { ms := [rxq.Queued()[|q|]]; }
        if chip.dos {
          chip.dos := false;
        }
      }
    }

    /**
     The error-warning branch up to its `rxproduce`: what the error message says, and whether a transmit
     interrupt is simulated.
     */
    method ErrorStage(ei: bool, ti: bool, flags: nat) returns (flags': nat, ti': bool)
      requires Valid()
      modifies chip`mode
      ensures Valid() && chip.InReset() == (old(chip.InReset()) && !ei)
      ensures flags' == flags + (if ei then ErrorBits(chip.busoff, chip.errstatus) else 0)
      ensures ti' == (ti || Simulates(ei, chip.busoff, chip.errstatus, txinprogress, chip.locked))
    {
      flags', ti' := flags, ti;
      if ei {
        if chip.InReset() {
          chip.LeaveReset();
        }
        var err := 0;
        if chip.errstatus {
          err := MSG_PASSIVE;
        }
        if chip.busoff {
          err := MSG_BUSOFF;
        }
        if err == 0 {
          if txinprogress && !ti && !chip.locked {
            ti' := true;
          }
        } else {
          flags' := flags' + err;
        }
      }
    }

    /** The transmit branch. */
    method TransmitStage(ti: bool)
      requires Valid() && (ti && txq.Queued() != [] ==> txq.Queued()[0].length >= 0)
      modifies this`txinprogress, this`timer, this`frames, this`woken, txq`idle, txq`consumed, txq`taken, txq.data
      modifies chip`locked, chip`requested, chip.window, chip.filter
      ensures Valid()
      ensures View() == if ti then Consumed(old(View()).(inprogress := false), baud, old(Takes())) else old(View())
      ensures woken == (old(woken) || (ti && |txq.Queued()| <= txq.data.Length / 2))
    {
      if ti {
        txinprogress := false;
        var _ := Transmit();
        WakeWriters();
      }
    }

    /** The first half of a pass: a frame, and the state of the bus. */
    method NoticeStage(src: Irq, sec: int, usec: int) returns (flags: nat, ti: bool, ghost ms: seq<Msg>)
      requires Valid() && (src.ri ==> chip.fifo != [])
      modifies this`overrun, this`woken, rxq`produced, rxq`made, rxq.data, chip`fifo, chip`dos, chip`mode
      ensures Valid() && rxq.Queued() == old(rxq.Queued()) + ms
      ensures flags == BaseFlags(old(overrun)) + (if src.ei then ErrorBits(chip.busoff, chip.errstatus) else 0)
      ensures ti == (src.ti || Simulates(src.ei, chip.busoff, chip.errstatus, txinprogress, chip.locked))
      ensures ti ==> src.ti || src.ei
      ensures TookFirst(ms, FrameReports(src.ri, old(chip.fifo), BaseFlags(old(overrun))) + If(src.ei, ErrorReport(flags)),
                        rxq.data.Length - |old(rxq.Queued())|, sec, usec)
      ensures PassTold(ms, old(Room()), src.(di := false), old(chip.fifo),
                       old(overrun), chip.busoff, chip.errstatus, false, sec, usec)
      ensures overrun == Overruns(src.(di := false), old(Room()), old(overrun))
      ensures chip.fifo == old(chip.fifo)[if src.ri && |old(rxq.Queued())| < rxq.data.Length then 1 else 0..]
      ensures chip.dos == (old(chip.dos) && !src.ri) && chip.InReset() == (old(chip.InReset()) && !src.ei)
    {
      hide *;
      QueuesFit();
      SimulatesIs(src.ei, chip.busoff, chip.errstatus, txinprogress, chip.locked);
      ghost var q := rxq.Queued();
      NumberTold(src, chip.fifo, BaseFlags(overrun));
      OverrunsIs(src.(di := false), Room(), overrun);
      flags, ti := BaseFlags(overrun), src.ti;
      ghost var first := FrameReports(src.ri, chip.fifo, flags);
      ms := ReceiveStage(src.ri, flags, sec, usec);
      flags, ti := ErrorStage(src.ei, ti, flags);
      ms := ReportError(src.ei, q, ms, first, flags, sec, usec);
      ghost var room, fifo, was := old(Room()), old(chip.fifo), old(overrun);
      NoticedIsPassTold(ms, room, src, fifo, was, chip.busoff, chip.errstatus, sec, usec);
    }

    /** The second half of a pass: the transmit interrupt, and an overrun of the controller. */
    method ActStage(ti: bool, di: bool, ghost q: seq<Msg>, ghost ms: seq<Msg>, ghost rs: seq<Report>,
                    flags: nat, sec: int, usec: int)
      returns (ghost more: seq<Msg>)
      requires Valid() && (ti && txq.Queued() != [] ==> txq.Queued()[0].length >= 0)
      requires |q| <= rxq.data.Length && rxq.Queued() == q + ms && TookFirst(ms, rs, rxq.data.Length - |q|, sec, usec)
      modifies this`overrun, this`woken, rxq`produced, rxq`made, rxq.data, chip`dos
      modifies this`txinprogress, this`timer, this`frames, txq`idle, txq`consumed, txq`taken, txq.data
      modifies chip`locked, chip`requested, chip.window, chip.filter
      ensures Valid() && rxq.Queued() == q + more && chip.dos == (old(chip.dos) && !di)
      ensures TookFirst(more, rs + If(di, ErrorReport(if old(chip.dos) then flags + MSG_OVR else flags)),
                        rxq.data.Length - |q|, sec, usec)
      ensures overrun == (if di then |rs| + 1 > rxq.data.Length - |q| else old(overrun))
      ensures View() == if ti then Consumed(old(View()).(inprogress := false), baud, old(Takes())) else old(View())
    {
      hide *;
      QueuesFit();
      TransmitStage(ti);
      more := ReportError(di, q, ms, rs, if chip.dos then flags + MSG_OVR else flags, sec, usec);
      if di {
        chip.dos := false;
      }
    }

    /** The transmit side after the handler has served the interrupt bits `src`. */
    ghost function Served(src: Irq): TxView
      requires Valid() && ((src.ti || src.ei) && txq.Queued() != [] ==> txq.Queued()[0].length >= 0)
      reads `baud, `txinprogress, `timer, `frames
      reads chip`mode, chip`fifo, chip`requested, chip`locked, chip`busoff, chip`errstatus
      reads txq`produced, txq`consumed, txq`made, txq`taken, txq`mask, txq`data, txq`idle, txq.data
      reads rxq`produced, rxq`consumed, rxq`made, rxq`taken, rxq`mask, rxq`data, rxq.data
    {
      if src.ti || Simulates(src.ei, chip.busoff, chip.errstatus, txinprogress, chip.locked) then
        Consumed(View().(inprogress := false), baud, (chip.InReset() ==> src.ei) && !chip.locked)
      else
        View()
    }

    /** One pass of the loop of `CAN_Interrupt` over the interrupt bits `src`, as a list of reports. */
    method Pass(src: Irq, sec: int, usec: int) returns (ghost ms: seq<Msg>)
      requires Valid() && (src.ri ==> chip.fifo != [])
      requires (src.ti || src.ei) && txq.Queued() != [] ==> txq.Queued()[0].length >= 0
      modifies this`overrun, this`woken, rxq`produced, rxq`made, rxq.data, chip`fifo, chip`dos, chip`mode
      modifies this`txinprogress, this`timer, this`frames, txq`idle, txq`consumed, txq`taken, txq.data
      modifies chip`locked, chip`requested, chip.window, chip.filter
      ensures Valid() && rxq.Queued() == old(rxq.Queued()) + ms
      ensures TookFirst(ms, Told(src, old(chip.fifo), BaseFlags(old(overrun)),
                                 ErrorBits(chip.busoff, chip.errstatus), old(chip.dos)),
                        rxq.data.Length - |old(rxq.Queued())|, sec, usec)
      ensures overrun == Overruns(src, old(Room()), old(overrun))
      ensures chip.dos == (old(chip.dos) && !src.ri && !src.di) && chip.InReset() == (old(chip.InReset()) && !src.ei)
      ensures chip.fifo == old(chip.fifo)[if src.ri && |old(rxq.Queued())| < rxq.data.Length then 1 else 0..]
      ensures View() == old(Served(src))
    {
      hide *;
      QueuesFit();
      ServedIs(src);
      ghost var q, first := rxq.Queued(), FrameReports(src.ri, chip.fifo, BaseFlags(overrun));
      PassFacts(src, chip.fifo, overrun, ErrorBits(chip.busoff, chip.errstatus), chip.dos, Room());
      var flags, ti;
      flags, ti, ms := NoticeStage(src, sec, usec);
      TakesIs();
      ms := ActStage(ti, src.di, q, ms, first + If(src.ei, ErrorReport(flags)), flags, sec, usec);
    }

    /** The same, message by message. */
    method HandlePass(src: Irq, sec: int, usec: int) returns (ghost ms: seq<Msg>)
      requires Valid() && (src.ri ==> chip.fifo != [])
      requires (src.ti || src.ei) && txq.Queued() != [] ==> txq.Queued()[0].length >= 0
      modifies this`overrun, this`woken, rxq`produced, rxq`made, rxq.data, chip`fifo, chip`dos, chip`mode
      modifies this`txinprogress, this`timer, this`frames, txq`idle, txq`consumed, txq`taken, txq.data
      modifies chip`locked, chip`requested, chip.window, chip.filter
      ensures Valid() && rxq.Queued() == old(rxq.Queued()) + ms
      ensures TookFirst(ms, Told(src, old(chip.fifo), BaseFlags(old(overrun)),
                                 ErrorBits(chip.busoff, chip.errstatus), old(chip.dos)),
                        rxq.data.Length - |old(rxq.Queued())|, sec, usec)
      ensures PassTold(ms, old(Room()), src, old(chip.fifo),
                       old(overrun), chip.busoff, chip.errstatus, old(chip.dos), sec, usec)
      ensures overrun == Overruns(src, old(Room()), old(overrun))
      ensures chip.dos == (old(chip.dos) && !src.ri && !src.di) && chip.InReset() == (old(chip.InReset()) && !src.ei)
      ensures chip.fifo == old(chip.fifo)[if src.ri && |old(rxq.Queued())| < rxq.data.Length then 1 else 0..]
      ensures View() == old(Served(src))
    {
      hide *;
      QueuesFit();
      ghost var room, fifo, was, dos := Room(), chip.fifo, overrun, chip.dos;
      ms := Pass(src, sec, usec);
      ToldIsPassTold(ms, room, src, fifo, was, chip.busoff, chip.errstatus, dos, sec, usec);
    }

    lemma ServedIs(src: Irq)
      requires Valid() && ((src.ti || src.ei) && txq.Queued() != [] ==> txq.Queued()[0].length >= 0)
      ensures var ti := src.ti || Simulates(src.ei, chip.busoff, chip.errstatus, txinprogress, chip.locked);
              var taken := (chip.InReset() ==> src.ei) && !chip.locked;
              Served(src) == if ti then Consumed(View().(inprogress := false), baud, taken) else View()
    {
    }

    lemma NothingServed(src: Irq)
      requires Valid() && !src.ti && !src.ei
      ensures Served(src) == View()
    {
    }

    lemma TakesIs()
      ensures Takes() == (!chip.InReset() && !chip.locked)
    {
    }
  }

  /** The mark after a pass: a message that finds no room sets it, one that finds room clears it. */
  predicate Overruns(src: Irq, room: int, overrun: bool) {
    if src.ri || src.ei || src.di then One(src.ri) + One(src.ei) + One(src.di) > room else overrun
  }

  lemma OverrunsIs(src: Irq, room: int, overrun: bool)
    ensures Overruns(src, room, overrun)
        <==> if src.ri || src.ei || src.di then One(src.ri) + One(src.ei) + One(src.di) > room else overrun
    ensures One(false) == 0 && One(true) == 1
  {
  }

  lemma NumberTold(src: Irq, fifo: seq<Image>, base: nat)
    requires src.ri ==> fifo != []
    ensures |FrameReports(src.ri, fifo, base)| == One(src.ri)
    ensures forall flags: nat :: |If(src.ei, ErrorReport(flags))| == One(src.ei)
  {
  }

  lemma PassFacts(src: Irq, fifo: seq<Image>, overrun: bool, bits: nat, dos: bool, room: int)
    requires src.ri ==> fifo != []
    ensures var base, flags := BaseFlags(overrun), BaseFlags(overrun) + (if src.ei then bits else 0);
            && Told(src, fifo, base, bits, dos)
               == FrameReports(src.ri, fifo, base) + If(src.ei, ErrorReport(flags))
                  + If(src.di, ErrorReport(if dos && !src.ri then flags + MSG_OVR else flags))
            && Overruns(src, room, overrun)
               == if src.di then |FrameReports(src.ri, fifo, base) + If(src.ei, ErrorReport(flags))| + 1 > room
                  else Overruns(src.(di := false), room, overrun)
  {
  }

  lemma ToldWithoutOverrun(src: Irq, fifo: seq<Image>, base: nat, bits: nat)
    ensures Told(src.(di := false), fifo, base, bits, false)
         == FrameReports(src.ri, fifo, base) + If(src.ei, ErrorReport(base + (if src.ei then bits else 0)))
  {
  }

  lemma NoticedIsPassTold(ms: seq<Msg>, room: nat, src: Irq, fifo: seq<Image>,
                          overrun: bool, busoff: bool, errstatus: bool, sec: int, usec: int)
    requires src.ri ==> fifo != []
    requires TookFirst(ms, FrameReports(src.ri, fifo, BaseFlags(overrun))
                           + If(src.ei, ErrorReport(BaseFlags(overrun) + (if src.ei then ErrorBits(busoff, errstatus) else 0))),
                       room, sec, usec)
    ensures PassTold(ms, room, src.(di := false), fifo, overrun, busoff, errstatus, false, sec, usec)
  {
    hide *;
    ToldWithoutOverrun(src, fifo, BaseFlags(overrun), ErrorBits(busoff, errstatus));
    ToldIsPassTold(ms, room, src.(di := false), fifo, overrun, busoff, errstatus, false, sec, usec);
  }

  /** The flags that a pass starts from: the receive queue overran before. */
  function BaseFlags(overrun: bool): nat { if overrun then MSG_BOVR else 0 }

  /** A bus-off outdoes the error-passive state. */
  function ErrorBits(busoff: bool, errstatus: bool): nat {
    if busoff then MSG_BUSOFF else if errstatus then MSG_PASSIVE else 0
  }

  /** The bus is well again, a frame is under way, and its buffer is free without an interrupt. */
  predicate Simulates(ei: bool, busoff: bool, errstatus: bool, inprogress: bool, locked: bool) {
    ei && ErrorBits(busoff, errstatus) == 0 && inprogress && !locked
  }

  lemma SimulatesIs(ei: bool, busoff: bool, errstatus: bool, inprogress: bool, locked: bool)
    ensures Simulates(ei, busoff, errstatus, inprogress, locked) ==> ei
  {
  }

  function If(due: bool, r: Report): seq<Report> { if due then [r] else [] }

  function FrameReports(ri: bool, fifo: seq<Image>, flags: nat): seq<Report> {
    if ri && fifo != [] then [FrameReport(fifo[0], flags)] else []
  }

  /** What one pass tells: a frame, the state of the bus, an overrun of the controller, in this order. */
  function Told(src: Irq, fifo: seq<Image>, base: nat, bits: nat, dos: bool): seq<Report> {
    var flags := base + (if src.ei then bits else 0);
    FrameReports(src.ri, fifo, base)
    + If(src.ei, ErrorReport(flags))
    + If(src.di, ErrorReport(if dos && !src.ri then flags + MSG_OVR else flags))
  }

  lemma ToldIs(src: Irq, fifo: seq<Image>, base: nat, bits: nat, dos: bool)
    ensures var flags := base + (if src.ei then bits else 0);
            Told(src, fifo, base, bits, dos)
            == FrameReports(src.ri, fifo, base) + If(src.ei, ErrorReport(flags))
               + If(src.di, ErrorReport(if dos && !src.ri then flags + MSG_OVR else flags))
  {
  }

  /** The transmit side after `can_write` has taken `ms`: the first message found an idle queue, or none did. */
  function AfterWrite(v: TxView, baud: int, taken: bool, ms: seq<Msg>): TxView
    requires baud > 0 && (v.idle && ms != [] ==> ms[0].length >= 0)
  {
    if v.idle && ms != [] then
      var first := Consumed(v.(idle := false, queue := [ms[0]]), baud, taken);
      first.(queue := first.queue + ms[1..])
    else
      v.(queue := v.queue + ms)
  }

  lemma OneMore<T>(s: seq<T>, n: nat)
    requires n < |s|
    ensures s[..n] + [s[n]] == s[..n + 1]
  {
  }

  /** Stopping only at the end of the buffer or of the room fixes how many messages were taken. */
  lemma WrittenExactly(v: TxView, baud: int, taken: bool, buffer: seq<Msg>, written: nat, size: nat)
    requires baud > 0 && written <= |buffer| && size > 0 && (v.idle ==> v.queue == [])
    requires forall k :: 0 <= k < |buffer| ==> buffer[k].length >= 0
    requires |AfterWrite(v, baud, taken, buffer[..written]).queue| <= size
    requires written < |buffer| ==> |AfterWrite(v, baud, taken, buffer[..written]).queue| == size
    ensures var now := v.idle && buffer != [] && Delay(Capped(buffer[0]), baud) <= 0;
            written == Min(|buffer|, size - |v.queue| + One(now))
  {
    if v.idle && written > 0 {
      assert buffer[..written][0] == buffer[0];
    }
  }

  lemma NothingWritten(v: TxView, baud: int, taken: bool, buffer: seq<Msg>)
    requires baud > 0
    ensures AfterWrite(v, baud, taken, buffer[..0]) == v
  {
    assert v.queue + buffer[..0] == v.queue;
  }

  lemma WroteOneMore(v: TxView, baud: int, taken: bool, ms: seq<Msg>, m: Msg)
    requires baud > 0 && (v.idle ==> v.queue == []) && m.length >= 0 && (ms != [] ==> ms[0].length >= 0)
    ensures var before := AfterWrite(v, baud, taken, ms); before.idle ==> before.queue == [] && ms == []
    ensures var before := AfterWrite(v, baud, taken, ms); var queued := before.(queue := before.queue + [m]);
            AfterWrite(v, baud, taken, ms + [m])
            == if queued.idle then Consumed(queued.(idle := false), baud, taken) else queued
  {
    if v.idle && ms != [] {
      assert (ms + [m])[1..] == ms[1..] + [m];
    } else if v.idle {
      assert v.queue + ms + [m] == [m] == ms + [m] && (ms + [m])[1..] == [];
    } else {
      assert v.queue + (ms + [m]) == v.queue + ms + [m];
    }
  }
}
