/**
 The two models of the driver agree: taken together without interruption, the atomic steps that module
 Driver has for `qconsume`, for one message of `can_write` and `can_read`, for `rxproduce` and for a whole
 pass of the interrupt handler do to the queues what the routines of module Device do in memory.
 */
module Refinement {
  import opened Words
  import opened CanTypes
  import opened Codec
  import opened Rings
  import opened Driver
  import opened Configured
  import opened Progress
  import opened Theorems
  import Device
  import Sja1000

  /** The transmit side of the transition system as module Device looks at it. */
  function ViewOf(tx: Tx, timer: int, wire: seq<Frame>): Device.TxView
    requires Valid(tx.q)
  {
    Device.TxView(Contents(tx.q), tx.idle, tx.txinprogress, timer, wire)
  }

  /** The message that a whole activation sends, if it sends one. */
  function SentNow(tx: Tx, baud: int): seq<Msg>
    requires baud > 0 && IsRingSize(|tx.q.slots|)
  {
    if Empty(tx.q) || Delay(Capped(Head(tx.q)), baud) > 0 then [] else [Capped(Head(tx.q))]
  }

  /** A whole `qconsume` of the transition system is the one that `Dev.Transmit` is proved to be. */
  lemma ActivationIsTransmit(baud: int, tx: Tx, reset: bool, timer: int, wire: seq<Frame>)
    requires baud > 0 && Valid(tx.q) && (Contents(tx.q) != [] ==> Contents(tx.q)[0].length >= 0)
    ensures var tx' := Activation(AtRate(baud), tx, reset, Test);
            var v' := Device.Consumed(ViewOf(tx, timer, wire), baud, !reset);
            && Valid(tx'.q) && ViewOf(tx', v'.timer, v'.wire) == v'
            && tx'.sent == tx.sent + SentNow(tx, baud)
            && (tx'.armed <==> tx.armed || (!Empty(tx.q) && SentNow(tx, baud) == []))
  {
    hide Delay, Wire, Capped, Rings.Advance, SetHead;
    var cfg := AtRate(baud);
    CountersAreExact(tx.q);
    if Empty(tx.q) {
      assert Activation(cfg, tx.(idle := true), reset, Done) == tx.(idle := true);
    } else {
      HeadIsOldest(tx.q);
      var m := Capped(Head(tx.q));
      assert Consume(cfg, tx, reset, Test) == (tx, Prep);
      assert Activation(cfg, tx, reset, Test) == Activation(cfg, tx, reset, Prep);
      HeadReplaced(tx.q, m);
      HeadReplaced(tx.q, m.(usec := 0));
      if Delay(m, baud) > 0 {
        DelayingActivation(cfg, tx, reset);
      } else {
        SendingActivation(cfg, tx, reset);
      }
    }
  }

  /** The queue with its head rewritten, and then without it. */
  lemma HeadReplaced(q: Ring, m: Msg)
    requires Valid(q) && !Empty(q)
    ensures Valid(SetHead(q, m)) && Contents(SetHead(q, m)) == [m] + Contents(q)[1..]
    ensures Valid(Rings.Advance(SetHead(q, m))) && Contents(Rings.Advance(SetHead(q, m))) == Contents(q)[1..]
  {
    SetHeadKeepsRest(q, m);
    CountersAreExact(q);
    CountersAreExact(SetHead(q, m));
    AdvanceDropsOldest(SetHead(q, m));
  }

  // ---------------------------------------------------------------- rxproduce

  /** All steps of `rxproduce` from `x` on. */
  function ProduceAll(cfg: Config, rx: Rx, frame: bool, x: Produce, flags: nat, sec: int, usec: int): (rx': Rx)
    requires IsRingSize(|rx.q.slots|)
    ensures |rx'.q.slots| == |rx.q.slots|
    decreases match x case Check => 4 case Fill => 3 case Release => 2 case Publish => 1 case Wake => 0
  {
    var rx' := Produced(cfg, rx, frame, x, flags, sec, usec);
    var next := AfterProduce(rx, frame, x);
    if next.None? then rx' else ProduceAll(cfg, rx', frame, next.value, flags, sec, usec)
  }

  /** All steps of `rxproduce` for the frame of the window do what `Dev.ProduceFrame` is proved to do. */
  lemma StepsAreProduceFrame(baud: int, rx: Rx, flags: nat, sec: int, usec: int)
    requires baud > 0 && Valid(rx.q) && rx.fifo != []
    ensures var rx' := ProduceAll(AtRate(baud), rx, true, Check, flags, sec, usec);
            && Valid(rx'.q)
            && (|Contents(rx.q)| < |rx.q.slots| ==>
                  && !rx'.overrun && rx'.fifo == rx.fifo[1..]
                  && Contents(rx'.q) == Contents(rx.q) + [Received(rx.fifo[0], Filled(rx.q), flags, sec, usec)])
            && (|Contents(rx.q)| == |rx.q.slots| ==> rx' == rx.(overrun := true))
  {
    hide Received;
    var cfg := AtRate(baud);
    CountersAreExact(rx.q);
    if !Full(rx.q) {
      var m := cfg.receive(rx.fifo[0], Filled(rx.q), flags, sec, usec);
      FillKeepsContents(rx.q, m);
      var a := rx.(q := Rings.Fill(rx.q, m));
      var b := a.(fifo := rx.fifo[1..]);
      CountersAreExact(b.q);
      PublishAppends(b.q);
      var c := b.(q := Rings.Publish(b.q));
      assert ProduceAll(cfg, c, true, Wake, flags, sec, usec) == c.(overrun := false);
      assert ProduceAll(cfg, b, true, Publish, flags, sec, usec) == c.(overrun := false);
      assert ProduceAll(cfg, a, true, Release, flags, sec, usec) == c.(overrun := false);
      assert ProduceAll(cfg, rx, true, Fill, flags, sec, usec) == c.(overrun := false);
    }
  }

  /** The same for an error message. */
  lemma StepsAreProduceError(cfg: Config, rx: Rx, flags: nat, sec: int, usec: int)
    requires Valid(rx.q)
    ensures var rx' := ProduceAll(cfg, rx, false, Check, flags, sec, usec);
            && Valid(rx'.q) && rx'.fifo == rx.fifo && |rx'.q.slots| == |rx.q.slots|
            && rx'.overrun == (|Contents(rx.q)| == |rx.q.slots|)
            && Contents(rx'.q) == Contents(rx.q) + (if rx'.overrun then [] else [ErrorMsg(Filled(rx.q), flags, sec, usec)])
            && (!rx'.overrun ==> Device.IsErrmsg(Contents(rx'.q)[|Contents(rx.q)|], flags, sec, usec)
                                 && Contents(rx'.q)[|Contents(rx.q)|].data == Filled(rx.q).data)
  {
    hide ErrorMsg, Device.IsErrmsg;
    CountersAreExact(rx.q);
    if !Full(rx.q) {
      var m := ErrorMsg(Filled(rx.q), flags, sec, usec);
      ErrorMsgIs(Filled(rx.q), flags, sec, usec);
      FillKeepsContents(rx.q, m);
      var a := rx.(q := Rings.Fill(rx.q, m));
      CountersAreExact(a.q);
      PublishAppends(a.q);
      var b := a.(q := Rings.Publish(a.q));
      assert ProduceAll(cfg, b, false, Wake, flags, sec, usec) == b.(overrun := false);
      assert ProduceAll(cfg, a, false, Publish, flags, sec, usec) == b.(overrun := false);
      assert ProduceAll(cfg, rx, false, Fill, flags, sec, usec) == b.(overrun := false);
    }
  }

  lemma ErrorMsgIs(old_: Msg, flags: nat, sec: int, usec: int)
    ensures Device.IsErrmsg(ErrorMsg(old_, flags, sec, usec), flags, sec, usec)
    ensures ErrorMsg(old_, flags, sec, usec).data == old_.data
  {
  }

  // ---------------------------------------------------------------- can_write and can_read

  /** All steps of the writer until it has dealt with its message. */
  function WriteAll(cfg: Config, tx: Tx, reset: bool): (tx': Tx)
    requires IsRingSize(|tx.q.slots|)
    decreases match tx.w
              case WOut => 0
              case WKick(c) => 1 + Rank(c)
              case WClear => 20 case WIdle => 21 case WPublish(_) => 22 case WFill(_) => 23 case WCheck(_) => 24
  {
    if tx.w.WOut? then tx else WriteAll(cfg, NextW(cfg, tx, reset), reset)
  }

  lemma ConsumeOfWriter(cfg: Config, tx: Tx, reset: bool, c: Consumer, w: Writer)
    requires IsRingSize(|tx.q.slots|)
    ensures var (tx', c') := Consume(cfg, tx, reset, c);
            Consume(cfg, tx.(w := w), reset, c) == (tx'.(w := w), c')
  {
    if c.Prep? || c.Load? {
      SendingOfWriter(cfg, tx, reset, c, w);
    } else if c.Issue? || c.Mark? || c.Advance? {
      IssueOfWriter(cfg, tx, reset, c, w);
    } else {
      RestOfWriter(cfg, tx, reset, c, w);
    }
  }

  lemma SendingOfWriter(cfg: Config, tx: Tx, reset: bool, c: Consumer, w: Writer)
    requires IsRingSize(|tx.q.slots|) && (c.Prep? || c.Load?)
    ensures var (tx', c') := Consume(cfg, tx, reset, c); Consume(cfg, tx.(w := w), reset, c) == (tx'.(w := w), c')
  {
    hide Index, Head, SetHead, Rings.Advance, Empty, Capped, IsRingSize;
  }

  lemma IssueOfWriter(cfg: Config, tx: Tx, reset: bool, c: Consumer, w: Writer)
    requires IsRingSize(|tx.q.slots|) && (c.Issue? || c.Mark? || c.Advance?)
    ensures var (tx', c') := Consume(cfg, tx, reset, c); Consume(cfg, tx.(w := w), reset, c) == (tx'.(w := w), c')
  {
    hide Index, Head, SetHead, Rings.Advance, Empty, Capped, IsRingSize;
  }

  lemma RestOfWriter(cfg: Config, tx: Tx, reset: bool, c: Consumer, w: Writer)
    requires IsRingSize(|tx.q.slots|) && (c.Test? || c.Park? || c.Arm? || c.Done?)
    ensures var (tx', c') := Consume(cfg, tx, reset, c); Consume(cfg, tx.(w := w), reset, c) == (tx'.(w := w), c')
  {
    hide Index, Head, SetHead, Rings.Advance, Empty, Capped, IsRingSize;
  }

  lemma ConsumeRanks(cfg: Config, tx: Tx, reset: bool, c: Consumer)
    requires IsRingSize(|tx.q.slots|) && !c.Done?
    ensures Rank(Consume(cfg, tx, reset, c).1) < Rank(c)
  {
  }

  lemma {:induction false} ActivationOfWriter(cfg: Config, tx: Tx, reset: bool, c: Consumer, w: Writer)
    requires IsRingSize(|tx.q.slots|)
    ensures Activation(cfg, tx.(w := w), reset, c) == Activation(cfg, tx, reset, c).(w := w)
    decreases Rank(c)
  {
    hide Consume;
    if !c.Done? {
      ConsumeOfWriter(cfg, tx, reset, c, w);
      ConsumeRanks(cfg, tx, reset, c);
      var (tx', c') := Consume(cfg, tx, reset, c);
      ActivationOfWriter(cfg, tx', reset, c', w);
    }
  }

  /** The kick of `can_write` is a whole `qconsume`. */
  lemma {:induction false} KickIsActivation(cfg: Config, tx: Tx, reset: bool)
    requires IsRingSize(|tx.q.slots|) && tx.w.WKick? && !tx.w.c.Done?
    ensures WriteAll(cfg, tx, reset) == Activation(cfg, tx, reset, tx.w.c).(w := WOut)
    decreases Rank(tx.w.c)
  {
    hide Consume;
    var c := tx.w.c;
    ConsumeRanks(cfg, tx, reset, c);
    var (tx', c') := Consume(cfg, tx, reset, c);
    if !c'.Done? {
      KickIsActivation(cfg, tx'.(w := WKick(c')), reset);
      ActivationOfWriter(cfg, tx', reset, c', WKick(c'));
    }
  }

  /** What `can_write` does with one message is what `Dev.WriteOne` is proved to do. */
  lemma WriterIsWriteOne(baud: int, tx: Tx, reset: bool, timer: int, wire: seq<Frame>, m: Msg)
    requires baud > 0 && Valid(tx.q) && tx.w == WCheck(m) && (tx.idle ==> Contents(tx.q) == []) && m.length >= 0
    ensures var tx' := WriteAll(AtRate(baud), tx, reset);
            var ok := |Contents(tx.q)| < |tx.q.slots|;
            var v := ViewOf(tx, timer, wire).(queue := Contents(tx.q) + [m]);
            var v' := if !ok then ViewOf(tx, timer, wire)
                      else if v.idle then Device.Consumed(v.(idle := false), baud, !reset) else v;
            && Valid(tx'.q) && ViewOf(tx', v'.timer, v'.wire) == v'
            && tx'.accepted == tx.accepted + (if ok then [m] else []) && tx'.w == WOut
  {
    hide Consume, Rings.Fill, Rings.Publish, Delay;
    var cfg := AtRate(baud);
    CountersAreExact(tx.q);
    if Full(tx.q) {
      assert NextW(cfg, tx, reset) == tx.(w := WOut);
    } else {
      var q := Rings.Fill(tx.q, m);
      PublishedIs(tx.q, m);
      FillThenPublish(cfg, tx, reset, m);
      var d := tx.(q := Rings.Publish(q), accepted := tx.accepted + [m], w := WIdle);
      if tx.idle {
        WakeThenKick(cfg, d, reset);
        var e := d.(idle := false, w := WKick(Test));
        KickIsActivation(cfg, e, reset);
        ActivationIsTransmit(baud, e, reset, timer, wire);
        ActivationKeepsAccepted(cfg, e, reset, Test);
      } else {
        assert NextW(cfg, d, reset) == d.(w := WOut);
      }
    }
  }

  lemma PublishedIs(q: Ring, m: Msg)
    requires Valid(q) && !Full(q)
    ensures var q' := Rings.Publish(Rings.Fill(q, m)); Valid(q') && Contents(q') == Contents(q) + [m] && |q'.slots| == |q.slots|
  {
    CountersAreExact(q);
    FillKeepsContents(q, m);
    CountersAreExact(Rings.Fill(q, m));
    PublishAppends(Rings.Fill(q, m));
  }

  lemma FillThenPublish(cfg: Config, tx: Tx, reset: bool, m: Msg)
    requires Valid(tx.q) && tx.w == WCheck(m) && !Full(tx.q)
    ensures WriteAll(cfg, tx, reset)
         == WriteAll(cfg, tx.(q := Rings.Publish(Rings.Fill(tx.q, m)), accepted := tx.accepted + [m], w := WIdle), reset)
  {
    hide Full, Consume;
    var a := tx.(w := WFill(m));
    assert NextW(cfg, tx, reset) == a;
    var b := a.(q := Rings.Fill(a.q, m), w := WPublish(m));
    assert NextW(cfg, a, reset) == b;
    var c := b.(q := Rings.Publish(b.q), accepted := b.accepted + [m], w := WIdle);
    assert NextW(cfg, b, reset) == c;
    assert WriteAll(cfg, b, reset) == WriteAll(cfg, c, reset);
    assert WriteAll(cfg, a, reset) == WriteAll(cfg, b, reset);
  }

  lemma WakeThenKick(cfg: Config, tx: Tx, reset: bool)
    requires IsRingSize(|tx.q.slots|) && tx.w == WIdle && tx.idle
    ensures WriteAll(cfg, tx, reset) == WriteAll(cfg, tx.(idle := false, w := WKick(Test)), reset)
  {
    hide Consume;
    var a := tx.(w := WClear);
    assert NextW(cfg, tx, reset) == a;
    assert NextW(cfg, a, reset) == tx.(idle := false, w := WKick(Test));
  }

  lemma {:induction false} ActivationKeepsAccepted(cfg: Config, tx: Tx, reset: bool, c: Consumer)
    requires IsRingSize(|tx.q.slots|)
    ensures Activation(cfg, tx, reset, c).accepted == tx.accepted
    decreases Rank(c)
  {
    if !c.Done? {
      var (tx', c') := Consume(cfg, tx, reset, c);
      ActivationKeepsAccepted(cfg, tx', reset, c');
    }
  }

  /** What `can_read` does for one message is one turn of the loop of `Dev.CanRead`. */
  lemma ReaderTakesOldest(rx: Rx)
    requires Valid(rx.q) && rx.r == RTest
    ensures Contents(rx.q) == [] ==> NextR(rx) == rx.(r := ROut)
    ensures Contents(rx.q) != [] ==>
              var rx' := NextR(NextR(NextR(rx)));
              && Valid(rx'.q) && rx'.r == ROut && Contents(rx'.q) == Contents(rx.q)[1..]
              && rx'.delivered == rx.delivered + [Contents(rx.q)[0]]
  {
    CountersAreExact(rx.q);
    if Contents(rx.q) != [] {
      HeadIsOldest(rx.q);
      AdvanceDropsOldest(rx.q);
    }
  }

  // ---------------------------------------------------------------- a pass of the handler

  function ProduceRank(x: Produce): nat {
    match x case Check => 4 case Fill => 3 case Release => 2 case Publish => 1 case Wake => 0
  }

  function HandlerRank(i: Isr): nat {
    match i
    case IRx(_, x) => 30 + ProduceRank(x)
    case IReset(_) => 29 case IStatus(_) => 28 case IFree(_) => 27
    case IErr(_, x) => 22 + ProduceRank(x)
    case IClear(_) => 21
    case IRun(_, c) => 7 + Rank(c)
    case IWake(_) => 6
    case IOvr(_, x) => 1 + ProduceRank(x)
    case _ => 0
  }

  /** All steps of the handler until it is about to read the interrupt register again. */
  function PassAll(cfg: Config, s: State, sec: int, usec: int, dos: bool): (s': State)
    requires Sized(s)
    decreases HandlerRank(s.i)
  {
    if s.i.IRead? || s.i.IOut? then s else PassAll(cfg, NextI(cfg, s, sec, usec, dos), sec, usec, dos)
  }

  /** `s'` is on the way of `s`, at `i'`, with those queues and that bus. */
  ghost predicate Reaches(cfg: Config, s: State, s': State, i': Isr, tx': Tx, rx': Rx, bus': Bus, sec: int, usec: int, dos: bool)
    requires Sized(s)
  {
    && Sized(s') && s'.i == i' && s'.tx == tx' && s'.rx == rx' && s'.bus == bus'
    && PassAll(cfg, s, sec, usec, dos) == PassAll(cfg, s', sec, usec, dos)
  }

  function AfterReport(i: Isr): Isr
    requires i.IRx? || i.IErr? || i.IOvr?
  {
    match i
    case IRx(src, _) => StageEi(src)
    case IErr(src, _) => StageTi(src)
    case IOvr(src, _) => IRead
  }

  function FlagsOf(i: Isr, dos: bool): nat
    requires i.IRx? || i.IErr? || i.IOvr?
  {
    if i.IOvr? && dos then i.src.flags + MSG_OVR else i.src.flags
  }

  /** The handler's steps in `rxproduce` are ProduceAll. */
  lemma {:induction false} ReportSteps(cfg: Config, s: State, sec: int, usec: int, dos: bool) returns (s': State)
    requires Sized(s) && (s.i.IRx? || s.i.IErr? || s.i.IOvr?)
    ensures Reaches(cfg, s, s', AfterReport(s.i), s.tx,
                    ProduceAll(cfg, s.rx, s.i.IRx?, s.i.x, FlagsOf(s.i, dos), sec, usec), s.bus, sec, usec, dos)
    decreases HandlerRank(s.i)
  {
    hide Produced;
    var a := NextI(cfg, s, sec, usec, dos);
    if AfterProduce(s.rx, s.i.IRx?, s.i.x).None? {
      s' := a;
    } else {
      s' := ReportSteps(cfg, a, sec, usec, dos);
    }
  }

  /** The handler's steps in `qconsume` are an activation. */
  lemma {:induction false} RunSteps(cfg: Config, s: State, sec: int, usec: int, dos: bool) returns (s': State)
    requires Sized(s) && s.i.IRun? && !s.i.c.Done?
    ensures Reaches(cfg, s, s', IWake(s.i.src), Activation(cfg, s.tx, s.bus.resetreq, s.i.c), s.rx, s.bus, sec, usec, dos)
    decreases HandlerRank(s.i)
  {
    hide Consume;
    ConsumeRanks(cfg, s.tx, s.bus.resetreq, s.i.c);
    var a := NextI(cfg, s, sec, usec, dos);
    var (tx', c') := Consume(cfg, s.tx, s.bus.resetreq, s.i.c);
    if c'.Done? {
      s' := a;
    } else {
      s' := RunSteps(cfg, a, sec, usec, dos);
    }
  }

  // ---------------------------------------------------------------- the stages of a pass

  /** Of the reports so far, those that found room are in the queue, and the mark says whether the last one did. */
  ghost predicate Queued(q: seq<Msg>, rx: Rx, rs: seq<Device.Report>, was: bool, sec: int, usec: int) {
    && Valid(rx.q) && |q| <= |rx.q.slots| && q <= Contents(rx.q)
    && Device.TookFirst(Contents(rx.q)[|q|..], rs, |rx.q.slots| - |q|, sec, usec)
    && rx.overrun == if rs == [] then was else |rs| > |rx.q.slots| - |q|
  }

  lemma ErrorIsQueued(cfg: Config, q: seq<Msg>, rx: Rx, rs: seq<Device.Report>, was: bool, flags: nat, sec: int, usec: int)
    requires Queued(q, rx, rs, was, sec, usec)
    ensures var rx' := ProduceAll(cfg, rx, false, Check, flags, sec, usec);
            Queued(q, rx', rs + [Device.ErrorReport(flags)], was, sec, usec) && rx'.fifo == rx.fifo
  {
    hide ProduceAll, ErrorMsg;
    StepsAreProduceError(cfg, rx, flags, sec, usec);
    var c, m := Contents(rx.q), ErrorMsg(Filled(rx.q), flags, sec, usec);
    CountersAreExact(rx.q);
    Device.TookOneMore(c[|q|..], rs, |rx.q.slots| - |q|, sec, usec, m, Device.ErrorReport(flags));
    assert (c + [m])[|q|..] == c[|q|..] + [m];
  }

  lemma FrameIsQueued(baud: int, rx: Rx, flags: nat, sec: int, usec: int)
    requires baud > 0 && Valid(rx.q) && rx.fifo != []
    ensures var rx' := ProduceAll(AtRate(baud), rx, true, Check, flags, sec, usec);
            && Queued(Contents(rx.q), rx', [Device.FrameReport(rx.fifo[0], flags)], rx.overrun, sec, usec)
            && rx'.fifo == rx.fifo[if |Contents(rx.q)| < |rx.q.slots| then 1 else 0..]
  {
    hide ProduceAll, Received;
    StepsAreProduceFrame(baud, rx, flags, sec, usec);
    CountersAreExact(rx.q);
    var q, m := Contents(rx.q), Received(rx.fifo[0], Filled(rx.q), flags, sec, usec);
    assert (q + [m])[|q|..] == [m];
    assert Device.Reports(m, Device.FrameReport(rx.fifo[0], flags), sec, usec);
  }

  /** The interrupt bits of a pass as module Device takes them. */
  function Bits(src: Source): Sja1000.Irq {
    Sja1000.Irq(src.ri, src.ei, src.ti, src.di)
  }

  /** The bits after the error branch: it may simulate a transmit interrupt, and notes the state of the bus. */
  function AfterErrors(src: Source, tx: Tx, bus: Bus): Source {
    if !src.ei then src
    else
      var simulated := Device.Simulates(true, bus.busoff, bus.errstatus, tx.txinprogress, tx.buffer.Busy?);
      src.(flags := src.flags + Device.ErrorBits(bus.busoff, bus.errstatus), ti := src.ti || simulated)
  }

  /** But for the mark of a lost frame, the transmit side is as it was. */
  predicate SameButBuffer(tx: Tx, tx': Tx) {
    tx' == tx.(buffer := tx'.buffer) && (tx'.buffer == tx.buffer || tx'.buffer == Free)
  }

  /** The chip leaves reset mode, and the handler looks at its status. */
  lemma StatusSteps(cfg: Config, s: State, src: Source, sec: int, usec: int, dos: bool) returns (s': State)
    requires Sized(s) && s.i == IReset(src)
    ensures var bits := Device.ErrorBits(s.bus.busoff, s.bus.errstatus);
            Reaches(cfg, s, s', if bits == 0 then IFree(src) else IErr(src.(flags := src.flags + bits), Check),
                    s.tx, s.rx, s.bus.(resetreq := false), sec, usec, dos)
  {
    hide Produced, Consume, TestsFree, HalfEmpty, ErrorMsg;
    var a := NextI(cfg, s, sec, usec, dos);
    s' := NextI(cfg, a, sec, usec, dos);
    assert PassAll(cfg, a, sec, usec, dos) == PassAll(cfg, s', sec, usec, dos);
  }

  lemma FreeStep(cfg: Config, s: State, src: Source, sec: int, usec: int, dos: bool) returns (s': State)
    requires Sized(s) && s.i == IFree(src)
    ensures var lost := s.tx.txinprogress && !s.tx.buffer.Busy?;
            Reaches(cfg, s, s', IErr(src.(ti := src.ti || lost), Check), s'.tx, s.rx, s.bus, sec, usec, dos)
    ensures SameButBuffer(s.tx, s'.tx)
  {
    hide Produced, Consume;
    s' := NextI(cfg, s, sec, usec, dos);
  }

  lemma ErrorBranchStarts(cfg: Config, s: State, src: Source, sec: int, usec: int, dos: bool) returns (s': State)
    requires Sized(s) && src.ei && s.i == IReset(src)
    ensures Reaches(cfg, s, s', IErr(AfterErrors(src, s.tx, s.bus), Check), s'.tx, s.rx, s.bus.(resetreq := false), sec, usec, dos)
    ensures SameButBuffer(s.tx, s'.tx)
  {
    hide PassAll, NextI;
    s' := StatusSteps(cfg, s, src, sec, usec, dos);
    if s'.i.IFree? {
      s' := FreeStep(cfg, s', src, sec, usec, dos);
    }
  }

  lemma ErrorBranch(cfg: Config, q: seq<Msg>, rs: seq<Device.Report>, was: bool, s: State, src: Source, sec: int, usec: int, dos: bool)
    returns (s': State)
    requires Sized(s) && s.i == StageEi(src) && Queued(q, s.rx, rs, was, sec, usec)
    ensures var src' := AfterErrors(src, s.tx, s.bus);
            && Reaches(cfg, s, s', StageTi(src'), s'.tx, s'.rx, s.bus.(resetreq := s.bus.resetreq && !src.ei), sec, usec, dos)
            && Queued(q, s'.rx, rs + Device.If(src.ei, Device.ErrorReport(src'.flags)), was, sec, usec)
    ensures SameButBuffer(s.tx, s'.tx) && s'.rx.fifo == s.rx.fifo
  {
    hide ProduceAll, PassAll, AfterErrors;
    AfterErrorsIs(src, s.tx, s.bus);
    if src.ei {
      var a := ErrorBranchStarts(cfg, s, src, sec, usec, dos);
      ErrorIsQueued(cfg, q, a.rx, rs, was, a.i.src.flags, sec, usec);
      s' := ReportSteps(cfg, a, sec, usec, dos);
    } else {
      assert rs + [] == rs;
      s' := s;
    }
  }

  lemma TransmitBranch(cfg: Config, s: State, src: Source, sec: int, usec: int, dos: bool) returns (s': State)
    requires Sized(s) && s.i == StageTi(src)
    ensures Reaches(cfg, s, s', StageDi(src), AfterService(cfg, s.tx, src.ti, s.bus.resetreq), s.rx, s.bus, sec, usec, dos)
  {
    hide Produced, Consume, Activation;
    s' := s;
    if src.ti {
      var a := NextI(cfg, s, sec, usec, dos);
      var b := RunSteps(cfg, a, sec, usec, dos);
      s' := NextI(cfg, b, sec, usec, dos);
    }
  }

  /** The transmit interrupt, real or simulated, is served by an activation. */
  function AfterService(cfg: Config, tx: Tx, ti: bool, reset: bool): (tx': Tx)
    requires IsRingSize(|tx.q.slots|)
  {
    if ti then Activation(cfg, tx.(txinprogress := false), reset, Test) else tx
  }

  /** The transmit side after a pass over the bits `src`, as in Dev.Served. */
  function Served(v: Device.TxView, baud: int, src: Source, tx: Tx, bus: Bus): Device.TxView
    requires baud > 0 && ((src.ti || src.ei) && v.queue != [] ==> v.queue[0].length >= 0)
  {
    if AfterErrors(src, tx, bus).ti then
      Device.Consumed(v.(inprogress := false), baud, (bus.resetreq ==> src.ei) && !tx.buffer.Busy?)
    else
      v
  }

  lemma TransmitIsServed(baud: int, s: State, tx: Tx, src: Source, timer: int, wire: seq<Frame>)
    requires baud > 0 && Valid(s.tx.q) && SameButBuffer(s.tx, tx) && (src.ti ==> !s.tx.buffer.Busy?)
    requires (src.ti || src.ei) && Contents(s.tx.q) != [] ==> Contents(s.tx.q)[0].length >= 0
    ensures var tx' := AfterService(AtRate(baud), tx, AfterErrors(src, s.tx, s.bus).ti, s.bus.resetreq && !src.ei);
            var v' := Served(ViewOf(s.tx, timer, wire), baud, src, s.tx, s.bus);
            Valid(tx'.q) && ViewOf(tx', v'.timer, v'.wire) == v'
  {
    hide Activation, Device.Consumed;
    if AfterErrors(src, s.tx, s.bus).ti {
      ActivationIsTransmit(baud, tx.(txinprogress := false), s.bus.resetreq && !src.ei, timer, wire);
    }
  }

  /**
   A whole pass of the handler is what `Dev.HandlePass` is proved to be: the reports take their places in
   order as far as there is room, the head of the FIFO goes behind the queue, and the transmit queue is
   served exactly if the interrupt was real or is simulated.
   */
  lemma PassIsHandlePass(baud: int, s: State, src: Source, sec: int, usec: int, dos: bool, timer: int, wire: seq<Frame>)
    requires baud > 0 && Sized(s) && Valid(s.tx.q) && Valid(s.rx.q) && s.i == StageRx(src)
    requires (src.ri ==> s.rx.fifo != []) && (src.ti ==> !s.tx.buffer.Busy?)
    requires (src.ti || src.ei) && Contents(s.tx.q) != [] ==> Contents(s.tx.q)[0].length >= 0
    ensures var s' := PassAll(AtRate(baud), s, sec, usec, dos && !src.ri);
            var v' := Served(ViewOf(s.tx, timer, wire), baud, src, s.tx, s.bus);
            && s'.i == IRead
            && Queued(Contents(s.rx.q), s'.rx,
                      Device.Told(Bits(src), s.rx.fifo, src.flags, Device.ErrorBits(s.bus.busoff, s.bus.errstatus), dos),
                      s.rx.overrun, sec, usec)
            && s'.rx.fifo == s.rx.fifo[if src.ri && |Contents(s.rx.q)| < |s.rx.q.slots| then 1 else 0..]
            && Valid(s'.tx.q) && ViewOf(s'.tx, v'.timer, v'.wire) == v'
  {
    hide *;
    SizesAre(s);
    var cfg, dos', q := AtRate(baud), dos && !src.ri, Contents(s.rx.q);
    var src' := AfterErrors(src, s.tx, s.bus);
    var b := NoticeBranches(baud, s, src, sec, usec, dos');
    SizesAre(b);
    TransmitIsServed(baud, s, b.tx, src, timer, wire);
    var c := TransmitBranch(cfg, b, src', sec, usec, dos');
    ReachesIs(cfg, b, c, StageDi(src'), AfterService(cfg, b.tx, src'.ti, b.bus.resetreq), b.rx, b.bus, sec, usec, dos');
    var rs' := Device.FrameReports(src.ri, s.rx.fifo, src.flags) + Device.If(src.ei, Device.ErrorReport(src'.flags));
    var d := OverrunBranch(cfg, q, rs', s.rx.overrun, c, src', sec, usec, dos');
    ReachesIs(cfg, c, d, IRead, c.tx, d.rx, c.bus, sec, usec, dos');
    AllTold(src, s.tx, s.bus, s.rx.fifo, dos);
  }

  /** The reports of a pass, in the terms of both models. */
  lemma AllTold(src: Source, tx: Tx, bus: Bus, fifo: seq<Image>, dos: bool)
    ensures var src' := AfterErrors(src, tx, bus);
            Device.Told(Bits(src), fifo, src.flags, Device.ErrorBits(bus.busoff, bus.errstatus), dos)
            == Device.FrameReports(src.ri, fifo, src.flags) + Device.If(src.ei, Device.ErrorReport(src'.flags))
               + Device.If(src'.di, Device.ErrorReport(if dos && !src.ri then src'.flags + MSG_OVR else src'.flags))
  {
    hide Device.Told, Device.ErrorBits;
    AfterErrorsIs(src, tx, bus);
    Device.ToldIs(Bits(src), fifo, src.flags, Device.ErrorBits(bus.busoff, bus.errstatus), dos);
  }

  /** The receive branch and the error branch. */
  lemma NoticeBranches(baud: int, s: State, src: Source, sec: int, usec: int, dos: bool) returns (s': State)
    requires baud > 0 && Sized(s) && Valid(s.rx.q) && s.i == StageRx(src) && (src.ri ==> s.rx.fifo != [])
    ensures var src' := AfterErrors(src, s.tx, s.bus);
            && Sized(s') && s'.i == StageTi(src') && SameButBuffer(s.tx, s'.tx)
            && s'.bus == s.bus.(resetreq := s.bus.resetreq && !src.ei)
            && PassAll(AtRate(baud), s, sec, usec, dos) == PassAll(AtRate(baud), s', sec, usec, dos)
            && Queued(Contents(s.rx.q), s'.rx,
                      Device.FrameReports(src.ri, s.rx.fifo, src.flags) + Device.If(src.ei, Device.ErrorReport(src'.flags)),
                      s.rx.overrun, sec, usec)
            && s'.rx.fifo == s.rx.fifo[if src.ri && |Contents(s.rx.q)| < |s.rx.q.slots| then 1 else 0..]
  {
    hide *;
    var rs := Device.FrameReports(src.ri, s.rx.fifo, src.flags);
    var a := FrameBranch(baud, s, src, sec, usec, dos);
    ReachesIs(AtRate(baud), s, a, StageEi(src), s.tx, a.rx, s.bus, sec, usec, dos);
    s' := ErrorBranch(AtRate(baud), Contents(s.rx.q), rs, s.rx.overrun, a, src, sec, usec, dos);
    ReachesIs(AtRate(baud), a, s', StageTi(AfterErrors(src, s.tx, s.bus)), s'.tx, s'.rx,
              s.bus.(resetreq := s.bus.resetreq && !src.ei), sec, usec, dos);
  }

  lemma SizesAre(s: State)
    requires Sized(s)
    ensures IsRingSize(|s.tx.q.slots|) && IsRingSize(|s.rx.q.slots|)
  {
  }

  lemma ReachesIs(cfg: Config, s: State, s': State, i': Isr, tx': Tx, rx': Rx, bus': Bus, sec: int, usec: int, dos: bool)
    requires Sized(s) && Reaches(cfg, s, s', i', tx', rx', bus', sec, usec, dos)
    ensures Sized(s') && s'.i == i' && s'.tx == tx' && s'.rx == rx' && s'.bus == bus'
    ensures PassAll(cfg, s, sec, usec, dos) == PassAll(cfg, s', sec, usec, dos)
  {
  }

  lemma AfterErrorsIs(src: Source, tx: Tx, bus: Bus)
    ensures var src' := AfterErrors(src, tx, bus);
            && src'.ri == src.ri && src'.di == src.di
            && src'.flags == src.flags + (if src.ei then Device.ErrorBits(bus.busoff, bus.errstatus) else 0)
            && (!src.ei ==> src' == src)
  {
  }

  lemma FrameBranch(baud: int, s: State, src: Source, sec: int, usec: int, dos: bool) returns (s': State)
    requires baud > 0 && Sized(s) && Valid(s.rx.q) && s.i == StageRx(src) && (src.ri ==> s.rx.fifo != [])
    ensures Reaches(AtRate(baud), s, s', StageEi(src), s.tx, s'.rx, s.bus, sec, usec, dos)
    ensures Queued(Contents(s.rx.q), s'.rx, Device.FrameReports(src.ri, s.rx.fifo, src.flags), s.rx.overrun, sec, usec)
    ensures s'.rx.fifo == s.rx.fifo[if src.ri && |Contents(s.rx.q)| < |s.rx.q.slots| then 1 else 0..]
  {
    hide ProduceAll, PassAll;
    CountersAreExact(s.rx.q);
    s' := s;
    if src.ri {
      FrameIsQueued(baud, s.rx, src.flags, sec, usec);
      s' := ReportSteps(AtRate(baud), s, sec, usec, dos);
    }
  }

  lemma OverrunBranch(cfg: Config, q: seq<Msg>, rs: seq<Device.Report>, was: bool, s: State, src: Source, sec: int, usec: int, dos: bool)
    returns (s': State)
    requires Sized(s) && s.i == StageDi(src) && Queued(q, s.rx, rs, was, sec, usec)
    ensures Reaches(cfg, s, s', IRead, s.tx, s'.rx, s.bus, sec, usec, dos) && s'.rx.fifo == s.rx.fifo
    ensures Queued(q, s'.rx, rs + Device.If(src.di, Device.ErrorReport(if dos then src.flags + MSG_OVR else src.flags)), was, sec, usec)
    ensures PassAll(cfg, s', sec, usec, dos) == s'
  {
    hide ProduceAll;
    s' := s;
    assert rs + [] == rs;
    if src.di {
      ErrorIsQueued(cfg, q, s.rx, rs, was, FlagsOf(s.i, dos), sec, usec);
      s' := ReportSteps(cfg, s, sec, usec, dos);
    }
  }

  // ---------------------------------------------------------------- from the interrupt register on

  /** The bits and flags with which the handler begins a pass. */
  function Noted(s: State): Source {
    Source(s.rx.fifo != [], s.bus.warn, s.tx.txint, s.bus.ovrint, if s.rx.overrun then MSG_BOVR else 0)
  }

  /** They are those of the interrupt register, and bit 7 for the mark of the queue; the register is cleared. */
  lemma ReadIrqIsRead(cfg: Config, s: State, sec: int, usec: int, dos: bool)
    requires Sized(s) && s.i == IRead
    ensures var s', irq := NextI(cfg, s, sec, usec, dos), Bits(Noted(s));
            && irq == Sja1000.Irq(s.rx.fifo != [], s.bus.warn, s.tx.txint, s.bus.ovrint)
            && s'.tx == s.tx.(txint := false) && s'.bus == s.bus.(warn := false, ovrint := false) && s'.rx == s.rx
            && s'.i == if irq.Any() then StageRx(Noted(s)) else IOut
  {
    hide Consume, Produced;
  }

  lemma NotedFlags(s: State)
    ensures Noted(s).flags == Device.BaseFlags(s.rx.overrun)
    ensures forall i: nat :: Bit(Noted(s).flags, i) == One(i == 7 && s.rx.overrun)
  {
    hide Bit;
    forall i: nat ensures Bit(Noted(s).flags, i) == One(i == 7 && s.rx.overrun) {
      Device.FlagsAddUp(s.rx.overrun, false, false, false, false, i);
    }
  }

  lemma {:induction false} PassKeepsSize(cfg: Config, s: State, sec: int, usec: int, dos: bool)
    requires Sized(s)
    ensures |PassAll(cfg, s, sec, usec, dos).rx.q.slots| == |s.rx.q.slots|
    decreases HandlerRank(s.i)
  {
    hide NextI;
    if !s.i.IRead? && !s.i.IOut? {
      StepKeepsSizes(cfg, s, StepI(sec, usec, dos));
      HandlerMovesOn(cfg, s, sec, usec, dos);
      PassKeepsSize(cfg, NextI(cfg, s, sec, usec, dos), sec, usec, dos);
    }
  }

  lemma HandlerMovesOn(cfg: Config, s: State, sec: int, usec: int, dos: bool)
    requires Sized(s) && !s.i.IRead? && !s.i.IOut?
    ensures HandlerRank(NextI(cfg, s, sec, usec, dos).i) < HandlerRank(s.i)
  {
    hide Produced, HalfEmpty, Rings.Advance, SetHead, Head, Capped, Empty;
  }

  /** What the pass has queued, message by message. */
  lemma QueuedIsTold(q: seq<Msg>, rx: Rx, irq: Sja1000.Irq, fifo: seq<Image>, was: bool,
                     busoff: bool, errstatus: bool, dos: bool, sec: int, usec: int)
    requires irq.ri ==> fifo != []
    requires Queued(q, rx, Device.Told(irq, fifo, Device.BaseFlags(was), Device.ErrorBits(busoff, errstatus), dos), was, sec, usec)
    ensures var room := |rx.q.slots| - |q|;
            && Valid(rx.q) && q <= Contents(rx.q) && room >= 0
            && Device.PassTold(Contents(rx.q)[|q|..], room, irq, fifo, was, busoff, errstatus, dos, sec, usec)
            && rx.overrun == Device.Overruns(irq, room, was)
  {
    hide Device.PassTold, Device.Told, Device.BaseFlags, Device.ErrorBits, Device.TookFirst;
    Device.ToldIsPassTold(Contents(rx.q)[|q|..], |rx.q.slots| - |q|, irq, fifo, was, busoff, errstatus, dos, sec, usec);
    Device.ToldAt(irq, fifo, Device.BaseFlags(was), Device.ErrorBits(busoff, errstatus), dos);
  }

  lemma NothingQueued(rx: Rx, irq: Sja1000.Irq, busoff: bool, errstatus: bool, dos: bool, sec: int, usec: int)
    requires Valid(rx.q) && !irq.Any()
    ensures Queued(Contents(rx.q), rx,
                   Device.Told(irq, rx.fifo, Device.BaseFlags(rx.overrun), Device.ErrorBits(busoff, errstatus), dos),
                   rx.overrun, sec, usec)
  {
    CountersAreExact(rx.q);
    assert Contents(rx.q)[|Contents(rx.q)|..] == [];
  }

  /**
   From one look at the interrupt register to the next: the messages that join the queue are those that
   `Dev.HandlePass` is proved to add, bit by bit, and the mark is the one that it leaves.
   */
  lemma ReadAndPass(baud: int, s: State, sec: int, usec: int, dos: bool)
    requires baud > 0 && Sized(s) && Valid(s.tx.q) && Valid(s.rx.q) && s.i == IRead
    requires s.tx.txint ==> !s.tx.buffer.Busy?
    requires (s.tx.txint || s.bus.warn) && Contents(s.tx.q) != [] ==> Contents(s.tx.q)[0].length >= 0
    ensures var dos' := dos && s.rx.fifo == [];
            var irq := Sja1000.Irq(s.rx.fifo != [], s.bus.warn, s.tx.txint, s.bus.ovrint);
            var s' := PassAll(AtRate(baud), NextI(AtRate(baud), s, sec, usec, dos'), sec, usec, dos');
            var q, room := Contents(s.rx.q), |s.rx.q.slots| - |Contents(s.rx.q)|;
            && Valid(s'.rx.q) && q <= Contents(s'.rx.q) && room >= 0
            && Device.PassTold(Contents(s'.rx.q)[|q|..], room, irq, s.rx.fifo, s.rx.overrun, s.bus.busoff, s.bus.errstatus, dos, sec, usec)
            && s'.rx.overrun == Device.Overruns(irq, room, s.rx.overrun)
  {
    hide PassAll, NextI, Queued, Noted, Device.Told, Device.PassTold, Device.Overruns, Device.BaseFlags, Device.ErrorBits;
    var dos' := dos && s.rx.fifo == [];
    var irq, a := Bits(Noted(s)), NextI(AtRate(baud), s, sec, usec, dos');
    ReadIrqIsRead(AtRate(baud), s, sec, usec, dos');
    PassKeepsSize(AtRate(baud), a, sec, usec, dos');
    PassFromNoted(baud, s, a, sec, usec, dos);
    QueuedIsTold(Contents(s.rx.q), PassAll(AtRate(baud), a, sec, usec, dos').rx, irq, s.rx.fifo, s.rx.overrun,
                 s.bus.busoff, s.bus.errstatus, dos, sec, usec);
  }

  lemma PassFromNoted(baud: int, s: State, a: State, sec: int, usec: int, dos: bool)
    requires baud > 0 && Sized(a) && Valid(a.tx.q) && Valid(a.rx.q) && a.rx == s.rx && a.tx == s.tx.(txint := false)
    requires a.bus == s.bus.(warn := false, ovrint := false)
    requires a.i == if Bits(Noted(s)).Any() then StageRx(Noted(s)) else IOut
    requires s.tx.txint ==> !s.tx.buffer.Busy?
    requires (s.tx.txint || s.bus.warn) && Contents(s.tx.q) != [] ==> Contents(s.tx.q)[0].length >= 0
    ensures Queued(Contents(s.rx.q), PassAll(AtRate(baud), a, sec, usec, dos && s.rx.fifo == []).rx,
                   Device.Told(Bits(Noted(s)), s.rx.fifo, Device.BaseFlags(s.rx.overrun),
                               Device.ErrorBits(s.bus.busoff, s.bus.errstatus), dos), s.rx.overrun, sec, usec)
  {
    hide PassAll, Queued, Device.Told, Device.BaseFlags, Device.ErrorBits, ViewOf;
    NotedFlags(s);
    if Bits(Noted(s)).Any() {
      PassIsHandlePass(baud, a, Noted(s), sec, usec, dos, 0, []);
    } else {
      PassIsOver(AtRate(baud), a, sec, usec, dos && s.rx.fifo == []);
      NothingQueued(s.rx, Bits(Noted(s)), s.bus.busoff, s.bus.errstatus, dos, sec, usec);
    }
  }

  lemma PassIsOver(cfg: Config, s: State, sec: int, usec: int, dos: bool)
    requires Sized(s) && s.i.IOut?
    ensures PassAll(cfg, s, sec, usec, dos) == s
  {
  }
}
