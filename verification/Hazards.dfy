/**
 None of the assumptions about the surroundings can be dropped.  Without the lock, with an early, a hasty
 or a stale handler, or with a timer that another device can take away, a run breaks the transmit side;
 with a torn read, a run breaks the receive side.  That is so at every size of the queues, so the assumptions are exact.
 */
module Hazards {
  import opened Options
  import opened CanTypes
  import opened Codec
  import opened Rings
  import opened Driver
  import opened Token
  import opened Receive
  import opened Polling
  import opened Theorems

  predicate OfSize(s: State, size: nat, rxSize: nat) {
    |s.tx.q.slots| == size && |s.rx.q.slots| == rxSize
  }

  predicate SameSize(s: State, s': State) {
    OfSize(s', |s.tx.q.slots|, |s.rx.q.slots|)
  }

  lemma {:induction false} ExtendRun(cfg: Config, s0: State, acts: seq<Action>, s: State, a: Action)
    requires Sized(s0) && Runs(cfg, s0, acts, s) && Sized(s) && Enabled(cfg, s, a)
    ensures Runs(cfg, s0, acts + [a], Apply(cfg, s, a))
    decreases |acts|
  {
    if acts == [] {
      assert ([a])[1..] == [];
    } else {
      ExtendRun(cfg, Apply(cfg, s0, acts[0]), acts[1..], s, a);
      assert (acts + [a])[1..] == acts[1..] + [a];
    }
  }

  lemma Go(cfg: Config, s: State, a: Action) returns (s': State)
    requires Reachable(cfg, s) && Sized(s) && Enabled(cfg, s, a)
    ensures s' == Apply(cfg, s, a) && Reachable(cfg, s') && Sized(s') && SameSize(s, s')
  {
    hide NextW, NextI, NextT, NextR, NextP, Wiped;
    StepKeepsSizes(cfg, s, a);
    var s0: State, acts: seq<Action> :| Init(s0) && Runs(cfg, s0, acts, s);
    ExtendRun(cfg, s0, acts, s, a);
    s' := Apply(cfg, s, a);
  }

  lemma GoWriter(cfg: Config, s: State) returns (s': State)
    requires Reachable(cfg, s) && Sized(s) && !s.tx.w.WOut?
    ensures s' == s.(tx := NextW(cfg, s.tx, s.bus.resetreq)) && Reachable(cfg, s') && Sized(s') && SameSize(s, s')
  {
    s' := Go(cfg, s, StepW);
  }

  lemma GoHandler(cfg: Config, s: State) returns (s': State)
    requires Reachable(cfg, s) && Sized(s) && !s.i.IOut? && HandlerMayStep(cfg, s)
    ensures s' == NextI(cfg, s, 0, 0, false) && Reachable(cfg, s') && Sized(s') && SameSize(s, s')
  {
    s' := Go(cfg, s, StepI(0, 0, false));
  }

  /** The handler takes one step of `qconsume`. */
  lemma GoConsume(cfg: Config, s: State) returns (s': State)
    requires Reachable(cfg, s) && Sized(s) && s.i.IRun?
    ensures Reachable(cfg, s') && Sized(s') && SameSize(s, s')
    ensures var r := Consume(cfg, s.tx, s.bus.resetreq, s.i.c);
            s' == State(r.0, s.rx, s.bus, if r.1.Done? then IWake(s.i.src) else IRun(s.i.src, r.1), s.poll)
  {
    hide Consume, Reachable;
    s' := GoHandler(cfg, s);
  }

  /** After `qconsume` the handler looks for the overrun bit, and here it finds none. */
  lemma GoWake(cfg: Config, s: State) returns (s': State)
    requires Reachable(cfg, s) && Sized(s) && s.i.IWake? && !s.i.src.di
    ensures Reachable(cfg, s') && Sized(s') && s'.i == IRead
    ensures s'.tx == s.tx && s'.rx == s.rx && s'.bus == s.bus
  {
    s' := GoHandler(cfg, s);
  }

  /** The queue is empty and in order, and the writer is outside. */
  ghost predicate Quiet(cfg: Config, s: State) {
    Reachable(cfg, s) && Sized(s) && Valid(s.tx.q) && Len(s.tx.q) == 0 && s.tx.w.WOut?
  }

  /** The two states agree but for the writer, its queue and its logs. */
  predicate OnlyWriter(s: State, s': State) {
    && s'.i == s.i && s'.bus == s.bus && s'.rx == s.rx && s'.poll == s.poll && s'.tx.t == s.tx.t
    && s'.tx.armed == s.tx.armed && s'.tx.txint == s.tx.txint && |s'.tx.q.slots| == |s.tx.q.slots|
  }

  /** `can_write` finds room. */
  lemma OfferOne(cfg: Config, s: State, m: Msg) returns (s': State)
    requires Quiet(cfg, s)
    ensures Reachable(cfg, s') && Sized(s') && s' == s.(tx := s.tx.(w := WFill(m)))
  {
    hide Reachable, Consume, Rings.Contents, Index;
    CountersAreExact(s.tx.q);
    RingSizeBounds(|s.tx.q.slots|);
    var a := Go(cfg, s, Write(m));
    s' := GoWriter(cfg, a);
  }

  /** `can_write` publishes one message. */
  lemma PublishOne(cfg: Config, s: State, m: Msg) returns (s': State)
    requires Quiet(cfg, s)
    ensures Reachable(cfg, s') && Sized(s') && OnlyWriter(s, s')
    ensures Valid(s'.tx.q) && Len(s'.tx.q) == 1 && Head(s'.tx.q) == m
    ensures s'.tx.w == WIdle && s'.tx.idle == s.tx.idle && s'.tx.accepted == s.tx.accepted + [m]
    ensures s'.tx.sent == s.tx.sent && s'.tx.buffer == s.tx.buffer && s'.tx.txinprogress == s.tx.txinprogress
  {
    hide Reachable, Consume, Rings.Contents, Index;
    var a := OfferOne(cfg, s, m);
    var b := GoWriter(cfg, a);
    CountersAreExact(s.tx.q);
    RingSizeBounds(|s.tx.q.slots|);
    FillKeepsContents(s.tx.q, m);
    s' := GoWriter(cfg, b);
  }

  /** `can_write` finds the queue idle, and `qconsume` a message. */
  lemma TakeIdle(cfg: Config, s: State) returns (s': State)
    requires Reachable(cfg, s) && Sized(s) && s.tx.w == WIdle && s.tx.idle && Valid(s.tx.q) && Len(s.tx.q) == 1
    ensures Reachable(cfg, s') && Sized(s') && s'.tx == s.tx.(w := WKick(Prep), idle := false) && OnlyWriter(s, s')
  {
    hide Reachable, Rings.Contents, Index, TransmitSafe;
    CountersAreExact(s.tx.q);
    var a := GoWriter(cfg, s);
    var b := GoWriter(cfg, a);
    s' := GoWriter(cfg, b);
  }

  /** `sendcanmsg` up to the transmission request. */
  lemma SendHead(cfg: Config, s: State) returns (s': State)
    requires Reachable(cfg, s) && Sized(s) && s.tx.w == WKick(Prep) && Valid(s.tx.q) && Len(s.tx.q) == 1
    requires cfg.delay(Capped(Head(s.tx.q))) <= 0 && !s.bus.resetreq
    ensures Reachable(cfg, s') && Sized(s') && OnlyWriter(s, s') && s'.tx.w == WKick(Mark)
    ensures var m := Capped(Head(s.tx.q));
            s'.tx == s.tx.(w := WKick(Mark), buffer := Busy, q := SetHead(s.tx.q, m), loaded := m, sent := s.tx.sent + [m])
  {
    hide Reachable, Rings.Contents, Index, TransmitSafe;
    var a := GoWriter(cfg, s);
    var b := GoWriter(cfg, a);
    s' := GoWriter(cfg, b);
  }

  /** `can_write` finds the queue idle and goes through `qconsume` up to the transmission request. */
  lemma KickOne(cfg: Config, s: State) returns (s': State)
    requires Reachable(cfg, s) && Sized(s) && s.tx.w == WIdle && s.tx.idle
    requires Valid(s.tx.q) && Len(s.tx.q) == 1 && cfg.delay(Capped(Head(s.tx.q))) <= 0 && !s.bus.resetreq
    ensures Reachable(cfg, s') && Sized(s') && OnlyWriter(s, s')
    ensures Valid(s'.tx.q) && Len(s'.tx.q) == 1 && Head(s'.tx.q) == Capped(Head(s.tx.q))
    ensures s'.tx.w == WKick(Mark) && !s'.tx.idle && s'.tx.buffer == Busy && s'.tx.txinprogress == s.tx.txinprogress
    ensures s'.tx.accepted == s.tx.accepted && s'.tx.sent == s.tx.sent + [Capped(Head(s.tx.q))]
  {
    var a := TakeIdle(cfg, s);
    s' := SendHead(cfg, a);
  }

  /** The kick returns. */
  lemma FinishKick(cfg: Config, s: State) returns (s': State)
    requires Reachable(cfg, s) && Sized(s) && s.tx.w == WKick(Mark) && Valid(s.tx.q) && Len(s.tx.q) == 1
    ensures Quiet(cfg, s') && OnlyWriter(s, s') && s'.tx.txinprogress
    ensures s'.tx.idle == s.tx.idle && s'.tx.buffer == s.tx.buffer
  {
    hide Reachable, Rings.Contents, Index, TransmitSafe;
    CountersAreExact(s.tx.q);
    var a := GoWriter(cfg, s);
    s' := GoWriter(cfg, a);
  }

  /** The handler reads a transmit interrupt and nothing else, and is about to consume. */
  lemma TakeInterrupt(cfg: Config, s: State) returns (s': State)
    requires Reachable(cfg, s) && Sized(s) && s.i == IRead && (WindowOpen(s.tx) ==> cfg.early)
    requires s.tx.txint && s.rx.fifo == [] && !s.bus.warn && !s.bus.ovrint
    ensures Reachable(cfg, s') && Sized(s') && IsrPc(s'.i) == Test && !s'.i.src.di
    ensures s'.tx == s.tx.(txint := false, txinprogress := false)
    ensures s'.bus == s.bus && s'.rx == s.rx && s'.poll == s.poll
  {
    hide Reachable, Rings.Contents, Index, TransmitSafe;
    var a := GoHandler(cfg, s);
    s' := GoHandler(cfg, a);
  }

  const CALM_BUS: Bus := Bus(false, false, false, false, false)

  const NOTHING: Image := [0, 0, 0, 0, 0, 0, 0, 0, 0, 0, 0, 0, 0]

  function Slots(size: nat): (r: seq<Msg>)
    ensures |r| == size
  {
    seq<Msg>(size, _ => BLANK)
  }

  /** A session that has just been opened, with queues of any size. */
  lemma OpenSession(cfg: Config, size: nat, rxSize: nat) returns (s: State)
    requires IsRingSize(size) && IsRingSize(rxSize)
    ensures Quiet(cfg, s) && s.tx.idle && s.tx.sent == s.tx.accepted == []
    ensures |s.tx.q.slots| == size && |s.rx.q.slots| == rxSize
    ensures !s.tx.armed && s.tx.t.TOut? && s.tx.buffer == Free && !s.tx.txint && !s.tx.txinprogress
    ensures s.i == IOut && s.bus == CALM_BUS && s.poll.p == POut
    ensures Valid(s.rx.q) && Len(s.rx.q) == 0 && s.rx.r == ROut && !s.rx.overrun
    ensures s.rx.fifo == s.rx.arrived == [] && s.rx.wiped == [] && s.rx.delivered == []
  {
    s := State(Tx(Ring(0, 0, Slots(size)), true, false, BLANK, false, Free, false, WOut, TOut, [], []),
               Rx(Ring(0, 0, Slots(rxSize)), false, ROut, [], NOTHING, [], [], []),
               CALM_BUS, IOut, Poll(POut, false));
    assert Init(s) && Runs(cfg, s, [], s);
  }

  // ---------------------------------------------------------------- left alone

  /**
   Nobody is in the transmit queue, no timer and no interrupt is due, and whoever publishes will not look
   at the queue; the handler's test for a lost frame fails, or no error warning is on its way to it.
   */
  predicate Deserted(s: State) {
    && s.tx.t.TOut? && !s.tx.armed && !s.tx.txint && !s.tx.buffer.Busy?
    && !s.tx.w.WClear? && !s.tx.w.WKick? && (s.tx.idle ==> s.tx.w.WOut?)
    && !TookInterrupt(s.i) && !s.i.IRun?
    && (s.tx.txinprogress ==> !s.bus.warn && !s.bus.busoff && !WillSimulate(s))
    && (s.tx.buffer.Lost? ==> s.tx.txinprogress && !s.bus.errstatus)
  }

  /** What could still help: a write to an idle queue, or an error warning while `txinprogress` is set. */
  predicate Rescues(tx: Tx, a: Action) {
    (tx.idle && a.Write?) || (tx.txinprogress && (a.Warn? || a.BusOff?))
  }

  predicate NoRescue(tx: Tx, acts: seq<Action>) {
    forall k :: 0 <= k < |acts| ==> !Rescues(tx, acts[k])
  }

  /** Nothing more is handed to the controller, and nobody attends to the queue. */
  predicate LeftAlone(s: State, s': State) {
    && s'.tx.sent == s.tx.sent && Len(s'.tx.q) >= Len(s.tx.q) && !Attended(s')
    && (s.tx.idle ==> s'.tx.q == s.tx.q)
    && s'.tx.idle == s.tx.idle && s'.tx.txinprogress == s.tx.txinprogress
  }

  lemma DesertedWriter(cfg: Config, s: State)
    requires Sized(s) && Deserted(s) && !s.tx.w.WOut?
    ensures var s' := Apply(cfg, s, StepW); Deserted(s') && LeftAlone(s, s')
  {
    hide Consume, NextI, Full, Index;
  }

  lemma DesertedHandler(cfg: Config, s: State, sec: int, usec: int, dos: bool)
    requires Sized(s) && Deserted(s) && !s.i.IOut?
    ensures var s' := NextI(cfg, s, sec, usec, dos); Deserted(s') && LeftAlone(s, s')
  {
    hide Consume, Produced, ErrorMsg;
  }

  lemma DesertedOthers(cfg: Config, s: State, a: Action)
    requires Sized(s) && Deserted(s) && Enabled(cfg, s, a) && !Rescues(s.tx, a) && !a.StepW? && !a.StepI?
    ensures var s' := Apply(cfg, s, a); Deserted(s') && LeftAlone(s, s')
  {
    hide NextW, NextT, NextI, NextR, NextP, Wiped;
  }

  lemma {:induction false} RunDeserted(cfg: Config, s: State, acts: seq<Action>, s': State)
    requires Sized(s) && Deserted(s) && NoRescue(s.tx, acts) && Runs(cfg, s, acts, s')
    ensures LeftAlone(s, s')
    decreases |acts|
  {
    hide Deserted, Apply;
    if acts == [] {
      DesertedIsUnattended(s);
    } else {
      var a := acts[0];
      DesertedStep(cfg, s, a);
      RunDeserted(cfg, Apply(cfg, s, a), acts[1..], s');
    }
  }

  lemma DesertedIsUnattended(s: State)
    requires Deserted(s)
    ensures !Attended(s)
  {
  }

  lemma DesertedStep(cfg: Config, s: State, a: Action)
    requires Sized(s) && Deserted(s) && Enabled(cfg, s, a) && !Rescues(s.tx, a)
    ensures var s' := Apply(cfg, s, a); Deserted(s') && LeftAlone(s, s')
  {
    hide Deserted, NextI, NextW;
    if a.StepW? {
      DesertedWriter(cfg, s);
    } else if a.StepI? {
      DesertedHandler(cfg, s, a.sec, a.usec, a.dos);
    } else {
      DesertedOthers(cfg, s, a);
    }
  }

  /** `s` is left alone in every run without a rescue. */
  ghost predicate Abandoned(cfg: Config, s: State)
    requires Sized(s)
  {
    forall acts: seq<Action>, s': State | NoRescue(s.tx, acts) && Runs(cfg, s, acts, s') :: LeftAlone(s, s')
  }

  lemma DesertedIsAbandoned(cfg: Config, s: State)
    requires Sized(s) && Deserted(s)
    ensures Abandoned(cfg, s)
  {
    forall acts: seq<Action>, s': State | NoRescue(s.tx, acts) && Runs(cfg, s, acts, s') ensures LeftAlone(s, s') {
      RunDeserted(cfg, s, acts, s');
    }
  }

  // ---------------------------------------------------------------- the early interrupt

  /**
   Served before the requesting `qconsume` has returned, the interrupt makes the handler consume the
   same slot: two consumers, and one accepted message sent twice.
   */
  lemma EarlyInterruptSendsTwice(cfg: Config, size: nat, rxSize: nat) returns (s: State)
    requires cfg.early && cfg.delay(BLANK) <= 0 && IsRingSize(size) && IsRingSize(rxSize)
    ensures Reachable(cfg, s) && OfSize(s, size, rxSize) && !OneConsumer(s)
    ensures s.tx.accepted == [BLANK] && s.tx.sent == [BLANK, BLANK]
  {
    hide Reachable, Rings.Valid, Consume, Init;
    var o := OpenSession(cfg, size, rxSize);
    var a := PublishOne(cfg, o, BLANK);
    var b := KickOne(cfg, a);
    var c := CompleteAndInterrupt(cfg, b);
    var d := TakeInterrupt(cfg, c);
    s := SendAgain(cfg, d);
  }

  lemma CompleteAndInterrupt(cfg: Config, s: State) returns (s': State)
    requires Reachable(cfg, s) && Sized(s) && s.i.IOut? && s.tx.buffer.Busy? && !s.bus.busoff
    ensures Reachable(cfg, s') && Sized(s') && s'.i == IRead && s'.tx == s.tx.(buffer := Free, txint := true)
    ensures s'.bus == s.bus && s'.rx == s.rx && s'.poll == s.poll
  {
    var a := Go(cfg, s, Complete);
    s' := Go(cfg, a, Irq);
  }

  lemma SendAgain(cfg: Config, s: State) returns (s': State)
    requires Reachable(cfg, s) && Sized(s) && IsrPc(s.i) == Test && s.tx.w == WKick(Mark)
    requires Valid(s.tx.q) && Len(s.tx.q) == 1 && Head(s.tx.q) == BLANK && cfg.delay(BLANK) <= 0
    ensures Reachable(cfg, s') && s'.tx.w == s.tx.w && IsrPc(s'.i) == Mark && SameSize(s, s')
    ensures s'.tx.accepted == s.tx.accepted && s'.tx.sent == s.tx.sent + [BLANK]
  {
    CountersAreExact(s.tx.q);
    var a := GoConsume(cfg, s);
    s' := HandlerSendsHead(cfg, a);
  }

  lemma HandlerSendsHead(cfg: Config, s: State) returns (s': State)
    requires Reachable(cfg, s) && Sized(s) && IsrPc(s.i) == Prep
    requires Head(s.tx.q) == BLANK && cfg.delay(BLANK) <= 0
    ensures Reachable(cfg, s') && s'.tx.w == s.tx.w && IsrPc(s'.i) == Mark && SameSize(s, s')
    ensures s'.tx.accepted == s.tx.accepted && s'.tx.sent == s.tx.sent + [BLANK]
  {
    hide Reachable, Rings.Valid, SetHead, Index;
    assert Capped(BLANK) == BLANK;
    HeadOfSetHead(s.tx.q, BLANK);
    var a := GoConsume(cfg, s);
    var b := GoConsume(cfg, a);
    s' := GoConsume(cfg, b);
  }

  /** One message has been sent, its interrupt is pending, and the handler starts. */
  lemma SendOne(cfg: Config, size: nat, rxSize: nat) returns (s: State)
    requires cfg.delay(BLANK) <= 0 && IsRingSize(size) && IsRingSize(rxSize)
    ensures Quiet(cfg, s) && OfSize(s, size, rxSize)
    ensures !s.tx.idle && s.tx.txint && s.tx.buffer == Free && s.i == IRead
    ensures s.bus == CALM_BUS && s.rx.fifo == [] && s.tx.t.TOut? && !s.tx.armed
  {
    var o := OpenSession(cfg, size, rxSize);
    var a := PublishOne(cfg, o, BLANK);
    var b := KickOne(cfg, a);
    var c := FinishKick(cfg, b);
    s := CompleteAndInterrupt(cfg, c);
  }

  /**
   Without the lock, a message published while the handler is parking the queue is left behind: nobody
   looks at it before the next write.
   */
  lemma UnlockedQueueStalls(cfg: Config, size: nat, rxSize: nat) returns (s: State)
    requires !cfg.locked && cfg.delay(BLANK) <= 0 && IsRingSize(size) && IsRingSize(rxSize)
    ensures Reachable(cfg, s) && Sized(s) && OfSize(s, size, rxSize) && !NoStall(s)
    ensures s.tx.idle && !s.tx.txinprogress && Len(s.tx.q) == 1 && Abandoned(cfg, s)
  {
    var a := SendOne(cfg, size, rxSize);
    var b := TakeInterrupt(cfg, a);
    var c := AboutToPark(cfg, b);
    var d := PublishOne(cfg, c, BLANK);
    s := ParkTooLate(cfg, d);
    DesertedIsAbandoned(cfg, s);
  }

  lemma AboutToPark(cfg: Config, s: State) returns (s': State)
    requires Quiet(cfg, s) && !cfg.locked && IsrPc(s.i) == Test
    ensures Quiet(cfg, s') && IsrPc(s'.i) == Park && s'.i.src == s.i.src && s'.tx == s.tx && SameSize(s, s')
  {
    CountersAreExact(s.tx.q);
    s' := GoHandler(cfg, s);
  }

  /** The writer looks at `idle` just before the handler sets it. */
  lemma ParkTooLate(cfg: Config, s: State) returns (s': State)
    requires Reachable(cfg, s) && Sized(s) && IsrPc(s.i) == Park && !s.i.src.di && s.tx.w == WIdle && !s.tx.idle
    requires s.tx.buffer == Free && !s.tx.txint && !s.tx.txinprogress && !s.tx.armed && s.tx.t.TOut?
    ensures Reachable(cfg, s') && Sized(s') && SameSize(s, s') && s'.tx.q == s.tx.q && s'.tx.idle && s'.tx.w == WOut
    ensures !s'.tx.txinprogress && Deserted(s')
  {
    hide Reachable, Rings.Contents, Index, TransmitSafe;
    var a := GoWriter(cfg, s);
    var b := GoConsume(cfg, a);
    s' := GoWake(cfg, b);
  }

  // ---------------------------------------------------------------- the handler's error branch

  /** An error message is queued or dropped; then the handler turns to the transmit bit. */
  lemma ReportError(cfg: Config, s: State) returns (s': State)
    requires Reachable(cfg, s) && Sized(s) && s.i.IErr? && s.i.x.Check?
    ensures Reachable(cfg, s') && Sized(s') && SameSize(s, s')
    ensures s'.tx == s.tx && s'.bus == s.bus && s'.rx.fifo == s.rx.fifo && s'.i == StageTi(s.i.src)
  {
    hide Reachable, Rings.Valid, Index, ErrorMsg, Consume, Rings.Contents;
    s' := GoHandler(cfg, s);
    if s'.i.IErr? {
      var a := GoHandler(cfg, s');
      var b := GoHandler(cfg, a);
      s' := GoHandler(cfg, b);
    }
  }

  /** The handler reads an error warning and nothing else. */
  lemma ReadWarning(cfg: Config, s: State) returns (s': State)
    requires Reachable(cfg, s) && Sized(s) && s.i == IRead && s.bus.warn
    requires s.rx.fifo == [] && !s.tx.txint && !s.bus.ovrint
    ensures Reachable(cfg, s') && Sized(s') && SameSize(s, s') && s'.tx == s.tx && s'.rx == s.rx
    ensures s'.bus == s.bus.(warn := false, resetreq := false)
    ensures s'.i.IStatus? && !s'.i.src.ri && !s'.i.src.ti && !s'.i.src.di
  {
    hide Reachable, Rings.Contents, Index, TransmitSafe;
    var a := GoHandler(cfg, s);
    s' := GoHandler(cfg, a);
  }

  // ---------------------------------------------------------------- the hasty test

  /**
   A bus-off loses the frame, and the handler looks for it before the sender has set `txinprogress`.
   The next message, and all that follow it, wait until there is another error warning.
   */
  lemma HastyTestStalls(cfg: Config, size: nat, rxSize: nat) returns (s: State)
    requires cfg.hasty && cfg.delay(BLANK) <= 0 && IsRingSize(size) && IsRingSize(rxSize)
    ensures Reachable(cfg, s) && Sized(s) && OfSize(s, size, rxSize) && !NoStall(s)
    ensures !s.tx.idle && s.tx.txinprogress && Len(s.tx.q) == 1 && Abandoned(cfg, s)
  {
    var o := OpenSession(cfg, size, rxSize);
    var a := PublishOne(cfg, o, BLANK);
    var b := KickOne(cfg, a);
    var c := LoseFrame(cfg, b);
    var d := MissLostFrame(cfg, c);
    var e := FinishKick(cfg, d);
    var f := PublishOne(cfg, e, BLANK);
    s := GoWriter(cfg, f);
    DesertedIsAbandoned(cfg, s);
  }

  /** The frame is lost, and the handler serves the bus-off. */
  lemma LoseFrame(cfg: Config, s: State) returns (s': State)
    requires Reachable(cfg, s) && Sized(s) && s.i.IOut? && s.bus == CALM_BUS && s.rx.fifo == [] && !s.tx.txint
    requires s.tx.buffer.Busy?
    ensures Reachable(cfg, s') && Sized(s') && SameSize(s, s')
    ensures s'.tx == s.tx.(buffer := Lost) && s'.rx.fifo == [] && s'.i == IRead && s'.bus == CALM_BUS.(busoff := true)
  {
    hide Reachable, Rings.Contents, Index, TransmitSafe;
    var a := Go(cfg, s, BusOff(NOTHING));
    var b := Go(cfg, a, Irq);
    var c := ReadWarning(cfg, b);
    var d := GoHandler(cfg, c);
    s' := ReportError(cfg, d);
  }

  /** The controller is back on the bus, and the handler misses the lost frame. */
  lemma MissLostFrame(cfg: Config, s: State) returns (s': State)
    requires cfg.hasty && Reachable(cfg, s) && Sized(s) && s.i.IRead? && s.bus == CALM_BUS.(busoff := true)
    requires s.rx.fifo == [] && !s.tx.txint && s.tx.buffer.Lost? && !s.tx.txinprogress
    ensures Reachable(cfg, s') && Sized(s') && SameSize(s, s')
    ensures s'.tx == s.tx && s'.rx.fifo == [] && s'.i == IRead && s'.bus == CALM_BUS
  {
    hide Reachable, Rings.Contents, Index, TransmitSafe;
    var a := Go(cfg, s, Recover);
    var b := ReadWarning(cfg, a);
    var c := GoHandler(cfg, b);
    var d := GoHandler(cfg, c);
    s' := ReportError(cfg, d);
  }

  // ---------------------------------------------------------------- the stale buffer

  /** The handler is past the error-warning bit of its last read when the frame completes. */
  lemma FreeButNotLost(cfg: Config, size: nat, rxSize: nat) returns (s: State)
    requires cfg.delay(BLANK) <= 0 && IsRingSize(size) && IsRingSize(rxSize)
    ensures Quiet(cfg, s) && OfSize(s, size, rxSize) && TestsFree(s) && s.tx.txint && !s.i.src.di
    ensures s.bus == CALM_BUS && s.rx.fifo == [] && s.tx.t.TOut?
  {
    var o := OpenSession(cfg, size, rxSize);
    var a := PublishOne(cfg, o, BLANK);
    var b := KickOne(cfg, a);
    var c := FinishKick(cfg, b);
    s := WarnThenComplete(cfg, c);
  }

  lemma WarnThenComplete(cfg: Config, s: State) returns (s': State)
    requires Quiet(cfg, s) && s.i.IOut? && s.bus == CALM_BUS && s.rx.fifo == [] && !s.tx.txint
    requires s.tx.buffer.Busy? && s.tx.txinprogress
    ensures Quiet(cfg, s') && SameSize(s, s') && s'.tx == s.tx.(buffer := Free, txint := true)
    ensures TestsFree(s') && !s'.i.src.di && s'.bus == CALM_BUS && s'.rx.fifo == []
  {
    hide Reachable, Rings.Contents, Index, TransmitSafe;
    var a := Go(cfg, s, Warn(false));
    var b := Go(cfg, a, Irq);
    var c := ReadWarning(cfg, b);
    var d := GoHandler(cfg, c);
    s' := Go(cfg, d, Complete);
  }

  /** The handler finds nothing to send and parks the queue. */
  lemma ParkNow(cfg: Config, s: State) returns (s': State)
    requires Quiet(cfg, s) && cfg.locked && s.i.IClear? && !s.i.src.di && s.tx.t.TOut?
    ensures Quiet(cfg, s') && s'.i == IRead && s'.tx == s.tx.(txinprogress := false, idle := true)
    ensures s'.bus == s.bus && s'.rx == s.rx
  {
    CountersAreExact(s.tx.q);
    var a := GoHandler(cfg, s);
    var b := GoConsume(cfg, a);
    s' := GoWake(cfg, b);
  }

  /** A completion mistaken for a loss: the real interrupt follows, and two contexts consume. */
  lemma StaleBufferBreaksExclusion(cfg: Config, size: nat, rxSize: nat) returns (s: State)
    requires cfg.stale && cfg.locked && cfg.delay(BLANK) <= 0 && IsRingSize(size) && IsRingSize(rxSize)
    ensures Reachable(cfg, s) && OfSize(s, size, rxSize) && !OneConsumer(s)
  {
    var a := FreeButNotLost(cfg, size, rxSize);
    var b := GoHandler(cfg, a);
    var c := ReportError(cfg, b);
    var d := ParkNow(cfg, c);
    var e := PublishOne(cfg, d, BLANK);
    s := BothConsume(cfg, e);
  }

  lemma BothConsume(cfg: Config, s: State) returns (s': State)
    requires Reachable(cfg, s) && Sized(s) && s.tx.w == WIdle && s.tx.idle && s.i == IRead && s.tx.t.TOut?
    requires s.tx.txint && s.rx.fifo == [] && s.bus == CALM_BUS
    ensures Reachable(cfg, s') && SameSize(s, s') && !OneConsumer(s')
  {
    hide Reachable, Rings.Contents, Index, TransmitSafe;
    var a := GoWriter(cfg, s);
    var b := GoWriter(cfg, a);
    assert b.tx.w == WKick(Test);
    s' := TakeInterrupt(cfg, b);
  }

  // ---------------------------------------------------------------- the crowded timer

  /**
   Another device takes the timer away from a message that is to be delayed.  It is never sent, and neither
   is any message after it: nothing can help.
   */
  lemma CrowdedTimerStalls(cfg: Config, late: Msg, size: nat, rxSize: nat) returns (s: State)
    requires cfg.crowded && cfg.delay(Capped(late)) > 0 && IsRingSize(size) && IsRingSize(rxSize)
    ensures Reachable(cfg, s) && Sized(s) && OfSize(s, size, rxSize) && !NoStall(s)
    ensures Len(s.tx.q) == 1 && s.tx.accepted == [late] && s.tx.sent == []
    ensures forall acts: seq<Action>, s': State | Runs(cfg, s, acts, s') :: LeftAlone(s, s')
  {
    var o := OpenSession(cfg, size, rxSize);
    var a := PublishOne(cfg, o, late);
    var b := TakeIdle(cfg, a);
    var c := DelayHead(cfg, b);
    s := Go(cfg, c, TakeTimer);
    DesertedIsAbandoned(cfg, s);
    assert forall acts: seq<Action> :: NoRescue(s.tx, acts);
  }

  lemma DelayHead(cfg: Config, s: State) returns (s': State)
    requires Reachable(cfg, s) && Sized(s) && s.tx.w == WKick(Prep) && cfg.delay(Capped(Head(s.tx.q))) > 0
    ensures Reachable(cfg, s') && Sized(s') && SameSize(s, s')
    ensures s' == s.(tx := s.tx.(q := s'.tx.q, armed := true, w := WOut)) && Len(s'.tx.q) == Len(s.tx.q)
  {
    hide Reachable, Rings.Contents, Index, TransmitSafe;
    var a := GoWriter(cfg, s);
    s' := GoWriter(cfg, a);
  }

  // ---------------------------------------------------------------- exactness of the transmit side

  /**
   The transmit side is safe in every run exactly when all five assumptions are made, whatever the
   sizes of the queues; `late` is any message that has to wait.
   */
  lemma SafeExactlyWhenSound(cfg: Config, late: Msg, size: nat, rxSize: nat)
    requires cfg.delay(BLANK) <= 0 && cfg.delay(Capped(late)) > 0 && IsRingSize(size) && IsRingSize(rxSize)
    ensures (forall s: State | Reachable(cfg, s) && OfSize(s, size, rxSize) :: TransmitSafe(s)) <==> cfg.Sound()
  {
    if cfg.Sound() {
      forall s: State | Reachable(cfg, s) && OfSize(s, size, rxSize) ensures TransmitSafe(s) { TransmitIsSafe(cfg, s); }
    } else if !cfg.locked {
      var s := UnlockedQueueStalls(cfg, size, rxSize);
    } else if cfg.early {
      var s := EarlyInterruptSendsTwice(cfg, size, rxSize);
    } else if cfg.hasty {
      var s := HastyTestStalls(cfg, size, rxSize);
    } else if cfg.crowded {
      var s := CrowdedTimerStalls(cfg, late, size, rxSize);
    } else {
      var s := StaleBufferBreaksExclusion(cfg, size, rxSize);
    }
  }

  // ---------------------------------------------------------------- the torn read

  /**
   A bus-off between the handler's look at the receive bit and the end of its copy: whatever the copy shows
   is queued as a frame, and the frame that arrived is gone.
   */
  lemma TornReadMakesFrame(cfg: Config, rd: Reading, size: nat, rxSize: nat, w: Image, shown: Image) returns (s: State)
    requires cfg.torn && Reads(cfg, rd) && IsRingSize(size) && IsRingSize(rxSize)
    ensures Reachable(cfg, s) && OfSize(s, size, rxSize) && !ReceiveSafe(rd, s)
    ensures s.rx.arrived == [w] && s.rx.wiped == [true]
    ensures Valid(s.rx.q) && Frames(rd, Contents(s.rx.q)) == [rd.decode(shown)]
  {
    hide Reachable;
    var o := OpenSession(cfg, size, rxSize);
    var a := ArriveAndLook(cfg, o, w);
    var b := WipeAndCopy(cfg, rd, a, shown);
    s := PublishCopy(cfg, rd, b);
    KeptAlike(s.rx.arrived, s.rx.wiped, true);
  }

  lemma ArriveAndLook(cfg: Config, s: State, w: Image) returns (s': State)
    requires Reachable(cfg, s) && Sized(s) && s.i.IOut? && s.bus == CALM_BUS && !s.rx.overrun
    requires s.rx.fifo == s.rx.arrived == [] && s.rx.wiped == [] && Valid(s.rx.q) && Len(s.rx.q) == 0
    ensures Reachable(cfg, s') && Sized(s') && SameSize(s, s')
    ensures s'.i.IRx? && s'.i.x.Fill? && s'.i.src.flags == 0 && s'.bus == CALM_BUS
    ensures s'.rx == s.rx.(fifo := [w], arrived := [w], wiped := [false])
  {
    hide Reachable, Rings.Contents, Index, TransmitSafe;
    CountersAreExact(s.rx.q);
    RingSizeBounds(|s.rx.q.slots|);
    var a := Go(cfg, s, Arrive(w));
    var b := Go(cfg, a, Irq);
    var c := GoHandler(cfg, b);
    s' := GoHandler(cfg, c);
  }

  lemma WipeAndCopy(cfg: Config, rd: Reading, s: State, shown: Image) returns (s': State)
    requires cfg.torn && Reads(cfg, rd) && Reachable(cfg, s) && Sized(s)
    requires s.i.IRx? && s.i.x.Fill? && s.i.src.flags == 0 && s.bus == CALM_BUS
    requires |s.rx.fifo| == 1 && s.rx.wiped == [false] && Valid(s.rx.q) && Len(s.rx.q) == 0
    ensures Reachable(cfg, s') && Sized(s') && SameSize(s, s') && s'.i.IRx? && s'.i.x.Publish?
    ensures s'.rx.fifo == [] && s'.rx.arrived == s.rx.arrived && s'.rx.wiped == [true] && s'.rx.delivered == s.rx.delivered
    ensures Valid(s'.rx.q) && Len(s'.rx.q) == 0 && rd.see(Filled(s'.rx.q)) == Some(rd.decode(shown))
  {
    hide Reachable, Rings.Contents, Index, TransmitSafe;
    var a := Go(cfg, s, BusOff(shown));
    assert a.rx == s.rx.(fifo := [], shown := shown, wiped := [true]);
    var b := GoHandler(cfg, a);
    s' := GoHandler(cfg, b);
    ReadFlagsArePlain(false);
    var m := cfg.receive(shown, Filled(s.rx.q), 0, 0, 0);
    CountersAreExact(s.rx.q);
    RingSizeBounds(|s.rx.q.slots|);
    FillKeepsContents(s.rx.q, m);
    assert s'.rx.q == Rings.Fill(s.rx.q, m);
  }

  lemma PublishCopy(cfg: Config, rd: Reading, s: State) returns (s': State)
    requires Reachable(cfg, s) && Sized(s) && s.i.IRx? && s.i.x.Publish? && Valid(s.rx.q) && Len(s.rx.q) == 0
    ensures Reachable(cfg, s') && Sized(s') && SameSize(s, s') && s'.i.IRx? && s'.i.x.Wake?
    ensures s'.rx == s.rx.(q := Rings.Publish(s.rx.q)) && Valid(s'.rx.q)
    ensures Frames(rd, Contents(s'.rx.q)) == FramesOf(rd.see(Filled(s.rx.q)))
  {
    CountersAreExact(s.rx.q);
    RingSizeBounds(|s.rx.q.slots|);
    PublishAppends(s.rx.q);
    FramesOne(rd, Filled(s.rx.q));
    s' := GoHandler(cfg, s);
  }

  /** The receive side is safe in every run exactly without torn reads, whatever the sizes of the queues. */
  lemma ReceiveSafeExactlyIfNotTorn(cfg: Config, rd: Reading, size: nat, rxSize: nat)
    requires Reads(cfg, rd) && IsRingSize(size) && IsRingSize(rxSize)
    ensures (forall s: State | Reachable(cfg, s) && OfSize(s, size, rxSize) :: ReceiveSafe(rd, s)) <==> !cfg.torn
  {
    if cfg.torn {
      var s := TornReadMakesFrame(cfg, rd, size, rxSize, NOTHING, NOTHING);
    } else {
      forall s: State | Reachable(cfg, s) && OfSize(s, size, rxSize) ensures ReceiveSafe(rd, s) { ReceiveIsSafe(cfg, rd, s); }
    }
  }

  // ---------------------------------------------------------------- opening again

  /** Some run leads from `s` to `s'`. */
  ghost predicate LeadsTo(cfg: Config, s: State, s': State)
    requires Sized(s)
  {
    exists acts: seq<Action> :: Runs(cfg, s, acts, s')
  }

  /**
   `qcreate` does not reset the counters.  A session runs safely exactly if the transmit queue was drained
   before: otherwise `idle` is set over a queue that is not empty, and nobody looks at it.
   */
  lemma ReopenIsSafeExactlyIfDrained(cfg: Config, s: State)
    requires cfg.Sound() && Opened(s)
    ensures (forall s': State | LeadsTo(cfg, s, s') :: TransmitSafe(s')) <==> s.tx.q.produced == s.tx.q.consumed
  {
    hide TransmitSafe, TxInv;
    if s.tx.q.produced == s.tx.q.consumed {
      InitTxInv(s);
      forall s': State | LeadsTo(cfg, s, s') ensures TransmitSafe(s') {
        var acts: seq<Action> :| Runs(cfg, s, acts, s');
        RunTxInv(cfg, s, acts, s');
        InvIsTransmitSafe(s');
      }
    } else {
      assert Runs(cfg, s, [], s);
      SafeMeansNoStall(s);
      assert LeadsTo(cfg, s, s) && !TransmitSafe(s);
    }
  }

  lemma SafeMeansNoStall(s: State)
    ensures TransmitSafe(s) && s.tx.w == WOut && s.tx.idle ==> Len(s.tx.q) == 0
  {
  }

  // ---------------------------------------------------------------- a queue of one slot

  /** With a single slot the kick of `can_write` does make the queue half empty, and wakes nobody. */
  lemma OneSlotLosesWakeUp(cfg: Config, rxSize: nat) returns (s: State)
    requires cfg.delay(BLANK) <= 0 && IsRingSize(1) && IsRingSize(rxSize)
    ensures Reachable(cfg, s) && OfSize(s, 1, rxSize) && !NoLostWakeUp(s)
  {
    var o := OpenSession(cfg, 1, rxSize);
    var a := PublishOne(cfg, o, BLANK);
    var b := FallAsleep(cfg, a);
    var c := KickOne(cfg, b);
    s := FinishKick(cfg, c);
  }

  lemma FallAsleep(cfg: Config, s: State) returns (s': State)
    requires Reachable(cfg, s) && Sized(s) && s.poll.p == POut
    requires Valid(s.tx.q) && Valid(s.rx.q) && !HalfFree(s.tx.q) && Len(s.rx.q) == 0
    ensures Reachable(cfg, s') && Sized(s') && s' == s.(poll := Poll(PSleep, false))
  {
    hide Reachable, Rings.Contents, Index, TransmitSafe;
    HalfEmptyIsExact(s.tx.q);
    HalfEmptyIsExact(s.rx.q);
    var a := Go(cfg, s, StartPoll);
    var b := Go(cfg, a, StepP);
    s' := Go(cfg, b, StepP);
  }

  /** Polling works with every queue size but one. */
  lemma PollSafeExactlyFromTwoSlots(cfg: Config, size: nat, rxSize: nat)
    requires cfg.Sound() && cfg.delay(BLANK) <= 0 && IsRingSize(size) && IsRingSize(rxSize)
    ensures (forall s: State | Reachable(cfg, s) && OfSize(s, size, rxSize) :: NoLostWakeUp(s)) <==> size >= 2
  {
    RingSizeBounds(size);
    if size >= 2 {
      forall s: State | Reachable(cfg, s) && OfSize(s, size, rxSize) ensures NoLostWakeUp(s) {
        PollIsSafe(cfg, s);
      }
    } else {
      var s := OneSlotLosesWakeUp(cfg, rxSize);
    }
  }
}
