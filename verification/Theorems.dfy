/**
 What holds after every run of the driver, from any open session with empty queues, whatever the
 interleaving of writer, reader, handler, timer, poller, controller and bus.
 */
module Theorems {
  import opened Rings
  import opened Driver
  import opened Token
  import opened Order
  import opened Receive
  import opened Polling

  /** `s` can be reached in an open session that started with empty queues. */
  ghost predicate Reachable(cfg: Config, s: State) {
    exists s0: State, acts: seq<Action> :: Init(s0) && Runs(cfg, s0, acts, s)
  }

  // ---------------------------------------------------------------- transmit side

  ghost predicate TxInv(s: State) {
    Sized(s) && TokenInv(s) && LostInv(s) && OrderInv(s)
  }

  lemma InitTxInv(s: State)
    requires Opened(s) && s.tx.q.produced == s.tx.q.consumed
    ensures TxInv(s)
  {
    assert Contents(s.tx.q) == [];
  }

  lemma {:induction false} RunTxInv(cfg: Config, s: State, acts: seq<Action>, s': State)
    requires cfg.Sound() && TxInv(s) && Runs(cfg, s, acts, s')
    ensures TxInv(s')
    decreases |acts|
  {
    if acts != [] {
      StepKeepsToken(cfg, s, acts[0]);
      StepKeepsOrder(cfg, s, acts[0]);
      RunTxInv(cfg, Apply(cfg, s, acts[0]), acts[1..], s');
    }
  }

  /** From its emptiness test to `consumed++` or `hrtimer_start`, a consumer is alone. */
  predicate OneConsumer(s: State) {
    var w, t, i := WriterPc(s.tx.w), TimerPc(s.tx.t), IsrPc(s.i);
    (w.Done? || t.Done?) && (w.Done? || i.Done?) && (t.Done? || i.Done?)
  }

  /** The writer has published and is about to look at `idle`. */
  predicate AboutToTestIdle(w: Writer) {
    w.WIdle? || w.WClear?
  }

  /** Somebody or something will look at the transmit queue again. */
  predicate Attended(s: State) {
    || s.tx.buffer.Busy? || s.tx.txint                              // a frame, or its interrupt
    || (s.tx.buffer.Lost?                                           // or a simulated one
        && (s.bus.busoff || s.bus.errstatus || s.bus.warn || WillSimulate(s)))
    || s.tx.armed                                                   // a timer
    || TookInterrupt(s.i)                                           // the handler
    || !WriterPc(s.tx.w).Done? || !TimerPc(s.tx.t).Done? || !IsrPc(s.i).Done?
  }

  predicate NoStall(s: State) {
    !AboutToTestIdle(s.tx.w) ==> (s.tx.idle ==> Len(s.tx.q) == 0) && (Len(s.tx.q) > 0 ==> Attended(s))
  }

  /** Handed to the controller, then still to be handed: exactly what was accepted. */
  ghost predicate InOrder(s: State) {
    Valid(s.tx.q) && NormAll(s.tx.sent) + NormAll(Pending(s.tx.q, Windows(s.tx, s.i))) == NormAll(s.tx.accepted)
  }

  /** The slot in use by a consumer holds the message published for its position; the writer fills another one. */
  ghost predicate SlotsApart(s: State)
    requires Sized(s)
  {
    AnyInUse(s.tx, s.i) ==>
      && 0 < Len(s.tx.q) <= |s.tx.accepted|
      && Norm(Head(s.tx.q)) == Norm(s.tx.accepted[|s.tx.accepted| - Len(s.tx.q)])
      && (s.tx.w.WFill? || s.tx.w.WPublish? ==> Index(s.tx.q, s.tx.q.produced) != Index(s.tx.q, s.tx.q.consumed))
  }

  ghost predicate TransmitSafe(s: State) {
    Sized(s) && OneConsumer(s) && NoStall(s) && InOrder(s) && SlotsApart(s)
  }

  lemma InvIsTransmitSafe(s: State)
    requires TxInv(s)
    ensures TransmitSafe(s)
  {
    TokenIsExclusive(s);
    CountersAreExact(s.tx.q);
    ConservedPending(s.tx.q, s.tx.sent, s.tx.accepted, Windows(s.tx, s.i));
    if AnyInUse(s.tx, s.i) && (s.tx.w.WFill? || s.tx.w.WPublish?) { FillAndDrainDiffer(s.tx.q); }
  }

  /**
   At every point of every run: one consumer at a time, no stall, every accepted message goes to the
   controller once and in order, and the slots of writer and consumer are apart.
   */
  lemma TransmitIsSafe(cfg: Config, s: State)
    requires cfg.Sound() && Reachable(cfg, s)
    ensures TransmitSafe(s)
  {
    var s0: State, acts: seq<Action> :| Init(s0) && Runs(cfg, s0, acts, s);
    InitTxInv(s0);
    RunTxInv(cfg, s0, acts, s);
    InvIsTransmitSafe(s);
  }

  // ---------------------------------------------------------------- receive side

  lemma InitRxInv(rd: Reading, s: State)
    requires Init(s)
    ensures RxInv(rd, s.rx, s.i, s.bus.resetreq)
  {
    assert Contents(s.rx.q) == [];
  }

  lemma {:induction false} RunRxInv(cfg: Config, rd: Reading, s: State, acts: seq<Action>, s': State)
    requires !cfg.torn && Reads(cfg, rd) && Sized(s) && RxInv(rd, s.rx, s.i, s.bus.resetreq) && Runs(cfg, s, acts, s')
    ensures Sized(s') && RxInv(rd, s'.rx, s'.i, s'.bus.resetreq)
    decreases |acts|
  {
    if acts != [] {
      StepKeepsRx(cfg, rd, s, acts[0]);
      RunRxInv(cfg, rd, Apply(cfg, s, acts[0]), acts[1..], s');
    }
  }

  /**
   Delivered to `read`, then queued, then in the handler's hands, then in the controller: exactly the
   frames that arrived and that no reset took from the FIFO, in order.  The reader drains the oldest
   message, and from a slot that the handler is not filling.
   */
  ghost predicate ReceiveSafe(rd: Reading, s: State) {
    && Sized(s) && Valid(s.rx.q) && |s.rx.wiped| == |s.rx.arrived|
    && Frames(rd, s.rx.delivered) + Frames(rd, Contents(s.rx.q)) + Transit(rd, s.rx, s.i) + DecodeAll(rd, s.rx.fifo)
       == DecodeAll(rd, Kept(s.rx.arrived, s.rx.wiped))
    && (s.rx.r.RAdvance? ==> |Contents(s.rx.q)| > 0 && s.rx.r.m == Contents(s.rx.q)[0])
    && (Producing(s.i) && !s.rx.r.ROut? && !s.rx.r.RTest? ==>
          Index(s.rx.q, s.rx.q.produced) != Index(s.rx.q, s.rx.q.consumed))
  }

  /** Nothing is assumed about the transmit side: this holds even with the interrupt hazards. */
  lemma ReceiveIsSafe(cfg: Config, rd: Reading, s: State)
    requires !cfg.torn && Reads(cfg, rd) && Reachable(cfg, s)
    ensures ReceiveSafe(rd, s)
  {
    var s0: State, acts: seq<Action> :| Init(s0) && Runs(cfg, s0, acts, s);
    InitRxInv(rd, s0);
    RunRxInv(cfg, rd, s0, acts, s);
    CountersAreExact(s.rx.q);
    if s.rx.r.RAdvance? { HeadIsOldest(s.rx.q); }
    if Producing(s.i) && !s.rx.r.ROut? && !s.rx.r.RTest? { FillAndDrainDiffer(s.rx.q); }
  }

  // ---------------------------------------------------------------- poll

  lemma StepKeepsSizes(cfg: Config, s: State, a: Action)
    requires Sized(s)
    ensures var s' := Apply(cfg, s, a); |s'.tx.q.slots| == |s.tx.q.slots| && |s'.rx.q.slots| == |s.rx.q.slots|
  {
  }

  /** The polling invariant along a run: of the receive side only the shape matters, not the frames. */
  lemma {:induction false} RunPollInv(cfg: Config, s: State, acts: seq<Action>, s': State)
    requires cfg.Sound() && TxInv(s) && RxShape(s.rx, s.i) && PollInv(s)
    requires Runs(cfg, s, acts, s') && |s.tx.q.slots| >= 2
    ensures PollInv(s')
    decreases |acts|
  {
    if acts != [] {
      var a := acts[0];
      StepKeepsToken(cfg, s, a);
      StepKeepsOrder(cfg, s, a);
      StepKeepsShape(cfg, s, a);
      StepKeepsPoll(cfg, s, a);
      StepKeepsSizes(cfg, s, a);
      RunPollInv(cfg, Apply(cfg, s, a), acts[1..], s');
    }
  }

  /** A poller that has registered and is not marked awake sleeps only while it has nothing to do. */
  ghost predicate NoLostWakeUp(s: State) {
    s.poll.p.PSleep? && !s.poll.woken ==>
      (Len(s.rx.q) == 0 || RxWakeDue(s.i)) && (!HalfFree(s.tx.q) || TxWakeDue(s.tx, s.i))
  }

  lemma PollIsSafe(cfg: Config, s: State)
    requires cfg.Sound() && Reachable(cfg, s) && |s.tx.q.slots| >= 2
    ensures NoLostWakeUp(s)
  {
    var s0: State, acts: seq<Action> :| Init(s0) && Runs(cfg, s0, acts, s);
    InitTxInv(s0);
    RunKeepsSizes(cfg, s0, acts, s);
    RunPollInv(cfg, s0, acts, s);
  }

  lemma {:induction false} RunKeepsSizes(cfg: Config, s: State, acts: seq<Action>, s': State)
    requires Sized(s) && Runs(cfg, s, acts, s')
    ensures |s'.tx.q.slots| == |s.tx.q.slots| && |s'.rx.q.slots| == |s.rx.q.slots|
    decreases |acts|
  {
    if acts != [] {
      StepKeepsSizes(cfg, s, acts[0]);
      RunKeepsSizes(cfg, Apply(cfg, s, acts[0]), acts[1..], s');
    }
  }
}
