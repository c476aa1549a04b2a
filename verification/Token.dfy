/**
 Who may consume from the transmit queue.

 The right to consume is a single token.  It is parked in `idle`, held by a context that is between
 the emptiness test and its transmission request, held by the controller from the request until the
 handler reads the interrupt, or held by an armed timer.
 */
module Token {
  import opened Words
  import opened Rings
  import opened Driver

  /** A consumer gives the token away when it requests a transmission, arms the timer or parks. */
  predicate Holds(c: Consumer) {
    c.Test? || c.Park? || c.Prep? || c.Arm? || c.Load? || c.Issue?
  }

  function WriterPc(w: Writer): Consumer { if w.WKick? then w.c else Done }

  function TimerPc(t: Timer): Consumer { if t.TRun? then t.c else Done }

  function IsrPc(i: Isr): Consumer { if i.IRun? then i.c else Done }

  /** The handler has taken the transmit interrupt, real or simulated, and not yet acted on it. */
  predicate TookInterrupt(i: Isr) {
    match i
    case IRx(src, _) => src.ti
    case IReset(src) => src.ti
    case IStatus(src) => src.ti
    case IFree(src) => src.ti
    case IErr(src, _) => src.ti
    case IClear(_) => true
    case _ => false
  }

  predicate ControllerHolds(tx: Tx) {
    !tx.buffer.Free? || tx.txint
  }

  function Tokens(tx: Tx, i: Isr): nat {
    One(tx.idle) + One(tx.armed) + One(ControllerHolds(tx)) + One(TookInterrupt(i))
    + One(Holds(WriterPc(tx.w))) + One(Holds(TimerPc(tx.t))) + One(Holds(IsrPc(i)))
  }

  /** Between its transmission request and `consumed++`. */
  function Windows(tx: Tx, i: Isr): nat {
    One(InWindow(WriterPc(tx.w))) + One(InWindow(TimerPc(tx.t))) + One(InWindow(IsrPc(i)))
  }

  predicate Unmarked(tx: Tx, i: Isr) {
    WriterPc(tx.w).Mark? || TimerPc(tx.t).Mark? || IsrPc(i).Mark?
  }

  /** Past the emptiness test and not yet past `consumed++`: the head slot is in use. */
  predicate InUse(c: Consumer) {
    c.Prep? || c.Arm? || c.Load? || c.Issue? || c.Mark? || c.Advance?
  }

  predicate AnyInUse(tx: Tx, i: Isr) {
    InUse(WriterPc(tx.w)) || InUse(TimerPc(tx.t)) || InUse(IsrPc(i))
  }

  /** The handler will find the lost interrupt in this pass unless the bus goes bad again. */
  predicate WillSimulate(s: State) {
    && !TookInterrupt(s.i)
    && ((s.i.IRx? && s.i.src.ei) || s.i.IReset? || s.i.IStatus? || s.i.IFree?)
  }

  ghost predicate TokenInv(s: State) {
    && Valid(s.tx.q)
    // one token, one open window at most, and then the controller has the token or has just given it to the handler
    && Tokens(s.tx, s.i) == 1
    && Windows(s.tx, s.i) <= 1
    && (Windows(s.tx, s.i) == 1 ==> ControllerHolds(s.tx) || TookInterrupt(s.i))
    && (s.tx.txint ==> s.tx.buffer.Free?)
    && (s.tx.w.WKick? ==> !s.tx.w.c.Park? && !s.tx.w.c.Done?)
    && (s.tx.t.TRun? ==> !s.tx.t.c.Park? && !s.tx.t.c.Done?)
    && (s.i.IRun? ==> !s.i.c.Park? && !s.i.c.Done?)
    // txinprogress says where the token is
    && (s.tx.txinprogress <==> (ControllerHolds(s.tx) || TookInterrupt(s.i)) && !Unmarked(s.tx, s.i))
    // the queue
    && (AnyInUse(s.tx, s.i) || s.tx.armed || TimerPc(s.tx.t).Test? ==> Len(s.tx.q) > 0)
    && (s.tx.w.WFill? || s.tx.w.WPublish? ==> Len(s.tx.q) < |s.tx.q.slots|)
    && (s.tx.w.WClear? ==> s.tx.idle)
    && (s.tx.idle ==> Len(s.tx.q) <= if s.tx.w.WIdle? || s.tx.w.WClear? then 1 else 0)
    && (s.tx.w.WKick? ==> Len(s.tx.q) <= 1)
  }

  /** A frame lost by a bus-off is noticed: the next error-warning interrupt is due or being served. */
  ghost predicate LostInv(s: State) {
    && (s.bus.resetreq ==> s.bus.busoff)
    && (s.bus.resetreq ==> s.bus.warn || (s.i.IRx? && s.i.src.ei) || s.i.IReset?)
    && (s.tx.buffer.Lost? ==> s.bus.busoff || s.bus.errstatus || s.bus.warn || WillSimulate(s))
  }

  lemma ConsumeKeepsRing(cfg: Config, tx: Tx, reset: bool, c: Consumer)
    requires Valid(tx.q) && (InUse(c) ==> Len(tx.q) > 0)
    ensures var q' := Consume(cfg, tx, reset, c).0.q;
            && Valid(q') && |q'.slots| == |tx.q.slots|
            && Len(q') == Len(tx.q) - One(c.Advance?)
    ensures c.Test? ==> (Consume(cfg, tx, reset, c).1.Prep? <==> Len(tx.q) > 0)
  {
    CountersAreExact(tx.q);
  }

  /** What one step of `qconsume` does, as far as the token is concerned. */
  ghost predicate ConsumeEffect(tx: Tx, reset: bool, c: Consumer, tx': Tx, c': Consumer) {
    && Valid(tx'.q) && |tx'.q.slots| == |tx.q.slots| && Len(tx'.q) == Len(tx.q) - One(c.Advance?)
    && tx'.txint == tx.txint
    && (c.Test? ==> c' == if Len(tx.q) > 0 then Prep else Done)
    && (c.Prep? ==> c' == Arm || c' == Load)
    && (c.Load? ==> c' == Issue)
    && (c.Issue? ==> c' == Mark)
    && (c.Mark? ==> c' == Advance)
    && (c.Arm? || c.Advance? ==> c' == Done)
    && tx'.idle == (tx.idle || (c.Test? && Len(tx.q) == 0))
    && tx'.armed == (tx.armed || c.Arm?)
    && tx'.txinprogress == (tx.txinprogress || c.Mark?)
    && tx'.buffer == if c.Issue? then (if reset then Lost else Busy) else tx.buffer
  }

  lemma ConsumeHasEffect(cfg: Config, tx: Tx, reset: bool, c: Consumer)
    requires cfg.Sound() && Valid(tx.q) && (InUse(c) ==> Len(tx.q) > 0) && !c.Park? && !c.Done?
    ensures var (tx', c') := Consume(cfg, tx, reset, c);
            && ConsumeEffect(tx, reset, c, tx', c')
            && tx'.w == tx.w && tx'.t == tx.t
  {
    hide Index, Rings.Contents;
    ConsumeKeepsRing(cfg, tx, reset, c);
    CountersAreExact(tx.q);
  }

  lemma WriterConsumeKeepsToken(s: State, s': State, c': Consumer)
    requires TokenInv(s) && LostInv(s)
    requires s.tx.w.WKick? && ConsumeEffect(s.tx, s.bus.resetreq, s.tx.w.c, s'.tx, c')
    requires s'.tx.w == (if c'.Done? then WOut else WKick(c')) && s'.tx.t == s.tx.t
    requires s'.i == s.i && s'.bus == s.bus
    ensures TokenInv(s') && LostInv(s')
  {
  }

  lemma TimerConsumeKeepsToken(s: State, s': State, c': Consumer)
    requires TokenInv(s) && LostInv(s)
    requires s.tx.t.TRun? && ConsumeEffect(s.tx, s.bus.resetreq, s.tx.t.c, s'.tx, c')
    requires s'.tx.t == (if c'.Done? then TWake else TRun(c')) && s'.tx.w == s.tx.w
    requires s'.i == s.i && s'.bus == s.bus
    ensures TokenInv(s') && LostInv(s')
  {
  }

  lemma HandlerConsumeKeepsToken(s: State, s': State, c': Consumer)
    requires TokenInv(s) && LostInv(s)
    requires s.i.IRun? && ConsumeEffect(s.tx, s.bus.resetreq, s.i.c, s'.tx, c')
    requires s'.i == (if c'.Done? then IWake(s.i.src) else IRun(s.i.src, c'))
    requires s'.tx.w == s.tx.w && s'.tx.t == s.tx.t && s'.bus == s.bus
    ensures TokenInv(s') && LostInv(s')
  {
  }

  /** The writer outside `qconsume`: what its step does to the queue and to `idle`. */
  ghost predicate WriteEffect(tx: Tx, tx': Tx) {
    && Valid(tx'.q) && |tx'.q.slots| == |tx.q.slots|
    && Len(tx'.q) == Len(tx.q) + One(tx.w.WPublish?)
    && tx'.t == tx.t && tx'.armed == tx.armed && tx'.txint == tx.txint && tx'.buffer == tx.buffer
    && tx'.txinprogress == tx.txinprogress
    && tx'.idle == (tx.idle && !tx.w.WClear?)
    && (tx.w.WCheck? ==> if Len(tx.q) == |tx.q.slots| then tx'.w.WOut? else tx'.w.WFill?)
    && (tx.w.WFill? ==> tx'.w.WPublish?)
    && (tx.w.WPublish? ==> tx'.w.WIdle?)
    && (tx.w.WIdle? ==> if tx.idle then tx'.w.WClear? else tx'.w.WOut?)
    && (tx.w.WClear? ==> tx'.w == WKick(Test))
  }

  lemma WriteHasEffect(cfg: Config, tx: Tx, reset: bool)
    requires Valid(tx.q) && !tx.w.WOut? && !tx.w.WKick?
    requires tx.w.WPublish? ==> Len(tx.q) < |tx.q.slots|
    ensures WriteEffect(tx, NextW(cfg, tx, reset))
  {
    CountersAreExact(tx.q);
  }

  lemma WriteKeepsToken(s: State, s': State)
    requires TokenInv(s) && LostInv(s) && !s.tx.w.WOut? && !s.tx.w.WKick?
    requires WriteEffect(s.tx, s'.tx) && s'.i == s.i && s'.bus == s.bus
    ensures TokenInv(s') && LostInv(s')
  {
  }

  lemma WriterKeepsToken(cfg: Config, s: State)
    requires cfg.Sound() && TokenInv(s) && LostInv(s) && Sized(s) && !s.tx.w.WOut?
    ensures var s' := Apply(cfg, s, StepW); TokenInv(s') && LostInv(s')
  {
    if s.tx.w.WKick? {
      var c := s.tx.w.c;
      ConsumeHasEffect(cfg, s.tx, s.bus.resetreq, c);
      WriterConsumeKeepsToken(s, Apply(cfg, s, StepW), Consume(cfg, s.tx, s.bus.resetreq, c).1);
    } else {
      WriteHasEffect(cfg, s.tx, s.bus.resetreq);
      WriteKeepsToken(s, Apply(cfg, s, StepW));
    }
  }

  lemma TimerKeepsToken(cfg: Config, s: State)
    requires cfg.Sound() && TokenInv(s) && LostInv(s) && Sized(s) && !s.tx.t.TOut?
    ensures var s' := Apply(cfg, s, StepT); TokenInv(s') && LostInv(s')
  {
    if s.tx.t.TRun? {
      var c := s.tx.t.c;
      ConsumeHasEffect(cfg, s.tx, s.bus.resetreq, c);
      TimerConsumeKeepsToken(s, Apply(cfg, s, StepT), Consume(cfg, s.tx, s.bus.resetreq, c).1);
    }
  }

  lemma HandlerRunKeepsToken(cfg: Config, s: State, sec: int, usec: int, dos: bool)
    requires cfg.Sound() && TokenInv(s) && LostInv(s) && Sized(s) && s.i.IRun?
    ensures var s' := NextI(cfg, s, sec, usec, dos); TokenInv(s') && LostInv(s')
  {
    var c := s.i.c;
    ConsumeHasEffect(cfg, s.tx, s.bus.resetreq, c);
    HandlerConsumeKeepsToken(s, NextI(cfg, s, sec, usec, dos), Consume(cfg, s.tx, s.bus.resetreq, c).1);
  }

  /** Steps of the handler that touch neither the transmit side nor the bus state. */
  lemma PassKeepsToken(s: State, s': State)
    requires TokenInv(s) && LostInv(s) && s'.tx == s.tx && s'.bus == s.bus
    requires s.i.IRx? || s.i.IErr? || s.i.IOvr? || s.i.IWake?
    requires s.i.IRx? ==> s'.i == StageEi(s.i.src) || (s'.i.IRx? && s'.i.src == s.i.src)
    requires s.i.IErr? ==> s'.i == StageTi(s.i.src) || (s'.i.IErr? && s'.i.src == s.i.src)
    requires s.i.IOvr? ==> s'.i == IRead || s'.i.IOvr?
    requires s.i.IWake? ==> s'.i == StageDi(s.i.src)
    ensures TokenInv(s') && LostInv(s')
  {
  }

  lemma HandlerReadKeepsToken(cfg: Config, s: State, sec: int, usec: int, dos: bool)
    requires cfg.Sound() && TokenInv(s) && LostInv(s) && Sized(s) && HandlerMayStep(cfg, s) && s.i.IRead?
    ensures var s' := NextI(cfg, s, sec, usec, dos); TokenInv(s') && LostInv(s')
  {
  }

  lemma HandlerFreeKeepsToken(cfg: Config, s: State, sec: int, usec: int, dos: bool)
    requires cfg.Sound() && TokenInv(s) && LostInv(s) && Sized(s) && HandlerMayStep(cfg, s) && s.i.IFree?
    ensures var s' := NextI(cfg, s, sec, usec, dos); TokenInv(s') && LostInv(s')
  {
  }

  lemma HandlerMiscKeepsToken(cfg: Config, s: State, sec: int, usec: int, dos: bool)
    requires TokenInv(s) && LostInv(s) && Sized(s) && (s.i.IReset? || s.i.IStatus?)
    ensures var s' := NextI(cfg, s, sec, usec, dos); TokenInv(s') && LostInv(s')
  {
  }

  lemma HandlerClearKeepsToken(cfg: Config, s: State, sec: int, usec: int, dos: bool)
    requires cfg.Sound() && TokenInv(s) && LostInv(s) && Sized(s) && HandlerMayStep(cfg, s) && s.i.IClear?
    ensures var s' := NextI(cfg, s, sec, usec, dos); TokenInv(s') && LostInv(s')
  {
  }

  lemma HandlerKeepsToken(cfg: Config, s: State, sec: int, usec: int, dos: bool)
    requires cfg.Sound() && TokenInv(s) && LostInv(s) && Sized(s)
    requires !s.i.IOut? && HandlerMayStep(cfg, s)
    ensures var s' := NextI(cfg, s, sec, usec, dos); TokenInv(s') && LostInv(s')
  {
    match s.i
    case IRead => HandlerReadKeepsToken(cfg, s, sec, usec, dos);
    case IFree(_) => HandlerFreeKeepsToken(cfg, s, sec, usec, dos);
    case IRx(_, _) | IErr(_, _) | IOvr(_, _) | IWake(_) => PassKeepsToken(s, NextI(cfg, s, sec, usec, dos));
    case IReset(_) | IStatus(_) => HandlerMiscKeepsToken(cfg, s, sec, usec, dos);
    case IClear(_) => HandlerClearKeepsToken(cfg, s, sec, usec, dos);
    case IRun(_, c) => HandlerRunKeepsToken(cfg, s, sec, usec, dos);
  }

  /** Actions of the controller and the bus. */
  lemma BusKeepsToken(cfg: Config, s: State, a: Action)
    requires TokenInv(s) && LostInv(s) && Sized(s) && Enabled(cfg, s, a)
    requires a.BusOff? || a.Recover? || a.Warn? || a.Drop?
    ensures var s' := Apply(cfg, s, a); TokenInv(s') && LostInv(s')
  {
    hide NextW, NextT, NextI, NextR, NextP, Wiped;
  }

  lemma CompleteKeepsToken(s: State, s': State)
    requires TokenInv(s) && LostInv(s) && s.tx.buffer.Busy? && s'.tx == s.tx.(buffer := Free, txint := true)
    requires s'.i == s.i && s'.bus == s.bus
    ensures TokenInv(s') && LostInv(s')
  {
  }

  /** A write, a timer or a handler that begins. */
  lemma BeginKeepsToken(s: State, s': State)
    requires TokenInv(s) && LostInv(s) && s'.bus == s.bus
    requires || (s.tx.w.WOut? && (s'.tx.w.WCheck? || s'.tx.w.WOut?) && s'.tx == s.tx.(w := s'.tx.w) && s'.i == s.i)
             || (s.tx.armed && s.tx.t.TOut? && s'.tx == s.tx.(armed := false, t := TRun(Test)) && s'.i == s.i)
             || (s.i.IOut? && s'.i.IRead? && s'.tx == s.tx)
             || (s'.tx == s.tx && s'.i == s.i)
    ensures TokenInv(s') && LostInv(s')
  {
  }

  lemma OthersKeepToken(cfg: Config, s: State, a: Action)
    requires cfg.Sound() && TokenInv(s) && LostInv(s) && Sized(s) && Enabled(cfg, s, a)
    requires !a.StepW? && !a.StepT? && !a.StepI?
    ensures var s' := Apply(cfg, s, a); TokenInv(s') && LostInv(s')
  {
    hide TokenInv, LostInv, NextR, NextP, NextW, NextT, NextI;
    if a.BusOff? || a.Recover? || a.Warn? || a.Drop? {
      BusKeepsToken(cfg, s, a);
    } else if a.Complete? {
      CompleteKeepsToken(s, Apply(cfg, s, a));
    } else {
      BeginKeepsToken(s, Apply(cfg, s, a));
    }
  }

  lemma StepKeepsToken(cfg: Config, s: State, a: Action)
    requires cfg.Sound() && TokenInv(s) && LostInv(s) && Sized(s) && Enabled(cfg, s, a)
    ensures var s' := Apply(cfg, s, a); TokenInv(s') && LostInv(s')
  {
    match a
    case StepW => WriterKeepsToken(cfg, s);
    case StepT => TimerKeepsToken(cfg, s);
    case StepI(sec, usec, dos) => HandlerKeepsToken(cfg, s, sec, usec, dos);
    case _ => OthersKeepToken(cfg, s, a);
  }
}
