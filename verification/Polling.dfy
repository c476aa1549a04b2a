/**
 No wake-up is lost: a poller that has registered and then found nothing ready sleeps only while
 nothing is ready, or while a context is about to wake it.
 */
module Polling {
  import opened Rings
  import opened Driver
  import opened Token

  /** The handler has published to the receive queue and wakes next. */
  predicate RxWakeDue(i: Isr) {
    (i.IRx? || i.IErr? || i.IOvr?) && i.x.Wake?
  }

  /** The handler or the timer has consumed from the transmit queue and looks at its length next. */
  predicate TxWakeDue(tx: Tx, i: Isr) {
    i.IWake? || tx.t.TWake?
  }

  predicate HalfFree(q: Ring) {
    Len(q) <= |q.slots| / 2
  }

  ghost predicate PollInv(s: State) {
    && (!s.poll.woken && (s.poll.p.PTx? || s.poll.p.PSleep?) ==> Len(s.rx.q) == 0 || RxWakeDue(s.i))
    && (!s.poll.woken && s.poll.p.PSleep? ==> !HalfFree(s.tx.q) || TxWakeDue(s.tx, s.i))
  }

  lemma HalfEmptyIsExact(q: Ring)
    requires Valid(q)
    ensures HalfEmpty(q) <==> HalfFree(q)
    ensures QLen(q) > 0 <==> Len(q) > 0
  {
    CountersAreExact(q);
  }

  lemma PollerKeepsPoll(cfg: Config, s: State)
    requires Sized(s) && PollInv(s) && Valid(s.tx.q) && Valid(s.rx.q)
    ensures PollInv(Apply(cfg, s, StepP))
  {
    HalfEmptyIsExact(s.tx.q);
    HalfEmptyIsExact(s.rx.q);
  }

  /** The kick of `can_write` wakes nobody: its queue was already at most half full. */
  lemma WriterKeepsPoll(cfg: Config, s: State)
    requires cfg.Sound() && TokenInv(s) && Sized(s) && PollInv(s) && !s.tx.w.WOut? && |s.tx.q.slots| >= 2
    ensures PollInv(Apply(cfg, s, StepW))
  {
    if s.tx.w.WKick? {
      ConsumeKeepsRing(cfg, s.tx, s.bus.resetreq, s.tx.w.c);
    }
  }

  lemma TimerKeepsPoll(cfg: Config, s: State)
    requires cfg.Sound() && TokenInv(s) && Sized(s) && PollInv(s) && !s.tx.t.TOut?
    ensures PollInv(Apply(cfg, s, StepT))
  {
    HalfEmptyIsExact(s.tx.q);
    if s.tx.t.TRun? {
      ConsumeHasEffect(cfg, s.tx, s.bus.resetreq, s.tx.t.c);
    }
  }

  lemma HandlerRunKeepsPoll(cfg: Config, s: State, sec: int, usec: int, dos: bool)
    requires cfg.Sound() && TokenInv(s) && Sized(s) && PollInv(s) && s.i.IRun?
    ensures PollInv(NextI(cfg, s, sec, usec, dos))
  {
    ConsumeHasEffect(cfg, s.tx, s.bus.resetreq, s.i.c);
  }

  lemma HandlerKeepsPoll(cfg: Config, s: State, sec: int, usec: int, dos: bool)
    requires cfg.Sound() && TokenInv(s) && Sized(s) && PollInv(s) && !s.i.IOut?
    ensures PollInv(NextI(cfg, s, sec, usec, dos))
  {
    if s.i.IRun? {
      HandlerRunKeepsPoll(cfg, s, sec, usec, dos);
    } else {
      HandlerRestKeepsPoll(cfg, s, sec, usec, dos);
    }
  }

  lemma HandlerRestKeepsPoll(cfg: Config, s: State, sec: int, usec: int, dos: bool)
    requires Valid(s.tx.q) && Sized(s) && PollInv(s) && !s.i.IOut? && !s.i.IRun?
    ensures PollInv(NextI(cfg, s, sec, usec, dos))
  {
    hide PollInv, NextI, HalfEmpty;
    HalfEmptyIsExact(s.tx.q);
    HandlerWakes(cfg, s, sec, usec, dos);
    WakeKeepsPoll(s, NextI(cfg, s, sec, usec, dos));
  }

  /** What the handler's steps outside `qconsume` do to what a poller looks at. */
  lemma HandlerWakes(cfg: Config, s: State, sec: int, usec: int, dos: bool)
    requires Sized(s) && !s.i.IOut? && !s.i.IRun?
    ensures var s' := NextI(cfg, s, sec, usec, dos);
            && s'.tx.q == s.tx.q && s'.tx.t == s.tx.t && s'.poll.p == s.poll.p
            && (Len(s'.rx.q) == Len(s.rx.q) || RxWakeDue(s'.i))
            && s'.poll == (if RxWakeDue(s.i) || (s.i.IWake? && HalfEmpty(s.tx.q)) then WakeUp(s.poll) else s.poll)
  {
    hide TestsFree, HalfEmpty, Full, FillFrame, FillError;
  }

  lemma WakeKeepsPoll(s: State, s': State)
    requires PollInv(s) && s'.tx.q == s.tx.q && s'.tx.t == s.tx.t && s'.poll.p == s.poll.p
    requires Len(s'.rx.q) == Len(s.rx.q) || RxWakeDue(s'.i)
    requires HalfEmpty(s.tx.q) <==> HalfFree(s.tx.q)
    requires s'.poll == (if RxWakeDue(s.i) || (s.i.IWake? && HalfEmpty(s.tx.q)) then WakeUp(s.poll) else s.poll)
    ensures PollInv(s')
  {
    hide HalfEmpty, HalfFree;
  }

  lemma StepKeepsPoll(cfg: Config, s: State, a: Action)
    requires cfg.Sound() && TokenInv(s) && Sized(s) && PollInv(s) && Enabled(cfg, s, a)
    requires Valid(s.rx.q) && (s.rx.r.RAdvance? ==> Len(s.rx.q) > 0) && |s.tx.q.slots| >= 2
    ensures PollInv(Apply(cfg, s, a))
  {
    match a
    case StepW => WriterKeepsPoll(cfg, s);
    case StepT => TimerKeepsPoll(cfg, s);
    case StepI(sec, usec, dos) => HandlerKeepsPoll(cfg, s, sec, usec, dos);
    case StepP => PollerKeepsPoll(cfg, s);
    case _ =>
  }
}
