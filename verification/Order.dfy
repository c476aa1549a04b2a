/**
 Every message that `can_write` accepted goes to the controller, once and in order.
 */
module Order {
  import opened Words
  import opened CanTypes
  import opened Codec
  import opened Rings
  import opened Driver
  import opened Token

  /** What `sendcanmsg` never changes: it may cap the length and clear the delay of a queued message. */
  function Norm(m: Msg): Msg {
    Capped(m).(usec := 0)
  }

  function NormAll(ms: seq<Msg>): (r: seq<Msg>)
    ensures |r| == |ms|
  {
    seq(|ms|, i requires 0 <= i < |ms| => Norm(ms[i]))
  }

  lemma NormAllConcat(a: seq<Msg>, b: seq<Msg>)
    ensures NormAll(a + b) == NormAll(a) + NormAll(b)
  {
  }

  /** The queued messages that have not been handed to the controller; `win` is the number of open windows. */
  function Pending(q: Ring, win: nat): seq<Msg>
    requires Valid(q)
  {
    if win > 0 && |Contents(q)| > 0 then Contents(q)[1..] else Contents(q)
  }

  /**
   The messages handed over, without the one whose window is open, then the queued ones; the message
   whose window is open is the head of the queue.
   */
  ghost predicate Conserved(q: Ring, sent: seq<Msg>, accepted: seq<Msg>, win: nat) {
    && Valid(q) && win <= 1 && win <= |sent|
    && NormAll(sent[..|sent| - win]) + NormAll(Contents(q)) == NormAll(accepted)
    && (win == 1 ==> Len(q) > 0 && Norm(sent[|sent| - 1]) == Norm(Head(q)))
  }

  /** Handed over, then still to be handed over: exactly what was accepted. */
  lemma ConservedPending(q: Ring, sent: seq<Msg>, accepted: seq<Msg>, win: nat)
    requires Conserved(q, sent, accepted, win)
    ensures NormAll(sent) + NormAll(Pending(q, win)) == NormAll(accepted)
    ensures Len(q) <= |accepted|
    ensures Len(q) > 0 ==> Norm(Head(q)) == Norm(accepted[|accepted| - Len(q)])
  {
    CountersAreExact(q);
    var front, c := sent[..|sent| - win], Contents(q);
    if Len(q) > 0 {
      HeadIsOldest(q);
      assert NormAll(accepted)[|front|] == NormAll(c)[0];
    }
    if win == 1 {
      var last := [sent[|sent| - 1]];
      assert sent == front + last;
      NormAllConcat(front, last);
      assert c == [c[0]] + c[1..];
      NormAllConcat([c[0]], c[1..]);
      assert NormAll(last) == NormAll([c[0]]);
    } else {
      assert front == sent;
    }
  }

  predicate AtIssue(tx: Tx, i: Isr) {
    WriterPc(tx.w).Issue? || TimerPc(tx.t).Issue? || IsrPc(i).Issue?
  }

  ghost predicate OrderInv(s: State)
    requires Sized(s)
  {
    && Conserved(s.tx.q, s.tx.sent, s.tx.accepted, Windows(s.tx, s.i))
    && (AtIssue(s.tx, s.i) ==> s.tx.loaded == Head(s.tx.q))
    && (s.tx.w.WPublish? ==> Filled(s.tx.q) == s.tx.w.m)
  }

  lemma ConsumeKeepsConserved(cfg: Config, tx: Tx, reset: bool, c: Consumer, win: nat)
    requires Conserved(tx.q, tx.sent, tx.accepted, win) && win == One(InWindow(c)) && !c.Park? && !c.Done?
    requires InUse(c) ==> Len(tx.q) > 0
    requires c.Issue? ==> tx.loaded == Head(tx.q)
    requires cfg.Sound()
    ensures var (tx', c') := Consume(cfg, tx, reset, c);
            Conserved(tx'.q, tx'.sent, tx'.accepted, One(InWindow(c'))) && (c'.Issue? ==> tx'.loaded == Head(tx'.q))
  {
    CountersAreExact(tx.q);
    var (tx', c') := Consume(cfg, tx, reset, c);
    if c.Prep? {
      ConsumePrepKeepsConserved(cfg, tx, reset);
    } else if c.Issue? {
      assert tx'.sent[..|tx'.sent| - 1] == tx.sent == tx.sent[..|tx.sent| - 0];
    } else if c.Advance? {
      ConsumeAdvanceKeepsConserved(tx.q, tx.sent, tx.accepted);
    }
  }

  lemma ConsumeAdvanceKeepsConserved(q: Ring, sent: seq<Msg>, accepted: seq<Msg>)
    requires Conserved(q, sent, accepted, 1)
    ensures Conserved(Rings.Advance(q), sent, accepted, 0)
  {
    CountersAreExact(q);
    HeadIsOldest(q);
    AdvanceDropsOldest(q);
    ConservedPending(q, sent, accepted, 1);
    assert sent[..|sent| - 0] == sent;
  }

  lemma ConsumePrepKeepsConserved(cfg: Config, tx: Tx, reset: bool)
    requires Conserved(tx.q, tx.sent, tx.accepted, 0) && Len(tx.q) > 0
    ensures Conserved(Consume(cfg, tx, reset, Prep).0.q, tx.sent, tx.accepted, 0)
  {
    CountersAreExact(tx.q);
    HeadIsOldest(tx.q);
    var m := Capped(Head(tx.q));
    var m' := if cfg.delay(m) > 0 then m.(usec := 0) else m;
    SetHeadKeepsRest(tx.q, m');
    var old_ := Contents(tx.q);
    assert old_ == [old_[0]] + old_[1..];
    NormAllConcat([old_[0]], old_[1..]);
    NormAllConcat([m'], old_[1..]);
    assert NormAll([m']) == NormAll([old_[0]]);
  }

  /** The writer filling the free slot. */
  lemma FillKeepsConserved(q: Ring, sent: seq<Msg>, accepted: seq<Msg>, m: Msg, win: nat)
    requires Conserved(q, sent, accepted, win) && Len(q) < |q.slots|
    ensures var q' := Rings.Fill(q, m);
            Conserved(q', sent, accepted, win) && Filled(q') == m && (Len(q) > 0 ==> Head(q') == Head(q))
  {
    CountersAreExact(q);
    FillKeepsContents(q, m);
    if Len(q) > 0 {
      HeadIsOldest(q);
      CountersAreExact(Rings.Fill(q, m));
      HeadIsOldest(Rings.Fill(q, m));
    }
  }

  /** The writer publishing the filled slot. */
  lemma PublishKeepsConserved(q: Ring, sent: seq<Msg>, accepted: seq<Msg>, m: Msg, win: nat)
    requires Conserved(q, sent, accepted, win) && Len(q) < |q.slots| && Filled(q) == m
    ensures Conserved(Rings.Publish(q), sent, accepted + [m], win)
    ensures Len(q) > 0 ==> Head(Rings.Publish(q)) == Head(q)
  {
    CountersAreExact(q);
    var q' := Rings.Publish(q);
    PublishAppends(q);
    NormAllConcat(accepted, [m]);
    NormAllConcat(Contents(q), [m]);
  }

  /** What the order of messages needs to know about the contexts. */
  ghost predicate Exclusive(s: State) {
    var w, t, i := WriterPc(s.tx.w), TimerPc(s.tx.t), IsrPc(s.i);
    && Valid(s.tx.q)
    && (!w.Done? ==> t.Done? && i.Done?) && (!t.Done? ==> i.Done?)
    && !w.Park? && !t.Park? && !i.Park?
    && (InUse(w) || InUse(t) || InUse(i) ==> Len(s.tx.q) > 0)
    && (s.tx.w.WKick? ==> !w.Done?) && (s.tx.t.TRun? ==> !t.Done?) && (s.i.IRun? ==> !i.Done?)
    && (s.tx.w.WFill? || s.tx.w.WPublish? ==> Len(s.tx.q) < |s.tx.q.slots|)
  }

  /** One consumer at a time. */
  lemma TokenIsExclusive(s: State)
    requires TokenInv(s)
    ensures Exclusive(s)
  {
    var w, t, i := WriterPc(s.tx.w), TimerPc(s.tx.t), IsrPc(s.i);
    assert !w.Done? ==> t.Done? && i.Done?;
    assert !t.Done? ==> i.Done?;
  }

  /** The slot that a writer has just filled survives the steps of the consumers. */
  lemma ConsumeKeepsFilled(cfg: Config, tx: Tx, reset: bool, c: Consumer)
    requires Valid(tx.q) && (InUse(c) ==> Len(tx.q) > 0) && Len(tx.q) < |tx.q.slots|
    ensures Filled(Consume(cfg, tx, reset, c).0.q) == Filled(tx.q)
  {
    CountersAreExact(tx.q);
    if c.Prep? {
      var m := Capped(Head(tx.q));
      SetHeadKeepsRest(tx.q, if cfg.delay(m) > 0 then m.(usec := 0) else m);
    } else if c.Advance? {
      AdvanceDropsOldest(tx.q);
    }
  }

  lemma WriterFillKeepsOrder(cfg: Config, s: State)
    requires Exclusive(s) && Sized(s) && OrderInv(s) && s.tx.w.WFill?
    ensures OrderInv(Apply(cfg, s, StepW))
  {
    hide Conserved, Consume, Rings.Contents;
    FillKeepsConserved(s.tx.q, s.tx.sent, s.tx.accepted, s.tx.w.m, Windows(s.tx, s.i));
  }

  lemma WriterPublishKeepsOrder(cfg: Config, s: State)
    requires Exclusive(s) && Sized(s) && OrderInv(s) && s.tx.w.WPublish?
    ensures OrderInv(Apply(cfg, s, StepW))
  {
    hide Conserved, Consume, Rings.Contents;
    PublishKeepsConserved(s.tx.q, s.tx.sent, s.tx.accepted, s.tx.w.m, Windows(s.tx, s.i));
  }

  /** The one active consumer, in whichever context, goes from `c` to `c'`. */
  ghost predicate Moves(s: State, s': State, c: Consumer, c': Consumer) {
    var w, t, i := WriterPc(s.tx.w), TimerPc(s.tx.t), IsrPc(s.i);
    var w', t', i' := WriterPc(s'.tx.w), TimerPc(s'.tx.t), IsrPc(s'.i);
    && !c.Done?
    && ((w == c && w' == c' && t' == t == Done && i' == i == Done)
        || (t == c && t' == c' && w' == w == Done && i' == i == Done)
        || (i == c && i' == c' && w' == w == Done && t' == t == Done))
  }

  lemma MovesWindows(s: State, s': State, c: Consumer, c': Consumer)
    requires Moves(s, s', c, c')
    ensures Windows(s.tx, s.i) == One(InWindow(c)) && Windows(s'.tx, s'.i) == One(InWindow(c'))
    ensures (AtIssue(s.tx, s.i) <==> c.Issue?) && (AtIssue(s'.tx, s'.i) <==> c'.Issue?)
  {
  }

  lemma ConsumerKeepsOrder(cfg: Config, s: State, s': State, c: Consumer, c': Consumer)
    requires cfg.Sound() && Exclusive(s) && Sized(s) && Sized(s') && OrderInv(s)
    requires Moves(s, s', c, c') && ConsumedTo(cfg, s, s', c, c')
    requires s'.tx.w.WPublish? ==> s'.tx.w == s.tx.w
    ensures OrderInv(s')
  {
    MovesWindows(s, s', c, c');
    ConsumeKeepsPlaces(cfg, s.tx, s.bus.resetreq, c);
    hide Consume, Conserved, Rings.Contents, Index, Windows, AtIssue;
    ConsumeKeepsConserved(cfg, s.tx, s.bus.resetreq, c, One(InWindow(c)));
    if s'.tx.w.WPublish? { ConsumeKeepsFilled(cfg, s.tx, s.bus.resetreq, c); }
  }

  /** `qconsume` has moved from `c` to `c'`. */
  ghost predicate ConsumedTo(cfg: Config, s: State, s': State, c: Consumer, c': Consumer)
    requires Sized(s)
  {
    var r := Consume(cfg, s.tx, s.bus.resetreq, c);
    && c' == r.1 && s'.tx.q == r.0.q && s'.tx.sent == r.0.sent
    && s'.tx.accepted == s.tx.accepted && s'.tx.loaded == r.0.loaded
  }

  lemma ConsumeKeepsPlaces(cfg: Config, tx: Tx, reset: bool, c: Consumer)
    requires IsRingSize(|tx.q.slots|)
    ensures var tx' := Consume(cfg, tx, reset, c).0; tx'.w == tx.w && tx'.t == tx.t && tx'.accepted == tx.accepted
  {
  }

  lemma WriterKickKeepsOrder(cfg: Config, s: State)
    requires cfg.Sound() && Exclusive(s) && Sized(s) && OrderInv(s) && s.tx.w.WKick?
    ensures OrderInv(Apply(cfg, s, StepW))
  {
    hide OrderInv, Consume;
    var c, s' := s.tx.w.c, Apply(cfg, s, StepW);
    var c' := Consume(cfg, s.tx, s.bus.resetreq, c).1;
    ConsumeKeepsPlaces(cfg, s.tx, s.bus.resetreq, c);
    assert Moves(s, s', c, c');
    ConsumerKeepsOrder(cfg, s, s', c, c');
  }

  lemma TimerKeepsOrder(cfg: Config, s: State)
    requires cfg.Sound() && Exclusive(s) && Sized(s) && OrderInv(s) && s.tx.t.TRun?
    ensures OrderInv(Apply(cfg, s, StepT))
  {
    hide OrderInv, Consume;
    var c, s' := s.tx.t.c, Apply(cfg, s, StepT);
    var c' := Consume(cfg, s.tx, s.bus.resetreq, c).1;
    ConsumeKeepsPlaces(cfg, s.tx, s.bus.resetreq, c);
    assert Moves(s, s', c, c');
    ConsumerKeepsOrder(cfg, s, s', c, c');
  }

  lemma HandlerRunKeepsOrder(cfg: Config, s: State, sec: int, usec: int, dos: bool)
    requires cfg.Sound() && Exclusive(s) && Sized(s) && OrderInv(s) && s.i.IRun?
    ensures OrderInv(NextI(cfg, s, sec, usec, dos))
  {
    hide OrderInv, Consume;
    var c, s' := s.i.c, NextI(cfg, s, sec, usec, dos);
    var c' := Consume(cfg, s.tx, s.bus.resetreq, c).1;
    ConsumeKeepsPlaces(cfg, s.tx, s.bus.resetreq, c);
    assert Moves(s, s', c, c');
    ConsumerKeepsOrder(cfg, s, s', c, c');
  }

  /** Steps that change neither the queue, the logs, the register image nor any consumer. */
  lemma PassKeepsOrder(s: State, s': State)
    requires Sized(s) && Sized(s') && OrderInv(s)
    requires s'.tx.q == s.tx.q && s'.tx.sent == s.tx.sent && s'.tx.accepted == s.tx.accepted
    requires s'.tx.loaded == s.tx.loaded && (s'.tx.w.WPublish? ==> s'.tx.w == s.tx.w)
    requires WriterPc(s'.tx.w) == WriterPc(s.tx.w) || (WriterPc(s.tx.w).Done? && WriterPc(s'.tx.w).Test?)
    requires TimerPc(s'.tx.t) == TimerPc(s.tx.t) || (TimerPc(s.tx.t).Done? && TimerPc(s'.tx.t).Test?)
    requires IsrPc(s'.i) == IsrPc(s.i) || (IsrPc(s.i).Done? && IsrPc(s'.i).Test?)
    ensures OrderInv(s')
  {
  }

  lemma WriterKeepsOrder(cfg: Config, s: State)
    requires cfg.Sound() && Exclusive(s) && Sized(s) && OrderInv(s) && !s.tx.w.WOut?
    ensures OrderInv(Apply(cfg, s, StepW))
  {
    hide OrderInv, Consume;
    match s.tx.w
    case WKick(_) => WriterKickKeepsOrder(cfg, s);
    case WFill(_) => WriterFillKeepsOrder(cfg, s);
    case WPublish(_) => WriterPublishKeepsOrder(cfg, s);
    case WCheck(_) | WIdle | WClear => PassKeepsOrder(s, Apply(cfg, s, StepW));
  }

  lemma HandlerKeepsOrder(cfg: Config, s: State, sec: int, usec: int, dos: bool)
    requires cfg.Sound() && Exclusive(s) && Sized(s) && OrderInv(s) && !s.i.IOut?
    ensures OrderInv(NextI(cfg, s, sec, usec, dos))
  {
    hide OrderInv, Consume;
    if s.i.IRun? {
      HandlerRunKeepsOrder(cfg, s, sec, usec, dos);
    } else {
      PassKeepsOrder(s, NextI(cfg, s, sec, usec, dos));
    }
  }

  lemma StepKeepsOrder(cfg: Config, s: State, a: Action)
    requires cfg.Sound() && TokenInv(s) && Sized(s) && OrderInv(s) && Enabled(cfg, s, a)
    ensures OrderInv(Apply(cfg, s, a))
  {
    hide TokenInv, OrderInv, NextW, NextI, Consume;
    TokenIsExclusive(s);
    if a.StepW? {
      WriterKeepsOrder(cfg, s);
    } else if a.StepT? && s.tx.t.TRun? {
      TimerKeepsOrder(cfg, s);
    } else if a.StepI? {
      HandlerKeepsOrder(cfg, s, a.sec, a.usec, a.dos);
    } else {
      PassKeepsOrder(s, Apply(cfg, s, a));
    }
  }
}
