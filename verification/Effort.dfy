/**
 Consumers do not look in vain: over any run, whatever the interleaving, they find a message at most
 twice for each message accepted, once to delay it and once to send it.
 */
module Effort {
  import opened Words
  import opened CanTypes
  import opened Codec
  import opened Rings
  import opened Driver
  import opened Token
  import opened Order
  import opened Theorems
  import opened Progress

  /** Has found a message and neither delayed nor consumed it yet. */
  predicate InHand(c: Consumer) {
    c.Prep? || c.Load? || c.Issue? || c.Mark? || c.Advance?
  }

  predicate AnyInHand(s: State) {
    InHand(WriterPc(s.tx.w)) || InHand(TimerPc(s.tx.t)) || InHand(IsrPc(s.i))
  }

  /** The work that is left, without what is in hand. */
  function Left(s: State): int
    requires Valid(s.tx.q)
  {
    Work(s.tx.q) - One(AnyInHand(s))
  }

  /** The consumer that the action moves. */
  function Moving(s: State, a: Action): Consumer {
    match a
    case StepW => WriterPc(s.tx.w)
    case StepT => TimerPc(s.tx.t)
    case StepI(_, _, _) => IsrPc(s.i)
    case _ => Done
  }

  /** The action is a look at the queue that finds a message. */
  predicate Finds(s: State, a: Action) {
    Moving(s, a).Test? && !Empty(s.tx.q)
  }

  function FindsIn(cfg: Config, s: State, acts: seq<Action>): nat
    requires Sized(s)
    decreases |acts|
  {
    if acts == [] then 0 else One(Finds(s, acts[0])) + FindsIn(cfg, Apply(cfg, s, acts[0]), acts[1..])
  }

  // ---------------------------------------------------------------- work under the queue operations

  lemma WorkOf(head: Msg, rest: seq<Msg>)
    ensures Waiting([head] + rest) == One(ToInt32(head.usec) != 0) + Waiting(rest)
  {
    assert ([head] + rest)[1..] == rest;
  }

  lemma {:induction false} WaitingConcat(a: seq<Msg>, b: seq<Msg>)
    ensures Waiting(a + b) == Waiting(a) + Waiting(b)
    decreases |a|
  {
    if a == [] {
      assert a + b == b;
    } else {
      assert (a + b)[1..] == a[1..] + b;
      WaitingConcat(a[1..], b);
    }
  }

  lemma SetHeadWork(q: Ring, m: Msg)
    requires Valid(q) && Len(q) > 0
    ensures Valid(SetHead(q, m))
    ensures Work(SetHead(q, m)) == Work(q) - One(ToInt32(Head(q).usec) != 0) + One(ToInt32(m.usec) != 0)
  {
    CountersAreExact(q);
    HeadIsOldest(q);
    SetHeadKeepsRest(q, m);
    var rest := Contents(q)[1..];
    assert Contents(q) == [Head(q)] + rest;
    WorkOf(Head(q), rest);
    WorkOf(m, rest);
  }

  lemma AdvanceWork(q: Ring)
    requires Valid(q) && Len(q) > 0
    ensures Valid(Rings.Advance(q)) && Work(Rings.Advance(q)) <= Work(q) - 1
  {
    CountersAreExact(q);
    AdvanceDropsOldest(q);
  }

  lemma PublishWork(q: Ring)
    requires Valid(q) && Len(q) < |q.slots|
    ensures Valid(Rings.Publish(q)) && Work(Rings.Publish(q)) <= Work(q) + 2
  {
    CountersAreExact(q);
    PublishAppends(q);
    WaitingConcat(Contents(q), [Filled(q)]);
    WorkOf(Filled(q), []);
    assert [Filled(q)] + [] == [Filled(q)];
  }

  lemma FillWork(q: Ring, m: Msg)
    requires Valid(q) && Len(q) < |q.slots|
    ensures Valid(Rings.Fill(q, m)) && Work(Rings.Fill(q, m)) == Work(q)
  {
    CountersAreExact(q);
    FillKeepsContents(q, m);
  }

  // ---------------------------------------------------------------- steps

  /** One step of `qconsume` pays for what it finds. */
  lemma ConsumePays(cfg: Config, tx: Tx, reset: bool, c: Consumer)
    requires cfg.Sound() && Honest(cfg) && Valid(tx.q) && (InUse(c) ==> Len(tx.q) > 0) && !c.Park? && !c.Done?
    ensures var (tx', c') := Consume(cfg, tx, reset, c);
            && Valid(tx'.q)
            && One(c.Test? && !Empty(tx.q)) + Work(tx'.q) - One(InHand(c')) <= Work(tx.q) - One(InHand(c))
  {
    hide Work, Rings.Contents;
    CountersAreExact(tx.q);
    if c.Prep? {
      var m := Capped(Head(tx.q));
      SetHeadWork(tx.q, m);
      SetHeadWork(tx.q, m.(usec := 0));
    } else if c.Advance? {
      AdvanceWork(tx.q);
    }
  }

  lemma ConsumerPays(cfg: Config, s: State, s': State, c: Consumer, c': Consumer)
    requires cfg.Sound() && Honest(cfg) && Exclusive(s) && Sized(s) && Sized(s')
    requires Moves(s, s', c, c') && ConsumedTo(cfg, s, s', c, c')
    ensures Valid(s'.tx.q) && One(c.Test? && !Empty(s.tx.q)) + Left(s') <= Left(s)
  {
    hide Work, Consume;
    ConsumePays(cfg, s.tx, s.bus.resetreq, c);
  }

  lemma WriterKickPays(cfg: Config, s: State)
    requires cfg.Sound() && Honest(cfg) && Exclusive(s) && Sized(s) && s.tx.w.WKick?
    ensures var s' := Apply(cfg, s, StepW);
            Valid(s'.tx.q) && One(Finds(s, StepW)) + Left(s') <= Left(s) && s'.tx.accepted == s.tx.accepted
  {
    hide Work, Consume;
    var c, s' := s.tx.w.c, Apply(cfg, s, StepW);
    var c' := Consume(cfg, s.tx, s.bus.resetreq, c).1;
    ConsumeKeepsPlaces(cfg, s.tx, s.bus.resetreq, c);
    ConsumerPays(cfg, s, s', c, c');
  }

  lemma TimerPays(cfg: Config, s: State)
    requires cfg.Sound() && Honest(cfg) && Exclusive(s) && Sized(s) && s.tx.t.TRun?
    ensures var s' := Apply(cfg, s, StepT);
            Valid(s'.tx.q) && One(Finds(s, StepT)) + Left(s') <= Left(s) && s'.tx.accepted == s.tx.accepted
  {
    hide Work, Consume;
    var c, s' := s.tx.t.c, Apply(cfg, s, StepT);
    var c' := Consume(cfg, s.tx, s.bus.resetreq, c).1;
    ConsumeKeepsPlaces(cfg, s.tx, s.bus.resetreq, c);
    ConsumerPays(cfg, s, s', c, c');
  }

  lemma HandlerPays(cfg: Config, s: State, a: Action)
    requires cfg.Sound() && Honest(cfg) && Exclusive(s) && Sized(s) && a.StepI? && s.i.IRun?
    ensures var s' := Apply(cfg, s, a);
            Valid(s'.tx.q) && One(Finds(s, a)) + Left(s') <= Left(s) && s'.tx.accepted == s.tx.accepted
  {
    hide Work, Consume;
    var c, s' := s.i.c, Apply(cfg, s, a);
    var c' := Consume(cfg, s.tx, s.bus.resetreq, c).1;
    ConsumeKeepsPlaces(cfg, s.tx, s.bus.resetreq, c);
    ConsumerPays(cfg, s, s', c, c');
  }

  lemma WriterPays(cfg: Config, s: State)
    requires Exclusive(s) && Sized(s) && !s.tx.w.WOut? && !s.tx.w.WKick?
    ensures var s' := Apply(cfg, s, StepW);
            && Valid(s'.tx.q) && !Finds(s, StepW)
            && Left(s') <= Left(s) + 2 * (|s'.tx.accepted| - |s.tx.accepted|)
  {
    hide Work, Rings.Contents, Consume, Full, Empty, Index;
    if s.tx.w.WFill? {
      FillWork(s.tx.q, s.tx.w.m);
    } else if s.tx.w.WPublish? {
      PublishWork(s.tx.q);
    }
  }

  /** Steps that touch neither the queue nor a consumer that has found something. */
  lemma OthersPay(cfg: Config, s: State, a: Action)
    requires Exclusive(s) && Sized(s) && Enabled(cfg, s, a)
    requires !a.StepW? && !(a.StepT? && s.tx.t.TRun?) && !(a.StepI? && s.i.IRun?)
    ensures var s' := Apply(cfg, s, a);
            Valid(s'.tx.q) && !Finds(s, a) && Left(s') <= Left(s) && s'.tx.accepted == s.tx.accepted
  {
    hide Work, Rings.Contents, Consume, NextR, NextP, NextI, Wiped, HalfEmpty, Empty;
    if a.StepI? { HandlerPassesBy(cfg, s, a.sec, a.usec, a.dos); }
  }

  lemma HandlerPassesBy(cfg: Config, s: State, sec: int, usec: int, dos: bool)
    requires Sized(s) && !s.i.IRun?
    ensures var s' := NextI(cfg, s, sec, usec, dos);
            && s'.tx.q == s.tx.q && s'.tx.accepted == s.tx.accepted
            && s'.tx.w == s.tx.w && s'.tx.t == s.tx.t && (s'.i.IRun? ==> s'.i.c.Test?)
  {
    hide Consume, Produced, HalfEmpty, ErrorMsg;
  }

  lemma StepPays(cfg: Config, s: State, a: Action)
    requires cfg.Sound() && Honest(cfg) && Exclusive(s) && Sized(s) && Enabled(cfg, s, a)
    ensures var s' := Apply(cfg, s, a);
            Valid(s'.tx.q) && One(Finds(s, a)) + Left(s') <= Left(s) + 2 * (|s'.tx.accepted| - |s.tx.accepted|)
  {
    hide Exclusive, NextW, NextT, NextI, Left;
    if a.StepW? {
      if s.tx.w.WKick? { WriterKickPays(cfg, s); } else { WriterPays(cfg, s); }
    } else if a.StepT? && s.tx.t.TRun? {
      TimerPays(cfg, s);
    } else if a.StepI? && s.i.IRun? {
      HandlerPays(cfg, s, a);
    } else {
      OthersPay(cfg, s, a);
    }
  }

  // ---------------------------------------------------------------- runs

  lemma {:induction false} RunPays(cfg: Config, s: State, acts: seq<Action>, s': State)
    requires cfg.Sound() && Honest(cfg) && TxInv(s) && Runs(cfg, s, acts, s')
    ensures TxInv(s')
    ensures FindsIn(cfg, s, acts) + Left(s') <= Left(s) + 2 * (|s'.tx.accepted| - |s.tx.accepted|)
    decreases |acts|
  {
    hide Left, Finds, TokenInv, LostInv, OrderInv, Apply;
    if acts != [] {
      InvIsExclusive(s);
      StepKeepsToken(cfg, s, acts[0]);
      StepKeepsOrder(cfg, s, acts[0]);
      StepPays(cfg, s, acts[0]);
      RunPays(cfg, Apply(cfg, s, acts[0]), acts[1..], s');
    }
  }

  lemma InvIsExclusive(s: State)
    requires TokenInv(s)
    ensures Exclusive(s) && Valid(s.tx.q)
  {
    TokenIsExclusive(s);
  }

  /** Never more than two finds for each accepted message. */
  lemma FindsAreBounded(cfg: Config, s: State, acts: seq<Action>, s': State)
    requires cfg.Sound() && Honest(cfg) && Init(s) && Runs(cfg, s, acts, s')
    ensures FindsIn(cfg, s, acts) <= 2 * |s'.tx.accepted|
  {
    InitTxInv(s);
    RunPays(cfg, s, acts, s');
    assert Contents(s.tx.q) == [];
    InvIsExclusive(s');
    LeftIsCount(s');
  }

  lemma LeftIsCount(s: State)
    requires Exclusive(s)
    ensures Left(s) >= 0
  {
    CountersAreExact(s.tx.q);
  }

  lemma ReachableInv(cfg: Config, s: State)
    requires cfg.Sound() && Reachable(cfg, s)
    ensures TxInv(s)
  {
    var s0: State, acts: seq<Action> :| Init(s0) && Runs(cfg, s0, acts, s);
    InitTxInv(s0);
    RunTxInv(cfg, s0, acts, s);
  }

  /**
   Once nothing more is published, the queue is found non-empty at most as often as it has messages, and
   again as often as these ask for delays; when that many have been found, at most the last one is left,
   in the hand of its consumer.
   */
  lemma FindsEndWithoutWrites(cfg: Config, s: State, acts: seq<Action>, s': State)
    requires cfg.Sound() && Honest(cfg) && Reachable(cfg, s) && Sized(s)
    requires Runs(cfg, s, acts, s') && |s'.tx.accepted| == |s.tx.accepted|
    ensures Valid(s.tx.q) && FindsIn(cfg, s, acts) <= Work(s.tx.q)
    ensures FindsIn(cfg, s, acts) == Work(s.tx.q) ==> Valid(s'.tx.q) && Work(s'.tx.q) <= One(AnyInHand(s'))
  {
    ReachableInv(cfg, s);
    RunPays(cfg, s, acts, s');
    InvIsExclusive(s');
    LeftIsCount(s');
  }
}
