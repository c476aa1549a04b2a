/**
 Delays: a message waits at most once, for the time it asked for, and every look of a consumer at a
 non-empty queue brings the queue closer to empty.
 */
module Progress {
  import opened Words
  import opened CanTypes
  import opened Codec
  import opened Rings
  import opened Driver
  import opened Token
  import opened Order
  import opened Theorems
  import opened Timers

  // ---------------------------------------------------------------- the computed wait

  /**
   The bits of an unstuffed data frame, field by field: start of frame, arbitration field, control
   field, data field, CRC field, acknowledge field, end of frame (section 3.2.1 of the Bosch CAN
   Specification 2.0, Part B).  A remote frame has no data field.
   */
  function FrameLength(f: Frame): nat
    requires f.length >= 0
  {
    var arbitration := if f.ext then 11 + 1 + 1 + 18 + 1 else 11 + 1;
    var control := if f.ext then 2 + 4 else 1 + 1 + 4;
    var data := if f.rtr then 0 else 8 * f.length;
    1 + arbitration + control + data + (15 + 1) + (1 + 1) + 7
  }

  /** Its duration in microseconds at `baud` kbit/s. */
  function FrameTime(f: Frame, baud: int): real
    requires baud > 0 && f.length >= 0
  {
    (FrameLength(f) * 1000) as real / baud as real
  }

  /** The time in microseconds until a timer started with that delay runs out. */
  function Elapses(delay: int, long64: bool): real {
    Elapsing(delay, long64) as real / 1000.0
  }

  /** Waiting and then sending takes the requested time, less than a microsecond more at most. */
  predicate OnTime(m: Msg, baud: int, long64: bool)
    requires baud > 0 && m.length >= 0
  {
    var total := Elapses(Delay(m, baud), long64) + FrameTime(Wire(m), baud);
    ToInt32(m.usec) as real <= total < (ToInt32(m.usec) + 1) as real
  }

  lemma DivBounds(a: nat, b: int)
    requires b > 0
    ensures (a / b) as real <= a as real / b as real < (a / b + 1) as real
  {
    var q := a / b;
    assert b * q <= a < b * q + b;
    var x, y := a as real, b as real;
    assert q as real * y <= x < (q + 1) as real * y;
    assert q as real == q as real * y / y;
    assert (q + 1) as real == (q + 1) as real * y / y;
  }

  lemma FrameLengthOfMessage(m: Msg)
    requires 0 <= m.length <= 8
    ensures FrameBits(m) == FrameLength(Wire(m)) + (if IsRtr(m) then 8 * m.length else 0)
  {
  }

  lemma {:induction false} ProductAtLeast(b: int, q: nat)
    requires b > 0
    ensures b * q >= q
  {
    if q > 0 {
      ProductAtLeast(b, q - 1);
      assert b * q == b * (q - 1) + b;
    }
  }

  lemma DivShrinks(n: nat, b: int)
    requires b > 0
    ensures 0 <= n / b <= n
  {
    ProductAtLeast(b, n / b);
  }

  lemma DelayUnwrapped(m: Msg, baud: int)
    requires baud > 0 && 0 <= m.length <= 8 && ToInt32(m.usec) > 0
    ensures Delay(m, baud) == ToInt32(m.usec) - FrameBits(m) * 1000 / baud <= ToInt32(m.usec)
  {
    DivShrinks(FrameBits(m) * 1000, baud);
    var q := FrameBits(m) * 1000 / baud;
    assert 0 <= q <= 128000;
  }

  /**
   A message waits exactly if it asks for more than the counted frame time in whole microseconds; or if it
   asks for so much less than nothing that the difference wraps.
   */
  lemma WaitsExactly(m: Msg, baud: int)
    requires 0 < baud && 0 <= m.length <= 8
    ensures var asked, counted := ToInt32(m.usec), FrameBits(m) * 1000 / baud;
            && (Delay(m, baud) > 0 <==> asked != 0 && (asked > counted || asked - counted < -TWO31))
            && (asked > counted ==> Delay(m, baud) == asked - counted)
  {
    DivShrinks(FrameBits(m) * 1000, baud);
    assert 0 <= FrameBits(m) * 1000 / baud <= 128000;
  }

  lemma ElapsesExactly(delay: int, long64: bool)
    requires 0 < delay < TWO31
    ensures delay <= Longest(long64) ==> Elapses(delay, long64) == delay as real
    ensures delay > Longest(long64) ==> Elapses(delay, long64) <= (delay - 2) as real
  {
    hide Elapsing, Longest;
    ElapsingIsExact(delay, long64);
    assert (delay * 1000) as real == delay as real * 1000.0;
    assert ((delay - 2) * 1000) as real == (delay - 2) as real * 1000.0;
  }

  lemma CountedIsEnough(m: Msg, baud: int)
    requires 0 < baud && 0 <= m.length <= 8
    ensures FrameTime(Wire(m), baud) < (FrameBits(m) * 1000 / baud + 1) as real
  {
    FrameLengthOfMessage(m);
    DivBounds(FrameLength(Wire(m)) * 1000, baud);
    DivMonotone(FrameLength(Wire(m)) * 1000, FrameBits(m) * 1000, baud);
  }

  lemma DivMonotone(a: nat, b: nat, d: int)
    requires a <= b && d > 0
    ensures a / d <= b / d
  {
    if b / d < a / d { MulMonotone(d, b / d, a / d); }
  }

  /**
   At every bit rate: the wait is right exactly if the timer can keep it and the driver's count of
   the bits takes as many whole microseconds as the frame.
   */
  lemma WaitIsRightExactly(m: Msg, baud: int, long64: bool)
    requires 0 < baud && 0 <= m.length <= 8 && ToInt32(m.usec) > 0 && Delay(m, baud) > 0
    ensures OnTime(m, baud, long64) <==>
              Delay(m, baud) <= Longest(long64) && FrameBits(m) * 1000 / baud == FrameLength(Wire(m)) * 1000 / baud
  {
    hide Longest, FrameLength, Elapses, FrameBits, Delay;
    DelayUnwrapped(m, baud);
    ElapsesExactly(Delay(m, baud), long64);
    DivBounds(FrameLength(Wire(m)) * 1000, baud);
    CountedIsEnough(m, baud);
    var counted, whole := FrameBits(m) * 1000 / baud, FrameLength(Wire(m)) * 1000 / baud;
    if counted > whole {
      assert counted as real >= (whole + 1) as real;
    }
  }

  /** So it is right for every data frame whose wait the timer can keep. */
  lemma DataFramesAreOnTime(m: Msg, baud: int, long64: bool)
    requires 0 < baud && 0 <= m.length <= 8 && ToInt32(m.usec) > 0 && Delay(m, baud) > 0 && !IsRtr(m)
    ensures OnTime(m, baud, long64) <==> Delay(m, baud) <= Longest(long64)
  {
    FrameLengthOfMessage(m);
    WaitIsRightExactly(m, baud, long64);
  }

  /**
   On any bus up to 8 Mbit/s it is right exactly for the messages that go out with the data bytes they
   announce.  For a remote frame the driver subtracts the time of data bytes that are never sent.
   */
  lemma WaitIsRightExactlyWithoutPhantomData(m: Msg, baud: int, long64: bool)
    requires 0 < baud <= 8000 && 0 <= m.length <= 8 && ToInt32(m.usec) > 0 && Delay(m, baud) > 0
    ensures OnTime(m, baud, long64) <==> Delay(m, baud) <= Longest(long64) && (!IsRtr(m) || m.length == 0)
  {
    FrameLengthOfMessage(m);
    WaitIsRightExactly(m, baud, long64);
    if IsRtr(m) && m.length > 0 {
      QuotientGrows(FrameLength(Wire(m)) * 1000, FrameBits(m) * 1000, baud);
    }
  }

  lemma QuotientGrows(a: nat, b: nat, d: int)
    requires d > 0 && b >= a + d
    ensures b / d > a / d
  {
    var q := a / d;
    assert b == d * (q + 1) + (b - d * (q + 1)) && b - d * (q + 1) >= 0;
    if b / d <= q { MulMonotone(d, b / d, q + 1); }
  }

  // ---------------------------------------------------------------- delayed once, and then gone

  /** Only a message that asks for a delay is delayed. */
  ghost predicate Honest(cfg: Config) {
    forall m: Msg | ToInt32(m.usec) == 0 :: cfg.delay(m) <= 0
  }

  function Waiting(ms: seq<Msg>): nat {
    if ms == [] then 0 else One(ToInt32(ms[0].usec) != 0) + Waiting(ms[1..])
  }

  /** Messages queued, and again those of them that still ask for a delay. */
  function Work(q: Ring): nat
    requires Valid(q)
  {
    |Contents(q)| + Waiting(Contents(q))
  }

  function Rank(c: Consumer): nat {
    match c
    case Test => 6
    case Prep => 5
    case Load => 4
    case Issue => 3
    case Mark => 2
    case Park | Arm | Advance => 1
    case Done => 0
  }

  /** A whole call of `qconsume`, with nothing in between. */
  function Activation(cfg: Config, tx: Tx, reset: bool, c: Consumer): (tx': Tx)
    requires IsRingSize(|tx.q.slots|)
    decreases Rank(c)
  {
    if c.Done? then tx
    else
      var (tx', c') := Consume(cfg, tx, reset, c);
      Activation(cfg, tx', reset, c')
  }

  /** What a consumer does once it has found a message that is not to be delayed. */
  lemma SendingActivation(cfg: Config, tx: Tx, reset: bool)
    requires Valid(tx.q) && Len(tx.q) > 0 && cfg.delay(Capped(Head(tx.q))) <= 0
    ensures var m := Capped(Head(tx.q));
            Activation(cfg, tx, reset, Prep)
            == tx.(q := Rings.Advance(SetHead(tx.q, m)), loaded := m, txinprogress := true,
                   buffer := if reset then Lost else Busy, sent := tx.sent + [m])
  {
    assert IsRingSize(|tx.q.slots|);
    hide Rings.Valid, Head, SetHead, Capped;
    var m := Capped(Head(tx.q));
    HeadOfSetHead(tx.q, m);
    var a := Consume(cfg, tx, reset, Prep).0;
    var b := Consume(cfg, a, reset, Load).0;
    var c := Consume(cfg, b, reset, Issue).0;
    var d := Consume(cfg, c, reset, Mark).0;
    var e := Consume(cfg, d, reset, Advance).0;
    assert Activation(cfg, e, reset, Done) == e;
    assert Activation(cfg, d, reset, Advance) == e;
    assert Activation(cfg, c, reset, Mark) == e;
    assert Activation(cfg, b, reset, Issue) == e;
    assert Activation(cfg, a, reset, Load) == e;
  }

  /** And with one that is. */
  lemma DelayingActivation(cfg: Config, tx: Tx, reset: bool)
    requires Valid(tx.q) && Len(tx.q) > 0 && cfg.delay(Capped(Head(tx.q))) > 0
    ensures Activation(cfg, tx, reset, Prep)
         == tx.(q := SetHead(tx.q, Capped(Head(tx.q)).(usec := 0)), armed := true)
  {
    var a := Consume(cfg, tx, reset, Prep).0;
    var b := Consume(cfg, a, reset, Arm).0;
    assert Activation(cfg, b, reset, Done) == b;
    assert Activation(cfg, a, reset, Arm) == b;
  }

  /** Every activation that finds a message leaves strictly less work. */
  lemma ActivationLeavesLessWork(cfg: Config, tx: Tx, reset: bool)
    requires Honest(cfg) && Valid(tx.q) && Len(tx.q) > 0
    ensures var q' := Activation(cfg, tx, reset, Test).q; Valid(q') && Work(q') < Work(tx.q)
  {
    CountersAreExact(tx.q);
    HeadIsOldest(tx.q);
    assert Consume(cfg, tx, reset, Test) == (tx, Prep);
    assert Activation(cfg, tx, reset, Test) == Activation(cfg, tx, reset, Prep);
    var m, rest := Capped(Head(tx.q)), Contents(tx.q)[1..];
    if cfg.delay(m) > 0 {
      DelayingActivation(cfg, tx, reset);
      SetHeadKeepsRest(tx.q, m.(usec := 0));
      assert ([m.(usec := 0)] + rest)[1..] == rest;
    } else {
      SendingActivation(cfg, tx, reset);
      var q' := SetHead(tx.q, m);
      SetHeadKeepsRest(tx.q, m);
      CountersAreExact(q');
      AdvanceDropsOldest(q');
      assert ([m] + rest)[1..] == rest;
    }
  }

  /** An armed timer, and a timer on its way to the head, find a message that asks for no delay any more. */
  ghost predicate DelayInv(s: State)
    requires Sized(s)
  {
    && (s.tx.armed || TimerPc(s.tx.t).Test? || TimerPc(s.tx.t).Prep? ==> Head(s.tx.q).usec == 0)
    && (WriterPc(s.tx.w).Arm? || IsrPc(s.i).Arm? ==> Head(s.tx.q).usec == 0)
    && !TimerPc(s.tx.t).Arm?
  }

  lemma ArmedIsAlone(s: State)
    requires TokenInv(s) && s.tx.armed
    ensures WriterPc(s.tx.w).Done? && TimerPc(s.tx.t).Done? && IsrPc(s.i).Done? && Len(s.tx.q) > 0
  {
    assert Holds(WriterPc(s.tx.w)) || InWindow(WriterPc(s.tx.w)) || WriterPc(s.tx.w).Done?;
    assert Holds(TimerPc(s.tx.t)) || InWindow(TimerPc(s.tx.t)) || TimerPc(s.tx.t).Done?;
    assert Holds(IsrPc(s.i)) || InWindow(IsrPc(s.i)) || IsrPc(s.i).Done?;
  }

  lemma ConsumerKeepsDelay(cfg: Config, s: State, s': State, c: Consumer, c': Consumer)
    requires Honest(cfg) && Sized(s) && Sized(s') && DelayInv(s) && !s.tx.armed
    requires Moves(s, s', c, c') && IsRingSize(|s.tx.q.slots|)
    requires (Consume(cfg, s.tx, s.bus.resetreq, c).0.q, c') == (s'.tx.q, Consume(cfg, s.tx, s.bus.resetreq, c).1)
    requires s'.tx.armed == c.Arm?
    requires TimerPc(s'.tx.t).Done? || TimerPc(s.tx.t) == c
    ensures DelayInv(s')
  {
  }

  lemma WriterKickKeepsDelay(cfg: Config, s: State)
    requires cfg.Sound() && Honest(cfg) && TokenInv(s) && Sized(s) && DelayInv(s) && s.tx.w.WKick?
    ensures DelayInv(Apply(cfg, s, StepW))
  {
    TokenIsExclusive(s);
    var s', c := Apply(cfg, s, StepW), s.tx.w.c;
    if s.tx.armed { ArmedIsAlone(s); }
    assert Moves(s, s', c, WriterPc(s'.tx.w));
    ConsumerKeepsDelay(cfg, s, s', c, WriterPc(s'.tx.w));
  }

  lemma WriterHasRoom(s: State)
    requires TokenInv(s)
    ensures Valid(s.tx.q) && (s.tx.w.WFill? || s.tx.w.WPublish? ==> Len(s.tx.q) < |s.tx.q.slots|)
    ensures s.tx.armed || TimerPc(s.tx.t).Test? || TimerPc(s.tx.t).Prep? || WriterPc(s.tx.w).Arm? || IsrPc(s.i).Arm?
            ==> Len(s.tx.q) > 0
  {
  }

  lemma WriterFillKeepsDelay(cfg: Config, s: State)
    requires TokenInv(s) && Sized(s) && DelayInv(s) && !s.tx.w.WOut? && !s.tx.w.WKick?
    ensures DelayInv(Apply(cfg, s, StepW))
  {
    WriterHasRoom(s);
    hide Consume, TokenInv, Rings.Valid, DelayInv, NextW, Full;
    var s' := Apply(cfg, s, StepW);
    if Len(s.tx.q) > 0 { WriterKeepsHead(cfg, s.tx, s.bus.resetreq); }
    WriterMoves(cfg, s.tx, s.bus.resetreq);
    SameHeadKeepsDelay(s, s');
  }

  lemma WriterMoves(cfg: Config, tx: Tx, reset: bool)
    requires IsRingSize(|tx.q.slots|) && !tx.w.WOut? && !tx.w.WKick?
    ensures var tx' := NextW(cfg, tx, reset);
            tx'.armed == tx.armed && tx'.t == tx.t && (WriterPc(tx'.w).Done? || WriterPc(tx'.w).Test?)
  {
    hide Full, Rings.Fill, Consume;
  }

  lemma SameHeadKeepsDelay(s: State, s': State)
    requires Sized(s) && Sized(s') && DelayInv(s)
    requires s'.tx.armed == s.tx.armed && s'.tx.t == s.tx.t && s'.i == s.i
    requires WriterPc(s'.tx.w).Done? || WriterPc(s'.tx.w).Test?
    requires s.tx.armed || TimerPc(s.tx.t).Test? || TimerPc(s.tx.t).Prep? || IsrPc(s.i).Arm? ==> Head(s'.tx.q) == Head(s.tx.q)
    ensures DelayInv(s')
  {
  }

  lemma WriterKeepsHead(cfg: Config, tx: Tx, reset: bool)
    requires Valid(tx.q) && Len(tx.q) > 0 && !tx.w.WKick?
    requires tx.w.WFill? || tx.w.WPublish? ==> Len(tx.q) < |tx.q.slots|
    ensures Head(NextW(cfg, tx, reset).q) == Head(tx.q)
  {
    CountersAreExact(tx.q);
    if tx.w.WFill? { FillAndDrainDiffer(tx.q); }
  }

  lemma TimerKeepsDelay(cfg: Config, s: State)
    requires cfg.Sound() && Honest(cfg) && TokenInv(s) && Sized(s) && DelayInv(s) && s.tx.t.TRun?
    ensures DelayInv(Apply(cfg, s, StepT))
  {
    TokenIsExclusive(s);
    var s', c := Apply(cfg, s, StepT), s.tx.t.c;
    if s.tx.armed { ArmedIsAlone(s); }
    assert Moves(s, s', c, TimerPc(s'.tx.t));
    ConsumerKeepsDelay(cfg, s, s', c, TimerPc(s'.tx.t));
  }

  lemma HandlerKeepsDelay(cfg: Config, s: State, sec: int, usec: int, dos: bool)
    requires cfg.Sound() && Honest(cfg) && TokenInv(s) && Sized(s) && DelayInv(s) && s.i.IRun?
    ensures DelayInv(NextI(cfg, s, sec, usec, dos))
  {
    TokenIsExclusive(s);
    var s', c := NextI(cfg, s, sec, usec, dos), s.i.c;
    if s.tx.armed { ArmedIsAlone(s); }
    assert Moves(s, s', c, IsrPc(s'.i));
    ConsumerKeepsDelay(cfg, s, s', c, IsrPc(s'.i));
  }

  /** Steps that change neither the queue nor the consumers, but for one that starts at its test. */
  lemma PassKeepsDelay(s: State, s': State)
    requires Sized(s) && Sized(s') && DelayInv(s) && s'.tx.q == s.tx.q
    requires WriterPc(s'.tx.w) == WriterPc(s.tx.w) && (IsrPc(s'.i) == IsrPc(s.i) || IsrPc(s'.i).Test?)
    requires (s'.tx.armed, TimerPc(s'.tx.t)) == (s.tx.armed, TimerPc(s.tx.t))
          || (s.tx.armed && !s'.tx.armed && TimerPc(s'.tx.t).Test?)
    ensures DelayInv(s')
  {
  }

  lemma StepKeepsDelay(cfg: Config, s: State, a: Action)
    requires cfg.Sound() && Honest(cfg) && TokenInv(s) && Sized(s) && DelayInv(s) && Enabled(cfg, s, a)
    ensures DelayInv(Apply(cfg, s, a))
  {
    if a.StepW? {
      if s.tx.w.WKick? { WriterKickKeepsDelay(cfg, s); } else { WriterFillKeepsDelay(cfg, s); }
    } else if a.StepT? && s.tx.t.TRun? {
      TimerKeepsDelay(cfg, s);
    } else if a.StepI? && s.i.IRun? {
      HandlerKeepsDelay(cfg, s, a.sec, a.usec, a.dos);
    } else {
      PassKeepsDelay(s, Apply(cfg, s, a));
    }
  }

  lemma {:induction false} RunDelayInv(cfg: Config, s: State, acts: seq<Action>, s': State)
    requires cfg.Sound() && Honest(cfg) && TxInv(s) && DelayInv(s) && Runs(cfg, s, acts, s')
    ensures TxInv(s') && DelayInv(s')
    decreases |acts|
  {
    if acts != [] {
      StepKeepsToken(cfg, s, acts[0]);
      StepKeepsOrder(cfg, s, acts[0]);
      StepKeepsDelay(cfg, s, acts[0]);
      RunDelayInv(cfg, Apply(cfg, s, acts[0]), acts[1..], s');
    }
  }

  /** No message is delayed twice: whenever the timer runs, what it finds is sent and not delayed again. */
  lemma DelayedOnlyOnce(cfg: Config, s: State)
    requires cfg.Sound() && Honest(cfg) && Reachable(cfg, s)
    ensures !TimerPc(s.tx.t).Arm?
    ensures s.tx.armed || TimerPc(s.tx.t).Prep? ==> Valid(s.tx.q) && Len(s.tx.q) > 0 && Head(s.tx.q).usec == 0
  {
    var s0: State, acts: seq<Action> :| Init(s0) && Runs(cfg, s0, acts, s);
    InitTxInv(s0);
    RunDelayInv(cfg, s0, acts, s);
  }
}
