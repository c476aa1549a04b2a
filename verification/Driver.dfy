/**
 The driver's message path as a transition system.

 Five contexts take atomic steps in any order: a writer in `can_write`, a reader in `can_read`, the
 interrupt handler `CAN_Interrupt`, the high-resolution timer in `delayedmsgworker`, and a poller in
 `can_select`.  The controller and the bus take steps of their own.  Steps are as fine as the shared
 accesses of the source, but for three things: a section that msgq.c runs under its lock is a single step,
 so is the filling of the transmit registers, and the register reads of `readcanmsg` are the step that ends
 them; a bus-off in the middle of them is one before that step.

 `accepted`, `sent`, `arrived` and `delivered` are logs.
 */
module Driver {
  import opened Options
  import opened CanTypes
  import opened Codec
  import opened Rings

  /**
   What is assumed about the surroundings.
   delay: the wait that `sendcanmsg` computes for a message, Codec.Delay at the configured bit rate.
   receive: what `readcanmsg` makes of a frame window in a given slot, Codec.Received.
   Nothing about the steps below depends on which functions these two are.
   locked: the transmit queue was created with its lock.
   early: the handler may act on a transmit interrupt while another context is still between its
     transmission request and the return of its `qconsume`.
   hasty: the handler may test for a lost interrupt while the frame's sender has not set `txinprogress` yet.
   stale: the free transmit buffer that the handler tests for after a bus-off may also be free because
     a transmission completed after the interrupt register was read.
   crowded: another device may use the same entry of the timer table, and take the timer away by a delay of its own.
   torn: a bus-off may empty the FIFO before the handler has finished its copy of a frame that it saw there.
   */
  datatype Config = Config(
    delay: Msg -> int, receive: (Image, Msg, nat, int, int) -> Msg,
    locked: bool, early: bool, hasty: bool, stale: bool, crowded: bool, torn: bool) {
    /** What the transmit side needs. */
    predicate Sound() {
      locked && !early && !hasty && !stale && !crowded
    }
  }

  /** One call `qconsume(&dev->txq, sendcanmsg, dev)`. */
  datatype Consumer =
    | Test      // about to look for a message, under the lock
    | Park      // only without the lock: found none, about to set idle
    | Prep      // in sendcanmsg: about to cap the length and to look at the delay
    | Arm       // about to start the timer
    | Load      // about to write the transmit registers
    | Issue     // about to write the transmission request
    | Mark      // about to set txinprogress
    | Advance   // about to count the message as consumed
    | Done

  datatype Writer =
    | WOut | WCheck(m: Msg) | WFill(m: Msg) | WPublish(m: Msg)
    | WIdle | WClear | WKick(c: Consumer)

  datatype Timer = TOut | TRun(c: Consumer) | TWake

  datatype Reader = ROut | RTest | RCopy | RAdvance(m: Msg)

  datatype Poller = POut | PRx | PTx | PSleep

  /** The interrupt bits of one pass of the handler's loop, and its `msginf.flags`. */
  datatype Source = Source(ri: bool, ei: bool, ti: bool, di: bool, flags: nat)

  /** One call of `rxproduce`. */
  datatype Produce = Check | Fill | Release | Publish | Wake

  datatype Isr =
    | IOut | IRead
    | IRx(src: Source, x: Produce)
    | IReset(src: Source) | IStatus(src: Source) | IFree(src: Source) | IErr(src: Source, x: Produce)
    | IClear(src: Source) | IRun(src: Source, c: Consumer) | IWake(src: Source)
    | IOvr(src: Source, x: Produce)

  /** The transmit buffer: free, holding a requested frame, or free because a bus-off lost the frame. */
  datatype Buffer = Free | Busy | Lost

  datatype Tx = Tx(
    q: Ring, idle: bool, txinprogress: bool, loaded: Msg, armed: bool,
    buffer: Buffer, txint: bool, w: Writer, t: Timer,
    accepted: seq<Msg>, sent: seq<Msg>)

  /**
   `arrived` are the frames that the controller accepted; `wiped` marks those that a reset took from its FIFO.
   `shown` is what a copy got of the frame window that the last bus-off fell into: the bytes read before
   belong to the frame, those read after to other registers, so it may be anything.
   */
  datatype Rx = Rx(
    q: Ring, overrun: bool, r: Reader, fifo: seq<Image>,
    shown: Image, arrived: seq<Image>, wiped: seq<bool>, delivered: seq<Msg>)

  /** Interrupt bits other than receive and transmit, and the bus and error state. */
  datatype Bus = Bus(warn: bool, ovrint: bool, busoff: bool, resetreq: bool, errstatus: bool)

  datatype Poll = Poll(p: Poller, woken: bool)

  datatype State = State(tx: Tx, rx: Rx, bus: Bus, i: Isr, poll: Poll)

  datatype Action =
    | Write(m: Msg) | StepW
    | Read | StepR
    | Irq | StepI(sec: int, usec: int, dos: bool)
    | Fire | StepT
    | StartPoll | StepP
    | TakeTimer
    | Complete | BusOff(shown: Image) | Recover | Warn(err: bool)
    | Arrive(w: Image) | Drop

  ghost predicate Sized(s: State) {
    IsRingSize(|s.tx.q.slots|) && IsRingSize(|s.rx.q.slots|)
  }

  // ---------------------------------------------------------------- qconsume on the transmit queue

  /** `reset` says whether the chip is in reset mode, where a transmission request is not taken. */
  function Consume(cfg: Config, tx: Tx, reset: bool, c: Consumer): (r: (Tx, Consumer))
    requires IsRingSize(|tx.q.slots|)
    ensures |r.0.q.slots| == |tx.q.slots|
  {
    match c
    case Test =>
      if !Empty(tx.q) then (tx, Prep)
      else if cfg.locked then (tx.(idle := true), Done)
      else (tx, Park)
    case Park => (tx.(idle := true), Done)
    case Prep =>
      var m := Capped(Head(tx.q));
      if cfg.delay(m) > 0 then (tx.(q := SetHead(tx.q, m.(usec := 0))), Arm)
      else (tx.(q := SetHead(tx.q, m)), Load)
    case Arm => (tx.(armed := true), Done)
    case Load => (tx.(loaded := Head(tx.q)), Issue)
    case Issue => (tx.(buffer := if reset then Lost else Busy, sent := tx.sent + [tx.loaded]), Mark)
    case Mark => (tx.(txinprogress := true), Advance)
    case Advance => (tx.(q := Rings.Advance(tx.q)), Done)
    case Done => (tx, Done)
  }

  /** `wake_up_interruptible` reaches a poller that has registered. */
  function WakeUp(poll: Poll): Poll {
    if poll.p.POut? then poll else poll.(woken := true)
  }

  /** `qlen(&dev->txq) <= qsize(&dev->txq)/2` */
  predicate HalfEmpty(q: Ring) {
    QLen(q) <= |q.slots| / 2
  }

  function WakeIfHalfEmpty(q: Ring, poll: Poll): Poll {
    if HalfEmpty(q) then WakeUp(poll) else poll
  }

  // ---------------------------------------------------------------- can_write

  function NextW(cfg: Config, tx: Tx, reset: bool): (tx': Tx)
    requires IsRingSize(|tx.q.slots|)
    ensures |tx'.q.slots| == |tx.q.slots|
  {
    match tx.w
    case WOut => tx
    case WCheck(m) => if Full(tx.q) then tx.(w := WOut) else tx.(w := WFill(m))
    case WFill(m) => tx.(q := Rings.Fill(tx.q, m), w := WPublish(m))
    case WPublish(m) => tx.(q := Rings.Publish(tx.q), accepted := tx.accepted + [m], w := WIdle)
    case WIdle => if tx.idle then tx.(w := WClear) else tx.(w := WOut)
    case WClear => tx.(idle := false, w := WKick(Test))
    case WKick(c) =>
      var (tx', c') := Consume(cfg, tx, reset, c);
      tx'.(w := if c'.Done? then WOut else WKick(c'))
  }

  // ---------------------------------------------------------------- delayedmsgworker

  function NextT(cfg: Config, tx: Tx, reset: bool): (tx': Tx)
    requires IsRingSize(|tx.q.slots|)
    ensures |tx'.q.slots| == |tx.q.slots|
  {
    match tx.t
    case TOut => tx
    case TRun(c) =>
      var (tx', c') := Consume(cfg, tx, reset, c);
      tx'.(t := if c'.Done? then TWake else TRun(c'))
    case TWake => tx.(t := TOut)
  }

  // ---------------------------------------------------------------- can_read

  function NextR(rx: Rx): (rx': Rx)
    requires IsRingSize(|rx.q.slots|)
    ensures |rx'.q.slots| == |rx.q.slots|
  {
    match rx.r
    case ROut => rx
    case RTest => if Empty(rx.q) then rx.(r := ROut) else rx.(r := RCopy)
    case RCopy => rx.(r := RAdvance(Head(rx.q)))
    case RAdvance(m) => rx.(q := Rings.Advance(rx.q), delivered := rx.delivered + [m], r := ROut)
  }

  // ---------------------------------------------------------------- can_select

  function NextP(poll: Poll, rxq: Ring, txq: Ring): Poll {
    match poll.p
    case POut => poll
    case PRx => if QLen(rxq) > 0 then poll.(p := POut) else poll.(p := PTx)
    case PTx => if HalfEmpty(txq) then poll.(p := POut) else poll.(p := PSleep)
    case PSleep => Poll(PRx, false)
  }

  // ---------------------------------------------------------------- CAN_Interrupt

  function StageDi(src: Source): Isr { if src.di then IOvr(src, Check) else IRead }

  function StageTi(src: Source): Isr { if src.ti then IClear(src) else StageDi(src) }

  function StageEi(src: Source): Isr { if src.ei then IReset(src) else StageTi(src) }

  function StageRx(src: Source): Isr { if src.ri then IRx(src, Check) else StageEi(src) }

  /** Reading the interrupt register clears every bit but the receive one. */
  function ReadIrq(s: State): State {
    var src := Source(s.rx.fifo != [], s.bus.warn, s.tx.txint, s.bus.ovrint, if s.rx.overrun then MSG_BOVR else 0);
    State(s.tx.(txint := false), s.rx, s.bus.(warn := false, ovrint := false),
          if src.ri || src.ei || src.ti || src.di then StageRx(src) else IOut, s.poll)
  }

  function ErrorMsg(old_: Msg, flags: nat, sec: int, usec: int): Msg {
    old_.(id := ERROR_ID, sec := sec, usec := usec, flags := flags, length := 0)
  }

  /** The step of `rxproduce` that calls back into `readcanmsg`. */
  function FillFrame(cfg: Config, rx: Rx, flags: nat, sec: int, usec: int): Rx
    requires IsRingSize(|rx.q.slots|)
  {
    var w := if rx.fifo == [] then rx.shown else rx.fifo[0];
    rx.(q := Rings.Fill(rx.q, cfg.receive(w, Filled(rx.q), flags, sec, usec)))
  }

  function FillError(rx: Rx, flags: nat, sec: int, usec: int): Rx
    requires IsRingSize(|rx.q.slots|)
  {
    rx.(q := Rings.Fill(rx.q, ErrorMsg(Filled(rx.q), flags, sec, usec)))
  }

  function ReleaseFrame(rx: Rx): Rx {
    if rx.fifo == [] then rx else rx.(fifo := rx.fifo[1..])
  }

  /** What one step of `rxproduce` does to the receive queue; `flags` is `inf->flags`. */
  function Produced(cfg: Config, rx: Rx, frame: bool, x: Produce, flags: nat, sec: int, usec: int): (rx': Rx)
    requires IsRingSize(|rx.q.slots|)
    ensures |rx'.q.slots| == |rx.q.slots| && rx'.q.consumed == rx.q.consumed
    ensures rx'.q.produced == if x.Publish? then rx.q.produced + 1 else rx.q.produced
  {
    match x
    case Check => if Full(rx.q) then rx.(overrun := true) else rx
    case Fill => if frame then FillFrame(cfg, rx, flags, sec, usec) else FillError(rx, flags, sec, usec)
    case Release => if frame then ReleaseFrame(rx) else rx
    case Publish => rx.(q := Rings.Publish(rx.q))
    case Wake => rx.(overrun := false)
  }

  /** The step that follows in `rxproduce`, if any; only a frame is released to the controller. */
  function AfterProduce(rx: Rx, frame: bool, x: Produce): Option<Produce> {
    match x
    case Check => if Full(rx.q) then None else Some(Fill)
    case Fill => if frame then Some(Release) else Some(Publish)
    case Release => Some(Publish)
    case Publish => Some(Wake)
    case Wake => None
  }

  function WakeAfterProduce(x: Produce, poll: Poll): Poll {
    if x.Wake? then WakeUp(poll) else poll
  }

  /** The handler's test for a lost interrupt: in progress, not signalled, and the buffer is writable. */
  predicate TestsFree(s: State) {
    s.i.IFree? && s.tx.txinprogress && !s.i.src.ti && !s.tx.buffer.Busy?
  }

  function NextI(cfg: Config, s: State, sec: int, usec: int, dos: bool): (s': State)
    requires Sized(s)
    ensures Sized(s')
  {
    match s.i
    case IOut => s
    case IRead => ReadIrq(s)
    case IRx(src, x) =>
      var next := AfterProduce(s.rx, true, x);
      State(s.tx, Produced(cfg, s.rx, true, x, src.flags, sec, usec), s.bus,
            if next.Some? then IRx(src, next.value) else StageEi(src), WakeAfterProduce(x, s.poll))
    case IReset(src) => s.(bus := s.bus.(resetreq := false), i := IStatus(src))
    case IStatus(src) =>
      s.(i := if s.bus.busoff then IErr(src.(flags := src.flags + MSG_BUSOFF), Check)
              else if s.bus.errstatus then IErr(src.(flags := src.flags + MSG_PASSIVE), Check)
              else IFree(src))
    case IFree(src) =>
      if TestsFree(s) then s.(tx := s.tx.(buffer := Free), i := IErr(src.(ti := true), Check))
      else s.(i := IErr(src, Check))
    case IErr(src, x) =>
      var next := AfterProduce(s.rx, false, x);
      State(s.tx, Produced(cfg, s.rx, false, x, src.flags, sec, usec), s.bus,
            if next.Some? then IErr(src, next.value) else StageTi(src), WakeAfterProduce(x, s.poll))
    case IClear(src) => s.(tx := s.tx.(txinprogress := false), i := IRun(src, Test))
    case IRun(src, c) =>
      var (tx', c') := Consume(cfg, s.tx, s.bus.resetreq, c);
      s.(tx := tx', i := if c'.Done? then IWake(src) else IRun(src, c'))
    case IWake(src) => s.(poll := WakeIfHalfEmpty(s.tx.q, s.poll), i := StageDi(src))
    case IOvr(src, x) =>
      var next := AfterProduce(s.rx, false, x);
      State(s.tx, Produced(cfg, s.rx, false, x, src.flags + (if dos then MSG_OVR else 0), sec, usec), s.bus,
            if next.Some? then IOvr(src, next.value) else IRead, WakeAfterProduce(x, s.poll))
  }

  // ---------------------------------------------------------------- the whole system

  predicate InWindow(c: Consumer) { c.Mark? || c.Advance? }

  /** The writer or the timer has requested a transmission and has not returned from `qconsume` yet. */
  predicate WindowOpen(tx: Tx) {
    (tx.w.WKick? && InWindow(tx.w.c)) || (tx.t.TRun? && InWindow(tx.t.c))
  }

  /** The handler's test for a lost interrupt is about to fail although a frame has been lost. */
  predicate TestsTooSoon(s: State) {
    s.i.IFree? && !s.i.src.ti && s.tx.buffer.Lost? && !s.tx.txinprogress
  }

  predicate HandlerMayStep(cfg: Config, s: State) {
    && (s.i.IClear? && WindowOpen(s.tx) ==> cfg.early)
    && (TestsTooSoon(s) ==> cfg.hasty)
    && (TestsFree(s) && s.tx.txint ==> cfg.stale)
    && (CopiesNothing(s) ==> cfg.torn)
  }

  /** The handler is about to finish its copy of a frame that the FIFO does not hold any more. */
  predicate CopiesNothing(s: State) {
    s.i.IRx? && s.i.x.Fill? && s.rx.fifo == []
  }

  /** The handler has copied the first frame of the FIFO and has not released it yet. */
  predicate Copied(rx: Rx, i: Isr) {
    i.IRx? && i.x.Release? && rx.fifo != []
  }

  /** Marks the last `n` entries of the log. */
  function MarkLast(marks: seq<bool>, n: nat): (r: seq<bool>)
    ensures |r| == |marks|
  {
    seq(|marks|, j requires 0 <= j < |marks| => marks[j] || j >= |marks| - n)
  }

  /** Going to reset mode empties the receive FIFO; a frame that the handler has copied is not lost by that. */
  function Wiped(rx: Rx, i: Isr, shown: Image): Rx {
    rx.(fifo := [], shown := shown, wiped := MarkLast(rx.wiped, if Copied(rx, i) then |rx.fifo| - 1 else |rx.fifo|))
  }

  predicate Enabled(cfg: Config, s: State, a: Action) {
    match a
    case Write(_) => s.tx.w.WOut?
    case StepW => !s.tx.w.WOut?
    case Read => s.rx.r.ROut?
    case StepR => !s.rx.r.ROut?
    case Irq => s.i.IOut?
    case StepI(_, _, _) => !s.i.IOut? && HandlerMayStep(cfg, s)
    case Fire => s.tx.armed && s.tx.t.TOut?
    case StepT => !s.tx.t.TOut?
    case StartPoll => s.poll.p.POut?
    case StepP => !s.poll.p.POut? && (s.poll.p.PSleep? ==> s.poll.woken)
    case Complete => s.tx.buffer.Busy? && !s.bus.busoff
    case TakeTimer => cfg.crowded && s.tx.armed
    case BusOff(_) => !s.bus.busoff
    case Recover => s.bus.busoff && !s.bus.resetreq
    case Warn(_) => true
    case Arrive(_) => !s.bus.resetreq
    case Drop => true
  }

  function Apply(cfg: Config, s: State, a: Action): (s': State)
    requires Sized(s)
    ensures Sized(s')
  {
    match a
    case Write(m) => s.(tx := s.tx.(w := WCheck(m)))
    case StepW => s.(tx := NextW(cfg, s.tx, s.bus.resetreq))
    case Read => s.(rx := s.rx.(r := RTest))
    case StepR => s.(rx := NextR(s.rx))
    case Irq => s.(i := IRead)
    case StepI(sec, usec, dos) => NextI(cfg, s, sec, usec, dos)
    case Fire => s.(tx := s.tx.(armed := false, t := TRun(Test)))
    case StepT =>
      s.(tx := NextT(cfg, s.tx, s.bus.resetreq),
         poll := if s.tx.t.TWake? then WakeIfHalfEmpty(s.tx.q, s.poll) else s.poll)
    case StartPoll => s.(poll := Poll(PRx, false))
    case StepP => s.(poll := NextP(s.poll, s.rx.q, s.tx.q))
    case Complete => s.(tx := s.tx.(buffer := Free, txint := true))
    case TakeTimer => s.(tx := s.tx.(armed := false))
    case BusOff(shown) =>
      s.(bus := s.bus.(busoff := true, resetreq := true, warn := true),
         tx := s.tx.(buffer := if s.tx.buffer.Busy? then Lost else s.tx.buffer),
         rx := Wiped(s.rx, s.i, shown))
    case Recover => s.(bus := s.bus.(busoff := false, warn := true))
    case Warn(err) => s.(bus := s.bus.(errstatus := err, warn := true))
    case Arrive(w) =>
      s.(rx := s.rx.(fifo := s.rx.fifo + [w], arrived := s.rx.arrived + [w], wiped := s.rx.wiped + [false]))
    case Drop => s.(bus := s.bus.(ovrint := true))
  }

  /** A device that has just been opened: nothing in flight, nobody inside the driver. */
  ghost predicate Opened(s: State) {
    && Valid(s.tx.q) && Valid(s.rx.q)
    && s.tx.idle && !s.tx.txinprogress && !s.tx.armed && s.tx.w == WOut && s.tx.t == TOut
    && s.tx.buffer == Free && !s.tx.txint && s.tx.accepted == s.tx.sent == []
    && !s.rx.overrun && s.rx.r == ROut && s.rx.fifo == s.rx.arrived == [] && s.rx.wiped == [] && s.rx.delivered == []
    && s.bus == Bus(false, false, false, false, false)
    && s.i == IOut && s.poll == Poll(POut, false)
  }

  /** Opened with equal counters, as after loading the driver or after a session that drained its queues. */
  ghost predicate Init(s: State) {
    Opened(s) && s.tx.q.produced == s.tx.q.consumed && s.rx.q.produced == s.rx.q.consumed
  }

  /** The actions can be taken one after the other from `s`, and lead to `s'`. */
  ghost predicate Runs(cfg: Config, s: State, acts: seq<Action>, s': State)
    requires Sized(s)
    decreases |acts|
  {
    if acts == [] then s' == s
    else Enabled(cfg, s, acts[0]) && Runs(cfg, Apply(cfg, s, acts[0]), acts[1..], s')
  }
}
