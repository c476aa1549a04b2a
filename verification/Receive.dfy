/**
 No frame that the controller accepted is lost, duplicated or reordered on its way to `read`:
 a frame is released to the controller only when it has a slot, and is published from there.
 */
module Receive {
  import opened Options
  import opened CanTypes
  import opened Codec
  import opened Bits
  import opened Rings
  import opened Driver

  /** How frames are recognised in messages and in the frame window. */
  datatype Reading = Reading(see: Msg -> Option<Frame>, decode: Image -> Frame)

  /** `readcanmsg` shows the frame of the window in any slot; an error message shows none. */
  ghost predicate Reads(cfg: Config, rd: Reading) {
    && (forall w: Image, old_: Msg, flags: nat, sec: int, usec: int | PlainFlags(flags) ::
          rd.see(cfg.receive(w, old_, flags, sec, usec)) == Some(rd.decode(w)))
    && (forall m: Msg | m.id == ERROR_ID :: rd.see(m) == None)
  }

  /** The frames among received messages. */
  function Frames(rd: Reading, ms: seq<Msg>): seq<Frame> {
    if ms == [] then [] else Frames(rd, ms[..|ms| - 1]) + FramesOf(rd.see(ms[|ms| - 1]))
  }

  function FramesOf(f: Option<Frame>): seq<Frame> {
    if f.None? then [] else [f.value]
  }

  function DecodeAll(rd: Reading, ws: seq<Image>): (r: seq<Frame>)
    ensures |r| == |ws|
  {
    seq(|ws|, i requires 0 <= i < |ws| => rd.decode(ws[i]))
  }

  lemma DecodeAllConcat(rd: Reading, a: seq<Image>, b: seq<Image>)
    ensures DecodeAll(rd, a + b) == DecodeAll(rd, a) + DecodeAll(rd, b)
  {
  }

  lemma {:induction false} FramesConcat(rd: Reading, a: seq<Msg>, b: seq<Msg>)
    ensures Frames(rd, a + b) == Frames(rd, a) + Frames(rd, b)
    decreases |b|
  {
    if b == [] {
      assert a + b == a;
    } else {
      FramesConcat(rd, a, b[..|b| - 1]);
      assert (a + b)[..|a + b| - 1] == a + b[..|b| - 1];
    }
  }

  lemma FramesOne(rd: Reading, m: Msg)
    ensures Frames(rd, [m]) == FramesOf(rd.see(m))
  {
    assert [m][..0] == [];
  }

  /** What is not marked. */
  function Kept<T>(s: seq<T>, marks: seq<bool>): (r: seq<T>)
    requires |marks| == |s|
    ensures |r| <= |s|
  {
    if s == [] then []
    else
      var n := |s| - 1;
      Kept(s[..n], marks[..n]) + (if marks[n] then [] else [s[n]])
  }

  lemma {:induction false} KeptConcat<T>(a: seq<T>, ma: seq<bool>, b: seq<T>, mb: seq<bool>)
    requires |ma| == |a| && |mb| == |b|
    ensures Kept(a + b, ma + mb) == Kept(a, ma) + Kept(b, mb)
    decreases |b|
  {
    if b == [] {
      assert a + b == a && ma + mb == ma;
    } else {
      var n := |b| - 1;
      KeptConcat(a, ma, b[..n], mb[..n]);
      assert (a + b)[..|a + b| - 1] == a + b[..n] && (ma + mb)[..|a + b| - 1] == ma + mb[..n];
    }
  }

  lemma {:induction false} KeptAlike<T>(s: seq<T>, marks: seq<bool>, mark: bool)
    requires |marks| == |s| && forall j :: 0 <= j < |s| ==> marks[j] == mark
    ensures Kept(s, marks) == if mark then [] else s
  {
    if s != [] { KeptAlike(s[..|s| - 1], marks[..|s| - 1], mark); }
  }

  /** The last `k` entries, unmarked and then marked. */
  lemma KeptTail<T>(s: seq<T>, marks: seq<bool>, k: nat)
    requires |marks| == |s| && k <= |s| && forall j :: |s| - k <= j < |s| ==> !marks[j]
    ensures Kept(s, marks) == Kept(s, MarkLast(marks, k)) + s[|s| - k..]
  {
    hide Kept;
    var n, marked := |s| - k, MarkLast(marks, k);
    assert s == s[..n] + s[n..] && marks == marks[..n] + marks[n..] && marked == marks[..n] + marked[n..];
    KeptConcat(s[..n], marks[..n], s[n..], marks[n..]);
    KeptConcat(s[..n], marks[..n], s[n..], marked[n..]);
    KeptAlike(s[n..], marks[n..], false);
    KeptAlike(s[n..], marked[n..], true);
    assert Kept(s[..n], marks[..n]) + [] == Kept(s[..n], marks[..n]);
  }

  lemma KeptMore<T>(s: seq<T>, marks: seq<bool>, x: T)
    requires |marks| == |s|
    ensures Kept(s + [x], marks + [false]) == Kept(s, marks) + [x]
  {
    assert (s + [x])[..|s|] == s && (marks + [false])[..|s|] == marks;
  }

  /** What the FIFO holds arrived last, and has not been wiped. */
  predicate LogTail(rx: Rx) {
    && |rx.wiped| == |rx.arrived| && |rx.fifo| <= |rx.arrived|
    && rx.arrived[|rx.arrived| - |rx.fifo|..] == rx.fifo
    && forall j :: |rx.arrived| - |rx.fifo| <= j < |rx.arrived| ==> !rx.wiped[j]
  }

  /** A copied frame that is no more in the controller and not yet in the queue. */
  function Transit(rd: Reading, rx: Rx, i: Isr): seq<Frame>
    requires IsRingSize(|rx.q.slots|)
  {
    if i.IRx? && (i.x.Publish? || (i.x.Release? && rx.fifo == [])) then FramesOf(rd.see(Filled(rx.q))) else []
  }

  predicate Producing(i: Isr) {
    (i.IRx? || i.IErr? || i.IOvr?) && (i.x.Fill? || i.x.Release? || i.x.Publish?)
  }

  ghost predicate Accounted(rd: Reading, rx: Rx, i: Isr)
    requires Valid(rx.q)
  {
    && LogTail(rx)
    && Frames(rd, rx.delivered) + Frames(rd, Contents(rx.q)) + Transit(rd, rx, i) + DecodeAll(rd, rx.fifo)
       == DecodeAll(rd, Kept(rx.arrived, rx.wiped))
  }

  /** The queue and its two users, whatever is in the slots. */
  ghost predicate RxShape(rx: Rx, i: Isr) {
    && Valid(rx.q)
    && (Producing(i) ==> Len(rx.q) < |rx.q.slots|)
    && (i.IErr? || i.IOvr? ==> !i.x.Release?)
    && (rx.r.RCopy? || rx.r.RAdvance? ==> Len(rx.q) > 0)
    && (rx.r.RAdvance? ==> rx.r.m == Head(rx.q))
  }

  /** `reset`: in reset mode no frame arrives, so none can take the place of one that was copied. */
  ghost predicate RxInv(rd: Reading, rx: Rx, i: Isr, reset: bool) {
    && RxShape(rx, i)
    && Accounted(rd, rx, i)
    && (i.IRx? ==> PlainFlags(i.src.flags))
    && (i.IRx? && i.x.Release? ==>
          if rx.fifo == [] then reset else rd.see(Filled(rx.q)) == Some(rd.decode(rx.fifo[0])))
    && ((i.IErr? || i.IOvr?) && i.x.Publish? ==> rd.see(Filled(rx.q)) == None)
  }

  /** A message read leaves the queue and joins those delivered. */
  lemma ReadMoves(rd: Reading, delivered: seq<Msg>, q: Ring)
    requires Valid(q) && Len(q) > 0
    ensures Valid(Rings.Advance(q))
    ensures Frames(rd, delivered + [Head(q)]) + Frames(rd, Contents(Rings.Advance(q)))
         == Frames(rd, delivered) + Frames(rd, Contents(q))
  {
    hide Frames;
    CountersAreExact(q);
    HeadIsOldest(q);
    AdvanceDropsOldest(q);
    var c, m := Contents(q), [Head(q)];
    assert c == m + c[1..];
    FramesConcat(rd, m, c[1..]);
    FramesConcat(rd, delivered, m);
  }

  lemma ReaderKeepsAccounted(rd: Reading, rx: Rx, i: Isr, reset: bool)
    requires RxInv(rd, rx, i, reset) && rx.r.RAdvance?
    ensures Valid(NextR(rx).q) && Accounted(rd, NextR(rx), i)
  {
    hide Kept, Frames, Rings.Contents;
    ReadMoves(rd, rx.delivered, rx.q);
    AdvanceKeepsFilled(rx.q);
    assert Transit(rd, NextR(rx), i) == Transit(rd, rx, i);
  }

  lemma AdvanceKeepsFilled(q: Ring)
    requires IsRingSize(|q.slots|)
    ensures Filled(Rings.Advance(q)) == Filled(q)
  {
  }

  lemma ReaderLooksKeepsRx(rd: Reading, rx: Rx, i: Isr, reset: bool)
    requires RxInv(rd, rx, i, reset) && !rx.r.RAdvance?
    ensures RxInv(rd, NextR(rx), i, reset)
  {
    hide Kept;
    CountersAreExact(rx.q);
  }

  lemma ReaderKeepsRx(rd: Reading, rx: Rx, i: Isr, reset: bool)
    requires RxInv(rd, rx, i, reset)
    ensures RxInv(rd, NextR(rx), i, reset)
  {
    if rx.r.RAdvance? {
      ReaderKeepsAccounted(rd, rx, i, reset);
      assert Filled(NextR(rx).q) == Filled(rx.q);
    } else {
      ReaderLooksKeepsRx(rd, rx, i, reset);
    }
  }

  /** Filling a free slot: the queue and the reader see nothing of it. */
  lemma FillKeepsRest(rx: Rx, m: Msg)
    requires Valid(rx.q) && Len(rx.q) < |rx.q.slots|
    requires rx.r.RAdvance? ==> Len(rx.q) > 0 && rx.r.m == Head(rx.q)
    ensures var q' := Rings.Fill(rx.q, m);
            && Valid(q') && Contents(q') == Contents(rx.q) && Filled(q') == m
            && (rx.r.RAdvance? ==> rx.r.m == Head(q'))
  {
    CountersAreExact(rx.q);
    FillKeepsContents(rx.q, m);
    if rx.r.RAdvance? {
      HeadIsOldest(rx.q);
      CountersAreExact(Rings.Fill(rx.q, m));
      HeadIsOldest(Rings.Fill(rx.q, m));
    }
  }

  /** A frame in transit joins the queue. */
  lemma PublishMoves(rd: Reading, before: seq<Frame>, q: Ring)
    requires Valid(q) && Len(q) < |q.slots|
    ensures Valid(Rings.Publish(q))
    ensures before + Frames(rd, Contents(Rings.Publish(q))) + []
         == before + Frames(rd, Contents(q)) + FramesOf(rd.see(Filled(q)))
  {
    hide Frames;
    CountersAreExact(q);
    PublishAppends(q);
    FramesConcat(rd, Contents(q), [Filled(q)]);
    FramesOne(rd, Filled(q));
  }

  lemma PublishKeepsAccounted(rd: Reading, rx: Rx, i: Isr, i': Isr, reset: bool)
    requires RxInv(rd, rx, i, reset) && Producing(i) && i.x.Publish? && !Producing(i')
    ensures var rx' := rx.(q := Rings.Publish(rx.q)); Valid(rx'.q) && Accounted(rd, rx', i')
  {
    hide Kept, Frames, Rings.Contents;
    PublishMoves(rd, Frames(rd, rx.delivered), rx.q);
    assert Transit(rd, rx, i) == FramesOf(rd.see(Filled(rx.q)));
    assert Transit(rd, rx.(q := Rings.Publish(rx.q)), i') == [];
  }

  lemma PublishKeepsRx(rd: Reading, rx: Rx, i: Isr, i': Isr, reset: bool)
    requires RxInv(rd, rx, i, reset) && Producing(i) && i.x.Publish?
    requires !Producing(i') && (i'.IRx? ==> i'.x.Wake? && PlainFlags(i'.src.flags))
    ensures RxInv(rd, rx.(q := Rings.Publish(rx.q)), i', reset)
  {
    PublishKeepsAccounted(rd, rx, i, i', reset);
    CountersAreExact(rx.q);
  }

  lemma FrameFillKeepsRx(cfg: Config, rd: Reading, rx: Rx, src: Source, reset: bool, sec: int, usec: int)
    requires Reads(cfg, rd) && RxInv(rd, rx, IRx(src, Fill), reset) && rx.fifo != []
    ensures RxInv(rd, FillFrame(cfg, rx, src.flags, sec, usec), IRx(src, Release), reset)
  {
    FillKeepsRest(rx, cfg.receive(rx.fifo[0], Filled(rx.q), src.flags, sec, usec));
  }

  /** The copied frame leaves the FIFO. */
  lemma ReleaseMoves(rd: Reading, rx: Rx, src: Source)
    requires IsRingSize(|rx.q.slots|) && rx.fifo != [] && rd.see(Filled(rx.q)) == Some(rd.decode(rx.fifo[0]))
    ensures Transit(rd, rx, IRx(src, Release)) + DecodeAll(rd, rx.fifo)
         == Transit(rd, ReleaseFrame(rx), IRx(src, Publish)) + DecodeAll(rd, ReleaseFrame(rx).fifo)
  {
    assert rx.fifo == [rx.fifo[0]] + rx.fifo[1..];
    DecodeAllConcat(rd, [rx.fifo[0]], rx.fifo[1..]);
    assert DecodeAll(rd, [rx.fifo[0]]) == [rd.decode(rx.fifo[0])];
  }

  lemma Reassociate<T>(before: seq<T>, a: seq<T>, b: seq<T>, c: seq<T>, d: seq<T>)
    requires a + b == c + d
    ensures before + a + b == before + c + d
  {
    assert before + a + b == before + (a + b);
    assert before + c + d == before + (c + d);
  }

  lemma ReleaseKeepsRx(rd: Reading, rx: Rx, src: Source, reset: bool)
    requires RxInv(rd, rx, IRx(src, Release), reset)
    ensures RxInv(rd, ReleaseFrame(rx), IRx(src, Publish), reset)
  {
    hide Kept, Frames, Rings.Contents, Transit, Index;
    var rx', i, i' := ReleaseFrame(rx), IRx(src, Release), IRx(src, Publish);
    if rx.fifo != [] {
      ReleaseMoves(rd, rx, src);
      Reassociate(Frames(rd, rx.delivered) + Frames(rd, Contents(rx.q)),
                  Transit(rd, rx, i), DecodeAll(rd, rx.fifo), Transit(rd, rx', i'), DecodeAll(rd, rx'.fifo));
    } else {
      assert Transit(rd, rx, i) == Transit(rd, rx', i') by { SameTransit(rd, rx, src); }
    }
  }

  lemma SameTransit(rd: Reading, rx: Rx, src: Source)
    requires IsRingSize(|rx.q.slots|) && rx.fifo == []
    ensures Transit(rd, ReleaseFrame(rx), IRx(src, Publish)) == Transit(rd, rx, IRx(src, Release))
  {
  }

  lemma ErrorFillKeepsRx(cfg: Config, rd: Reading, rx: Rx, i: Isr, i': Isr, reset: bool, flags: nat, sec: int, usec: int)
    requires Reads(cfg, rd) && RxInv(rd, rx, i, reset) && (i.IErr? || i.IOvr?) && i.x.Fill?
    requires (i'.IErr? || i'.IOvr?) && i'.x.Publish?
    ensures RxInv(rd, FillError(rx, flags, sec, usec), i', reset)
  {
    hide Kept, Frames, Rings.Contents, Index;
    FillKeepsRest(rx, ErrorMsg(Filled(rx.q), flags, sec, usec));
  }

  /** The handler moving on without touching queue or controller. */
  lemma MoveKeepsRx(rd: Reading, rx: Rx, rx': Rx, i: Isr, i': Isr, reset: bool, reset': bool)
    requires RxInv(rd, rx, i, reset) && rx'.(overrun := rx.overrun) == rx
    requires !Producing(i)
    requires Producing(i') ==> Len(rx.q) < |rx.q.slots| && i'.x.Fill?
    requires i'.IRx? ==> PlainFlags(i'.src.flags)
    requires i'.IErr? || i'.IOvr? ==> !i'.x.Release?
    ensures RxInv(rd, rx', i', reset')
  {
  }

  lemma ReadFlagsArePlain(overrun: bool)
    ensures PlainFlags(if overrun then MSG_BOVR else 0)
  {
    BitOfZero(0);
    BitOfZero(2);
  }

  lemma CheckKeepsRx(cfg: Config, rd: Reading, s: State, sec: int, usec: int, dos: bool)
    requires Sized(s) && RxInv(rd, s.rx, s.i, s.bus.resetreq) && (s.i.IRx? || s.i.IErr? || s.i.IOvr?)
    requires s.i.x.Check? || s.i.x.Wake?
    ensures var s' := NextI(cfg, s, sec, usec, dos); RxInv(rd, s'.rx, s'.i, s'.bus.resetreq)
  {
    hide RxInv, NextI, Produced, AfterProduce;
    CountersOfRx(rd, s);
    CheckMovesOn(cfg, s, sec, usec, dos);
    PlainFlagsOfRx(rd, s);
    var s' := NextI(cfg, s, sec, usec, dos);
    MoveKeepsRx(rd, s.rx, s'.rx, s.i, s'.i, s.bus.resetreq, s'.bus.resetreq);
  }

  lemma CountersOfRx(rd: Reading, s: State)
    requires RxInv(rd, s.rx, s.i, s.bus.resetreq)
    ensures Valid(s.rx.q) && (Full(s.rx.q) <==> Len(s.rx.q) == |s.rx.q.slots|) && Len(s.rx.q) <= |s.rx.q.slots|
  {
    hide Accounted;
    CountersAreExact(s.rx.q);
  }

  lemma PlainFlagsOfRx(rd: Reading, s: State)
    requires RxInv(rd, s.rx, s.i, s.bus.resetreq)
    ensures s.i.IRx? ==> PlainFlags(s.i.src.flags)
  {
    hide Accounted, RxShape;
  }

  /** The first and the last step of `rxproduce`. */
  lemma CheckMovesOn(cfg: Config, s: State, sec: int, usec: int, dos: bool)
    requires Sized(s) && (s.i.IRx? || s.i.IErr? || s.i.IOvr?) && (s.i.x.Check? || s.i.x.Wake?)
    ensures var s' := NextI(cfg, s, sec, usec, dos);
            && s'.rx.(overrun := s.rx.overrun) == s.rx
            && (Producing(s'.i) ==> s'.i.x.Fill? && !Full(s.rx.q))
            && (s'.i.IRx? ==> s.i.IRx? && s'.i.src == s.i.src)
            && (s'.i.IErr? || s'.i.IOvr? ==> !s'.i.x.Release?)
  {
    hide FillFrame, FillError, ReleaseFrame, Full, HalfEmpty;
  }

  lemma ProduceKeepsRx(cfg: Config, rd: Reading, s: State, sec: int, usec: int, dos: bool)
    requires Reads(cfg, rd) && Sized(s) && RxInv(rd, s.rx, s.i, s.bus.resetreq) && (s.i.IRx? || s.i.IErr? || s.i.IOvr?)
    requires !CopiesNothing(s)
    ensures var s' := NextI(cfg, s, sec, usec, dos); RxInv(rd, s'.rx, s'.i, s'.bus.resetreq)
  {
    hide Accounted;
    var s' := NextI(cfg, s, sec, usec, dos);
    match s.i.x
    case Check | Wake => CheckKeepsRx(cfg, rd, s, sec, usec, dos);
    case Publish => PublishKeepsRx(rd, s.rx, s.i, s'.i, s.bus.resetreq);
    case Release => ReleaseKeepsRx(rd, s.rx, s.i.src, s.bus.resetreq);
    case Fill =>
      match s.i
      case IRx(src, _) => FrameFillKeepsRx(cfg, rd, s.rx, src, s.bus.resetreq, sec, usec);
      case IErr(src, _) => ErrorFillKeepsRx(cfg, rd, s.rx, s.i, s'.i, s.bus.resetreq, src.flags, sec, usec);
      case IOvr(src, _) => ErrorFillKeepsRx(cfg, rd, s.rx, s.i, s'.i, s.bus.resetreq, src.flags + (if dos then MSG_OVR else 0), sec, usec);
  }

  /** Outside `rxproduce` the handler leaves the receive side alone. */
  lemma HandlerMovesOn(cfg: Config, s: State, sec: int, usec: int, dos: bool)
    requires Sized(s) && !s.i.IRx? && !s.i.IErr? && !s.i.IOvr?
    ensures var s' := NextI(cfg, s, sec, usec, dos);
            && s'.rx == s.rx && (s'.i.IRx? || s'.i.IErr? || s'.i.IOvr? ==> s'.i.x.Check?)
            && (s'.i.IRx? ==> PlainFlags(s'.i.src.flags))
  {
    hide Consume, Produced, TestsFree, HalfEmpty, PlainFlags;
    ReadFlagsArePlain(s.rx.overrun);
  }

  lemma HandlerKeepsRx(cfg: Config, rd: Reading, s: State, sec: int, usec: int, dos: bool)
    requires Reads(cfg, rd) && Sized(s) && RxInv(rd, s.rx, s.i, s.bus.resetreq) && !s.i.IOut? && !CopiesNothing(s)
    ensures var s' := NextI(cfg, s, sec, usec, dos); RxInv(rd, s'.rx, s'.i, s'.bus.resetreq)
  {
    hide RxInv, NextI;
    if s.i.IRx? || s.i.IErr? || s.i.IOvr? {
      ProduceKeepsRx(cfg, rd, s, sec, usec, dos);
    } else {
      var s' := NextI(cfg, s, sec, usec, dos);
      HandlerMovesOn(cfg, s, sec, usec, dos);
      MoveKeepsRx(rd, s.rx, s'.rx, s.i, s'.i, s.bus.resetreq, s'.bus.resetreq);
    }
  }

  /** The number of frames that the handler has copied and not released. */
  function InHand(rx: Rx, i: Isr): (n: nat)
    ensures n <= |rx.fifo|
  {
    if Copied(rx, i) then 1 else 0
  }

  lemma WipedIsAccounted(rx: Rx, i: Isr, shown: Image)
    requires LogTail(rx)
    ensures LogTail(Wiped(rx, i, shown))
    ensures Kept(rx.arrived, rx.wiped) == Kept(Wiped(rx, i, shown).arrived, Wiped(rx, i, shown).wiped) + rx.fifo[InHand(rx, i)..]
  {
    hide Kept;
    var k := |rx.fifo| - InHand(rx, i);
    KeptTail(rx.arrived, rx.wiped, k);
    assert rx.arrived[|rx.arrived| - k..] == rx.fifo[InHand(rx, i)..];
  }

  /** A copied frame is in transit once the FIFO is empty. */
  lemma WipedMovesInHand(rd: Reading, rx: Rx, i: Isr, shown: Image)
    requires IsRingSize(|rx.q.slots|) && (Copied(rx, i) ==> rd.see(Filled(rx.q)) == Some(rd.decode(rx.fifo[0])))
    ensures Transit(rd, Wiped(rx, i, shown), i) == Transit(rd, rx, i) + DecodeAll(rd, rx.fifo[..InHand(rx, i)])
  {
    if Copied(rx, i) {
      assert rx.fifo[..1] == [rx.fifo[0]];
    } else {
      assert DecodeAll(rd, rx.fifo[..0]) == [];
    }
  }

  lemma DecodeSplit(rd: Reading, ws: seq<Image>, n: nat)
    requires n <= |ws|
    ensures DecodeAll(rd, ws) == DecodeAll(rd, ws[..n]) + DecodeAll(rd, ws[n..])
  {
    assert ws == ws[..n] + ws[n..];
  }

  lemma WipedIs(rx: Rx, i: Isr, shown: Image)
    ensures Wiped(rx, i, shown) == rx.(fifo := [], shown := shown, wiped := Wiped(rx, i, shown).wiped)
  {
  }

  lemma WipedKeepsRx(rd: Reading, rx: Rx, i: Isr, reset: bool, shown: Image)
    requires RxInv(rd, rx, i, reset)
    ensures RxInv(rd, Wiped(rx, i, shown), i, true)
  {
    hide Kept, Wiped, InHand, Transit, Rings.Contents, Frames;
    var rx', n := Wiped(rx, i, shown), InHand(rx, i);
    WipedIsAccounted(rx, i, shown);
    WipedMovesInHand(rd, rx, i, shown);
    DecodeSplit(rd, rx.fifo, n);
    WipedIs(rx, i, shown);
    var kept', back := DecodeAll(rd, Kept(rx'.arrived, rx'.wiped)), DecodeAll(rd, rx.fifo[n..]);
    DecodeAllConcat(rd, Kept(rx'.arrived, rx'.wiped), rx.fifo[n..]);
    var before := Frames(rd, rx.delivered) + Frames(rd, Contents(rx.q));
    SameTail(before + Transit(rd, rx, i) + DecodeAll(rd, rx.fifo[..n]), kept', back);
    assert DecodeAll(rd, []) == [];
  }

  lemma SameTail<T>(a: seq<T>, b: seq<T>, tail: seq<T>)
    requires a + tail == b + tail
    ensures a == b
  {
    assert |a| == |b|;
    assert a == (a + tail)[..|a|] && b == (b + tail)[..|b|];
  }

  lemma ArriveKeepsRx(rd: Reading, rx: Rx, i: Isr, w: Image)
    requires RxInv(rd, rx, i, false)
    ensures RxInv(rd, rx.(fifo := rx.fifo + [w], arrived := rx.arrived + [w], wiped := rx.wiped + [false]), i, false)
  {
    hide Kept, Rings.Contents;
    KeptMore(rx.arrived, rx.wiped, w);
    DecodeAllConcat(rd, rx.fifo, [w]);
    DecodeAllConcat(rd, Kept(rx.arrived, rx.wiped), [w]);
    var rx' := rx.(fifo := rx.fifo + [w], arrived := rx.arrived + [w], wiped := rx.wiped + [false]);
    assert Transit(rd, rx', i) == Transit(rd, rx, i);
  }

  lemma StepKeepsRx(cfg: Config, rd: Reading, s: State, a: Action)
    requires !cfg.torn && Reads(cfg, rd) && Sized(s) && RxInv(rd, s.rx, s.i, s.bus.resetreq) && Enabled(cfg, s, a)
    ensures var s' := Apply(cfg, s, a); RxInv(rd, s'.rx, s'.i, s'.bus.resetreq)
  {
    hide RxInv, NextW, NextT, NextP, NextI, NextR, Wiped;
    if a.StepR? {
      ReaderKeepsRx(rd, s.rx, s.i, s.bus.resetreq);
    } else if a.StepI? {
      HandlerKeepsRx(cfg, rd, s, a.sec, a.usec, a.dos);
    } else if a.BusOff? {
      WipedKeepsRx(rd, s.rx, s.i, s.bus.resetreq, a.shown);
    } else if a.Arrive? {
      ArriveKeepsRx(rd, s.rx, s.i, a.w);
    } else {
      BeginKeepsRx(rd, s.rx, Apply(cfg, s, a).rx, s.i, Apply(cfg, s, a).i, s.bus.resetreq);
    }
  }

  /** A read or a handler that begins, and steps that leave both alone. */
  lemma BeginKeepsRx(rd: Reading, rx: Rx, rx': Rx, i: Isr, i': Isr, reset: bool)
    requires RxInv(rd, rx, i, reset)
    requires (rx' == rx && (i' == i || (i.IOut? && i'.IRead?))) || (rx.r.ROut? && rx' == rx.(r := RTest) && i' == i)
    ensures RxInv(rd, rx', i', reset)
  {
    hide Kept, Frames, Rings.Contents, Index;
    assert Transit(rd, rx', i') == Transit(rd, rx, i);
  }

  // ---------------------------------------------------------------- without a look at the frames

  lemma ReaderKeepsShape(rx: Rx, i: Isr)
    requires RxShape(rx, i)
    ensures RxShape(NextR(rx), i)
  {
    CountersAreExact(rx.q);
    if rx.r.RAdvance? { AdvanceDropsOldest(rx.q); }
  }

  lemma FillKeepsShape(rx: Rx, m: Msg, i: Isr, i': Isr)
    requires RxShape(rx, i) && Producing(i) && Producing(i') && (i'.IErr? || i'.IOvr? ==> !i'.x.Release?)
    ensures RxShape(rx.(q := Rings.Fill(rx.q, m)), i')
  {
    FillKeepsRest(rx, m);
  }

  lemma ProduceFillsShape(cfg: Config, s: State, sec: int, usec: int, dos: bool)
    requires Sized(s) && RxShape(s.rx, s.i) && (s.i.IRx? || s.i.IErr? || s.i.IOvr?) && s.i.x.Fill?
    ensures var s' := NextI(cfg, s, sec, usec, dos); RxShape(s'.rx, s'.i)
  {
    hide Rings.Fill, RxShape, ErrorMsg, Index;
    var i', q := NextI(cfg, s, sec, usec, dos).i, s.rx.q;
    if s.i.IRx? {
      var w := if s.rx.fifo == [] then s.rx.shown else s.rx.fifo[0];
      FillKeepsShape(s.rx, cfg.receive(w, Filled(q), s.i.src.flags, sec, usec), s.i, i');
    } else {
      var flags := if s.i.IErr? then s.i.src.flags else s.i.src.flags + (if dos then MSG_OVR else 0);
      FillKeepsShape(s.rx, ErrorMsg(Filled(q), flags, sec, usec), s.i, i');
    }
  }

  lemma PublishKeepsShape(rx: Rx, i: Isr, i': Isr)
    requires RxShape(rx, i) && Producing(i) && !Producing(i') && (i'.IErr? || i'.IOvr? ==> !i'.x.Release?)
    ensures RxShape(rx.(q := Rings.Publish(rx.q)), i')
  {
    CountersAreExact(rx.q);
    PublishAppends(rx.q);
  }

  /** The other steps leave the queue alone; the one that tests it does so exactly. */
  lemma MoveKeepsShape(rx: Rx, rx': Rx, i: Isr, i': Isr)
    requires RxShape(rx, i) && rx'.q == rx.q && rx'.r == rx.r && (i'.IErr? || i'.IOvr? ==> !i'.x.Release?)
    requires Producing(i') ==> Producing(i) || !Full(rx.q)
    ensures RxShape(rx', i')
  {
    CountersAreExact(rx.q);
  }

  lemma ProduceKeepsShape(cfg: Config, s: State, sec: int, usec: int, dos: bool)
    requires Sized(s) && RxShape(s.rx, s.i) && (s.i.IRx? || s.i.IErr? || s.i.IOvr?)
    ensures var s' := NextI(cfg, s, sec, usec, dos); RxShape(s'.rx, s'.i)
  {
    hide ErrorMsg, FillFrame, FillError, Valid, Head, Full;
    var s' := NextI(cfg, s, sec, usec, dos);
    if s.i.x.Fill? {
      ProduceFillsShape(cfg, s, sec, usec, dos);
    } else if s.i.x.Publish? {
      PublishKeepsShape(s.rx, s.i, s'.i);
    } else {
      MoveKeepsShape(s.rx, s'.rx, s.i, s'.i);
    }
  }

  lemma HandlerKeepsShape(cfg: Config, s: State, sec: int, usec: int, dos: bool)
    requires Sized(s) && RxShape(s.rx, s.i) && !s.i.IOut?
    ensures var s' := NextI(cfg, s, sec, usec, dos); RxShape(s'.rx, s'.i)
  {
    if s.i.IRx? || s.i.IErr? || s.i.IOvr? {
      ProduceKeepsShape(cfg, s, sec, usec, dos);
    }
  }

  /** This much of the receive side needs no assumption at all. */
  lemma StepKeepsShape(cfg: Config, s: State, a: Action)
    requires Sized(s) && RxShape(s.rx, s.i) && Enabled(cfg, s, a)
    ensures var s' := Apply(cfg, s, a); RxShape(s'.rx, s'.i)
  {
    hide NextW, NextT, NextP, NextI, NextR;
    if a.StepR? {
      ReaderKeepsShape(s.rx, s.i);
    } else if a.StepI? {
      HandlerKeepsShape(cfg, s, a.sec, a.usec, a.dos);
    }
  }
}
