/**
 From the `write` of one computer to the `read` of another: what the reader sees are the messages the
 writer handed over, in order, and error messages of its own driver; and the monitor is silent about
 the generator's stream exactly if there are none of those and no visible loss.
 */
module EndToEnd {
  import opened Bits
  import opened CanTypes
  import opened Codec
  import opened Rings
  import opened Driver
  import opened Token
  import opened Order
  import opened Receive
  import opened Theorems
  import opened Hazards
  import opened Configured
  import opened Traffic
  import opened Monitor

  /**
   The two controllers and the bus between them: the k-th window that the receiving controller filled
   carries the frame in the registers that the sender had filled for its request number `ns[k]`.
   */
  ghost predicate Transmitted(sent: seq<Msg>, rx: Rx, ns: seq<nat>) {
    && |ns| == |rx.arrived| == |rx.wiped| && InSequence(ns)
    && forall k | 0 <= k < |ns| :: Carried(sent, rx.arrived[k], ns[k])
  }

  /** Both windows carry one frame: `w` received, and `u` as `sendcanmsg` stores it for message `n`. */
  ghost predicate Carried(sent: seq<Msg>, w: Image, n: nat) {
    && n < |sent| && sent[n].length >= 0
    && exists u: Image, f: Frame :: Written(u, Capped(sent[n])) && Carries(u, f) && Carries(w, f)
  }

  /** That frame is the one that the message asks for. */
  lemma CarriedIsWire(sent: seq<Msg>, w: Image, n: nat)
    requires Carried(sent, w, n)
    ensures Carries(w, Wire(sent[n]))
  {
    var m := Capped(sent[n]);
    var u: Image, f: Frame :| Written(u, m) && Carries(u, f) && Carries(w, f);
    WrittenCarries(u, m);
    CarriesAtMostOne(u, f, Wire(m));
    WireOfNorm(m, sent[n]);
  }

  /** The numbers of the frames that no reset took from the FIFO. */
  function Survived(rx: Rx, ns: seq<nat>): seq<nat>
    requires |ns| == |rx.wiped|
  {
    Kept(ns, rx.wiped)
  }

  lemma {:induction false} SurvivedAreCarried(sent: seq<Msg>, arrived: seq<Image>, ns: seq<nat>, marks: seq<bool>)
    requires |ns| == |arrived| == |marks| && forall k | 0 <= k < |ns| :: Carried(sent, arrived[k], ns[k])
    ensures |Kept(ns, marks)| == |Kept(arrived, marks)|
    ensures forall k | 0 <= k < |Kept(ns, marks)| :: Carried(sent, Kept(arrived, marks)[k], Kept(ns, marks)[k])
    decreases |ns|
  {
    hide Carried;
    if ns != [] {
      var n := |ns| - 1;
      SurvivedAreCarried(sent, arrived[..n], ns[..n], marks[..n]);
    }
  }

  lemma {:induction false} SurvivedInSequence(ns: seq<nat>, marks: seq<bool>)
    requires |ns| == |marks| && InSequence(ns)
    ensures InSequence(Kept(ns, marks))
    ensures var kept := Kept(ns, marks); kept != [] ==> kept[|kept| - 1] <= ns[|ns| - 1]
    decreases |ns|
  {
    if ns != [] {
      var n := |ns| - 1;
      var before := Kept(ns[..n], marks[..n]);
      SurvivedInSequence(ns[..n], marks[..n]);
      hide Kept;
      if before != [] { assert before[|before| - 1] <= ns[n - 1] < ns[n]; }
      OneMoreInSequence(before, ns[n]);
      LastKept(ns, marks);
    }
  }

  lemma LastKept(ns: seq<nat>, marks: seq<bool>)
    requires |ns| == |marks| && ns != []
    ensures var n := |ns| - 1;
            Kept(ns, marks) == if marks[n] then Kept(ns[..n], marks[..n]) else Kept(ns[..n], marks[..n]) + [ns[n]]
  {
  }

  lemma OneMoreInSequence(ns: seq<nat>, n: nat)
    requires InSequence(ns) && (ns != [] ==> ns[|ns| - 1] < n)
    ensures InSequence(ns + [n])
  {
    var s := ns + [n];
    forall k | 0 < k < |s| ensures s[k - 1] < s[k] {
      if k < |ns| { assert s[k - 1] == ns[k - 1] && s[k] == ns[k]; }
    }
  }

  predicate NothingLost(ns: seq<nat>) {
    forall k :: 0 <= k < |ns| ==> ns[k] == k
  }

  /** The messages among those read that are not error messages. */
  function FrameMessages(ms: seq<Msg>): seq<Msg> {
    if ms == [] then []
    else FrameMessages(ms[..|ms| - 1]) + (if ms[|ms| - 1].id == ERROR_ID then [] else [ms[|ms| - 1]])
  }

  lemma {:induction false} FrameMessagesShow(ms: seq<Msg>)
    ensures |FrameMessages(ms)| == |Frames(Sight(), ms)|
    ensures forall k :: 0 <= k < |FrameMessages(ms)| ==> Seen(FrameMessages(ms)[k]) == Frames(Sight(), ms)[k]
    decreases |ms|
  {
    if ms != [] { FrameMessagesShow(ms[..|ms| - 1]); }
  }

  lemma SentIsAccepted(baud: int, s: State)
    requires baud > 0 && Reachable(AtRate(baud), s)
    ensures |s.tx.sent| <= |s.tx.accepted|
    ensures forall n :: 0 <= n < |s.tx.sent| ==> Norm(s.tx.sent[n]) == Norm(s.tx.accepted[n])
  {
    DriverIsSafe(baud, s);
    PrefixOfAccepted(s.tx.sent, Pending(s.tx.q, Windows(s.tx, s.i)), s.tx.accepted);
  }

  lemma PrefixOfAccepted(sent: seq<Msg>, pending: seq<Msg>, accepted: seq<Msg>)
    requires NormAll(sent) + NormAll(pending) == NormAll(accepted)
    ensures |sent| <= |accepted|
    ensures forall n :: 0 <= n < |sent| ==> Norm(sent[n]) == Norm(accepted[n])
  {
    forall n | 0 <= n < |sent| ensures Norm(sent[n]) == Norm(accepted[n]) {
      assert NormAll(sent)[n] == (NormAll(sent) + NormAll(pending))[n] == NormAll(accepted)[n];
    }
  }

  /** The delay and an over-long length are not on the wire. */
  lemma WireOfNorm(a: Msg, b: Msg)
    requires Norm(a) == Norm(b) && a.length >= 0
    ensures b.length >= 0 && Wire(a) == Wire(b)
  {
  }

  lemma DeliveredIsPrefix(delivered: seq<Frame>, a: seq<Frame>, b: seq<Frame>, c: seq<Frame>, arrived: seq<Frame>)
    requires delivered + a + b + c == arrived
    ensures delivered <= arrived
  {
    assert delivered + a + b + c == delivered + (a + b + c);
  }

  lemma DeliveredWasDecoded(baud: int, s: State)
    requires baud > 0 && Reachable(AtRate(baud), s)
    ensures |s.rx.wiped| == |s.rx.arrived|
    ensures Frames(Sight(), s.rx.delivered) <= DecodeAll(Sight(), Kept(s.rx.arrived, s.rx.wiped))
  {
    DriverIsSafe(baud, s);
    DeliveredIsPrefix(Frames(Sight(), s.rx.delivered), Frames(Sight(), Contents(s.rx.q)),
                      Transit(Sight(), s.rx, s.i), DecodeAll(Sight(), s.rx.fifo),
                      DecodeAll(Sight(), Kept(s.rx.arrived, s.rx.wiped)));
  }

  lemma DecodedIsWire(sent: seq<Msg>, accepted: seq<Msg>, w: Image, n: nat)
    requires Carried(sent, w, n) && n < |accepted| && Norm(sent[n]) == Norm(accepted[n])
    ensures accepted[n].length >= 0 && Decode(w) == Wire(accepted[n])
  {
    CarriedIsWire(sent, w, n);
    BitOfZero(0);
    BitOfZero(2);
    ReceivedSeesFrame(w, Wire(sent[n]), BLANK, 0, 0, 0);
    WireOfNorm(sent[n], accepted[n]);
  }

  /**
   Any driver state on the sending side, any on the receiving side, at any two bit rates: the k-th frame
   message that was read shows the message that `write` accepted as the k-th of the numbers that survived.
   */
  lemma ReadShowsWritten(from: int, a: State, to: int, b: State, ns: seq<nat>)
    requires from > 0 && Reachable(AtRate(from), a)
    requires to > 0 && Reachable(AtRate(to), b)
    requires Transmitted(a.tx.sent, b.rx, ns)
    ensures var got, seen := FrameMessages(b.rx.delivered), Survived(b.rx, ns);
            && |got| <= |seen| && InSequence(seen)
            && forall k :: 0 <= k < |got| ==>
                 && seen[k] < |a.tx.accepted| && a.tx.accepted[seen[k]].length >= 0
                 && Seen(got[k]) == Wire(a.tx.accepted[seen[k]])
  {
    SentIsAccepted(from, a);
    DeliveredWasDecoded(to, b);
    FrameMessagesShow(b.rx.delivered);
    SurvivedAreCarried(a.tx.sent, b.rx.arrived, ns, b.rx.wiped);
    SurvivedInSequence(ns, b.rx.wiped);
    var got, seen, kept := FrameMessages(b.rx.delivered), Survived(b.rx, ns), Kept(b.rx.arrived, b.rx.wiped);
    var frames, decoded := Frames(Sight(), b.rx.delivered), DecodeAll(Sight(), kept);
    forall k | 0 <= k < |got|
      ensures seen[k] < |a.tx.accepted| && a.tx.accepted[seen[k]].length >= 0 && Seen(got[k]) == Wire(a.tx.accepted[seen[k]])
    {
      assert Carried(a.tx.sent, kept[k], seen[k]);
      DecodedIsWire(a.tx.sent, a.tx.accepted, kept[k], seen[k]);
      assert frames[k] == decoded[k];
    }
  }

  /** Once the receiving side is empty, every frame that no reset took has been read. */
  lemma DrainedHasReadAll(to: int, b: State)
    requires to > 0 && Reachable(AtRate(to), b)
    requires Len(b.rx.q) == 0 && b.rx.fifo == [] && b.i.IOut?
    ensures |b.rx.wiped| == |b.rx.arrived|
    ensures |FrameMessages(b.rx.delivered)| == |Kept(b.rx.arrived, b.rx.wiped)|
  {
    DriverIsSafe(to, b);
    FrameMessagesShow(b.rx.delivered);
    assert Contents(b.rx.q) == [];
  }

  /** Once the sending side is empty, every accepted message has been handed to the controller. */
  lemma DrainedHasSentAll(from: int, a: State)
    requires from > 0 && Reachable(AtRate(from), a)
    requires Len(a.tx.q) == 0
    ensures |a.tx.sent| == |a.tx.accepted|
  {
    DriverIsSafe(from, a);
    assert Contents(a.tx.q) == [];
    assert |NormAll(a.tx.sent) + NormAll(Pending(a.tx.q, Windows(a.tx, a.i)))| == |NormAll(a.tx.accepted)|;
  }

  lemma ReadShowsStream(ext: bool, from: int, a: State, to: int, b: State, ns: seq<nat>)
    requires from > 0 && Reachable(AtRate(from), a)
    requires to > 0 && Reachable(AtRate(to), b)
    requires Transmitted(a.tx.sent, b.rx, ns) && IsIdeal(ext, a.tx.accepted)
    ensures var got, seen := FrameMessages(b.rx.delivered), Survived(b.rx, ns);
            |got| <= |seen| && ShowsAll(ext, got, seen[..|got|])
  {
    ReadShowsWritten(from, a, to, b, ns);
    var got, seen := FrameMessages(b.rx.delivered), Survived(b.rx, ns);
    forall k | 0 <= k < |got| ensures Shows(ext, got[k], seen[..|got|][k]) {
      assert a.tx.accepted[seen[k]] == Ideal(ext, seen[k]);
    }
  }

  // ---------------------------------------------------------------- everything that is read

  predicate HasError(ms: seq<Msg>) {
    exists k :: 0 <= k < |ms| && ms[k].id == ERROR_ID
  }

  /** What every message read stands for: the frame messages take the numbers in order. */
  function Items(ms: seq<Msg>, seen: seq<nat>): (xs: seq<Item>)
    requires |FrameMessages(ms)| <= |seen|
    ensures |xs| == |ms|
  {
    if ms == [] then []
    else
      var before, m := ms[..|ms| - 1], ms[|ms| - 1];
      Items(before, seen) + [if m.id == ERROR_ID then Error else Number(seen[|FrameMessages(before)|])]
  }

  lemma {:induction false} ItemsAreShown(ext: bool, ms: seq<Msg>, seen: seq<nat>)
    requires var got := FrameMessages(ms); |got| <= |seen| && ShowsAll(ext, got, seen[..|got|])
    ensures ShowsItems(ext, ms, Items(ms, seen))
    decreases |ms|
  {
    hide Shows;
    if ms != [] {
      var n, got := |ms| - 1, FrameMessages(ms);
      var before := FrameMessages(ms[..n]);
      assert before == got[..|before|];
      ItemsAreShown(ext, ms[..n], seen);
      if ms[n].id != ERROR_ID { assert Shows(ext, got[|before|], seen[..|got|][|before|]); }
    }
  }

  lemma {:induction false} ItemsWithoutErrors(ms: seq<Msg>, seen: seq<nat>)
    requires |FrameMessages(ms)| <= |seen|
    ensures forall k :: 0 <= k < |ms| ==> (Items(ms, seen)[k].Error? <==> ms[k].id == ERROR_ID)
    ensures !HasError(ms) ==>
              |FrameMessages(ms)| == |ms| && forall k :: 0 <= k < |ms| ==> Items(ms, seen)[k] == Number(seen[k])
    decreases |ms|
  {
    if ms != [] {
      ItemsWithoutErrors(ms[..|ms| - 1], seen);
      if HasError(ms[..|ms| - 1]) { assert HasError(ms); }
    }
  }

  /**
   The whole path, on everything that `read` returned.  The monitor is silent exactly if no error message
   was read and what was lost cannot be seen; and `errs` counts the error messages and the identifiers
   that were not awaited.
   */
  lemma MonitorIsSilentExactly(ext: bool, from: int, a: State, to: int, b: State, ns: seq<nat>)
    requires from > 0 && Reachable(AtRate(from), a)
    requires to > 0 && Reachable(AtRate(to), b)
    requires Transmitted(a.tx.sent, b.rx, ns) && IsIdeal(ext, a.tx.accepted)
    ensures var got, seen := b.rx.delivered, Survived(b.rx, ns);
            var end := VerifiedAll(ext, START, got);
            && |FrameMessages(got)| <= |seen|
            && (Silent(end) <==> !HasError(got) && forall k :: 0 <= k < |FrameMessages(got)| ==> Passes(ext, seen[k], k))
            && (Silent(end) ==> end == Expecting(ext, |got|))
            && end.errs == Complaints(ext, Items(got, seen))
  {
    hide VerifiedAll, Shows, Passes, Complaints;
    ReadShowsStream(ext, from, a, to, b, ns);
    var got, seen := b.rx.delivered, Survived(b.rx, ns);
    var xs := Items(got, seen);
    ItemsAreShown(ext, got, seen);
    ItemsWithoutErrors(got, seen);
    SilentExactly(ext, got, xs);
    ErrsCountComplaints(ext, got, xs);
    if k :| 0 <= k < |got| && got[k].id == ERROR_ID { assert xs[k].Error?; }
  }

  /** In particular nothing is reported while nothing is lost and no error message is read. */
  lemma MonitorAcceptsGenerator(ext: bool, from: int, a: State, to: int, b: State, ns: seq<nat>)
    requires from > 0 && Reachable(AtRate(from), a)
    requires to > 0 && Reachable(AtRate(to), b)
    requires Transmitted(a.tx.sent, b.rx, ns) && IsIdeal(ext, a.tx.accepted)
    requires NothingLost(Survived(b.rx, ns)) && !HasError(b.rx.delivered)
    ensures VerifiedAll(ext, START, b.rx.delivered) == Expecting(ext, |b.rx.delivered|)
  {
    MonitorIsSilentExactly(ext, from, a, to, b, ns);
  }

  // ---------------------------------------------------------------- an error message is reported

  /** The bus goes bad while the receiving computer waits, and the handler queues an error message. */
  lemma QueueError(cfg: Config, size: nat, rxSize: nat) returns (s: State)
    requires IsRingSize(size) && IsRingSize(rxSize)
    ensures Reachable(cfg, s) && Sized(s) && OfSize(s, size, rxSize)
    ensures s.rx.r == ROut && s.rx.arrived == [] && s.rx.wiped == [] && s.rx.delivered == []
    ensures Valid(s.rx.q) && Len(s.rx.q) == 1 && Head(s.rx.q).id == ERROR_ID && Head(s.rx.q).length == 0
  {
    hide Reachable;
    var o := OpenSession(cfg, size, rxSize);
    var a := Go(cfg, o, Warn(true));
    var b := Go(cfg, a, Irq);
    var c := ReadWarning(cfg, b);
    s := ReportToEmpty(cfg, c);
  }

  lemma ReportToEmpty(cfg: Config, s: State) returns (s': State)
    requires Reachable(cfg, s) && Sized(s) && s.i.IStatus? && !s.bus.busoff && s.bus.errstatus
    requires Valid(s.rx.q) && Len(s.rx.q) == 0
    ensures Reachable(cfg, s') && Sized(s') && SameSize(s, s')
    ensures s'.rx == s.rx.(q := s'.rx.q) && Valid(s'.rx.q) && Len(s'.rx.q) == 1
    ensures Head(s'.rx.q).id == ERROR_ID && Head(s'.rx.q).length == 0
  {
    hide Reachable, Rings.Contents, Index;
    CountersAreExact(s.rx.q);
    RingSizeBounds(|s.rx.q.slots|);
    var a := GoHandler(cfg, s);
    var b := GoHandler(cfg, a);
    s' := FillAndPublishError(cfg, b);
  }

  lemma FillAndPublishError(cfg: Config, s: State) returns (s': State)
    requires Reachable(cfg, s) && Sized(s) && s.i.IErr? && s.i.x.Fill? && Valid(s.rx.q) && Len(s.rx.q) == 0
    ensures Reachable(cfg, s') && Sized(s') && SameSize(s, s')
    ensures s'.rx == s.rx.(q := s'.rx.q) && Valid(s'.rx.q) && Len(s'.rx.q) == 1
    ensures Head(s'.rx.q).id == ERROR_ID && Head(s'.rx.q).length == 0
  {
    hide Reachable, Rings.Contents;
    RingSizeBounds(|s.rx.q.slots|);
    var a := GoHandler(cfg, s);
    s' := GoHandler(cfg, a);
  }

  lemma ReadOne(cfg: Config, s: State) returns (s': State)
    requires Reachable(cfg, s) && Sized(s) && s.rx.r == ROut && Valid(s.rx.q) && Len(s.rx.q) == 1
    ensures Reachable(cfg, s') && Sized(s') && SameSize(s, s')
    ensures s'.rx.arrived == s.rx.arrived && s'.rx.wiped == s.rx.wiped
    ensures s'.rx.delivered == s.rx.delivered + [Head(s.rx.q)]
  {
    hide Reachable, Rings.Contents;
    CountersAreExact(s.rx.q);
    var a := Go(cfg, s, Read);
    var b := Go(cfg, a, StepR);
    var c := Go(cfg, b, StepR);
    s' := Go(cfg, c, StepR);
  }

  /**
   No frame lost, none even sent, and still a complaint: the monitor takes an error message for a message
   with a wrong identifier, and for the first of the round, so that the next message will be reported too.
   */
  lemma ErrorMessageIsReported(ext: bool, to: int, size: nat, rxSize: nat) returns (b: State)
    requires to > 0 && IsRingSize(size) && IsRingSize(rxSize)
    ensures Reachable(AtRate(to), b) && OfSize(b, size, rxSize)
    ensures b.rx.arrived == [] && Transmitted([], b.rx, []) && FrameMessages(b.rx.delivered) == []
    ensures VerifiedAll(ext, START, b.rx.delivered) == START.(iseq := 1, errs := 1)
  {
    var s := QueueError(AtRate(to), size, rxSize);
    b := ReadOne(AtRate(to), s);
    OnlyError(ext, Head(s.rx.q));
    assert b.rx.delivered == [Head(s.rx.q)];
  }

  lemma OnlyError(ext: bool, m: Msg)
    requires m.id == ERROR_ID && m.length == 0
    ensures VerifiedAll(ext, START, [m]) == START.(iseq := 1, errs := 1)
    ensures FrameMessages([m]) == []
  {
    assert [m][..0] == [];
  }
}
