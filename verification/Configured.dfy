/** The transition system with the driver's own codec, and its theorems restated for it. */
module Configured {
  import opened Options
  import opened Words
  import opened Bits
  import opened CanTypes
  import opened Codec
  import opened Rings
  import opened Driver
  import opened Receive
  import opened Theorems
  import opened Progress
  import opened Effort
  import opened Hazards

  /** The driver at `baud` kbit/s with its lock, and well-behaved surroundings. */
  function AtRate(baud: int): (cfg: Config)
    requires baud > 0
    ensures cfg.Sound()
  {
    Config((m: Msg) => Delay(m, baud),
           (w: Image, old_: Msg, flags: nat, sec: int, usec: int) => Received(w, old_, flags, sec, usec),
           true, false, false, false, false, false)
  }

  function Decode(w: Image): Frame {
    Seen(Received(w, BLANK, 0, 0, 0))
  }

  /** A message is read as the frame it shows, unless it has the identifier of an error message. */
  function Sight(): Reading {
    Reading((m: Msg) => if m.id == ERROR_ID then None else Some(Seen(m)), (w: Image) => Decode(w))
  }

  /** What a reader sees of a frame depends neither on the slot it was copied to nor on the preset flags. */
  lemma SeenIsDecoded(w: Image, old_: Msg, flags: nat, sec: int, usec: int)
    requires PlainFlags(flags)
    ensures Seen(Received(w, old_, flags, sec, usec)) == Decode(w)
    ensures Received(w, old_, flags, sec, usec).id != ERROR_ID
  {
    ReceivedIsNoError(w);
    BitOfZero(0);
    BitOfZero(2);
    ReceivedFlags(w, old_, flags, sec, usec);
    ReceivedFlags(w, BLANK, 0, 0, 0);
    ReceivedData(w, old_, flags, sec, usec);
    ReceivedData(w, BLANK, 0, 0, 0);
  }

  lemma ConfiguredReads(baud: int)
    requires baud > 0
    ensures Reads(AtRate(baud), Sight())
  {
    var cfg, rd := AtRate(baud), Sight();
    forall w: Image, old_: Msg, flags: nat, sec: int, usec: int | PlainFlags(flags)
      ensures rd.see(cfg.receive(w, old_, flags, sec, usec)) == Some(rd.decode(w))
    {
      SeenIsDecoded(w, old_, flags, sec, usec);
    }
  }

  lemma ConfiguredIsHonest(baud: int)
    requires baud > 0
    ensures Honest(AtRate(baud)) && AtRate(baud).delay(BLANK) <= 0
  {
    forall m: Msg | ToInt32(m.usec) == 0 ensures AtRate(baud).delay(m) <= 0 {}
    assert ToInt32(BLANK.usec) == 0;
  }

  /**
   The driver at any bit rate, after any run: the transmit side is safe, the receive side loses
   nothing, no wake-up is lost, and no message is delayed twice.
   */
  lemma DriverIsSafe(baud: int, s: State)
    requires baud > 0 && Reachable(AtRate(baud), s)
    ensures TransmitSafe(s)
    ensures ReceiveSafe(Sight(), s)
    ensures |s.tx.q.slots| >= 2 ==> NoLostWakeUp(s)
    ensures s.tx.armed ==> Head(s.tx.q).usec == 0
  {
    var cfg, rd := AtRate(baud), Sight();
    ConfiguredReads(baud);
    ConfiguredIsHonest(baud);
    TransmitIsSafe(cfg, s);
    ReceiveIsSafe(cfg, rd, s);
    if |s.tx.q.slots| >= 2 { PollIsSafe(cfg, s); }
    DelayedOnlyOnce(cfg, s);
  }

  /** The same driver in any surroundings. */
  function Anywhere(baud: int, locked: bool, early: bool, hasty: bool, stale: bool, crowded: bool, torn: bool): Config
    requires baud > 0
  {
    AtRate(baud).(locked := locked, early := early, hasty := hasty, stale := stale, crowded := crowded, torn := torn)
  }

  /** A message that waits at every bit rate. */
  const LATE: Msg := BLANK.(usec := 100_000)

  /**
   In every run with queues of given sizes, its transmit side is safe exactly in the surroundings
   described, and its receive side exactly without torn reads.
   */
  lemma DriverIsSafeExactlyWhenSound(
    baud: int, locked: bool, early: bool, hasty: bool, stale: bool, crowded: bool, torn: bool, size: nat, rxSize: nat)
    requires baud > 0 && IsRingSize(size) && IsRingSize(rxSize)
    ensures var cfg := Anywhere(baud, locked, early, hasty, stale, crowded, torn);
            && ((forall s: State | Reachable(cfg, s) && OfSize(s, size, rxSize) :: TransmitSafe(s))
                  <==> locked && !early && !hasty && !stale && !crowded)
            && ((forall s: State | Reachable(cfg, s) && OfSize(s, size, rxSize) :: ReceiveSafe(Sight(), s)) <==> !torn)
  {
    var cfg := Anywhere(baud, locked, early, hasty, stale, crowded, torn);
    assert cfg.delay(BLANK) == Delay(BLANK, baud) == 0;
    LateWaits(baud);
    ConfiguredReads(baud);
    assert Reads(cfg, Sight());
    SafeExactlyWhenSound(cfg, LATE, size, rxSize);
    ReceiveSafeExactlyIfNotTorn(cfg, Sight(), size, rxSize);
  }

  lemma LateWaits(baud: int)
    requires baud > 0
    ensures Capped(LATE) == LATE && AtRate(baud).delay(LATE) > 0
  {
    assert BitAnd(0, MSG_EXT) == 0;
    DelayUnwrapped(LATE, baud);
    DivShrinks(FrameBits(LATE) * 1000, baud);
  }

  /** And its consumers find a message at most twice for each one accepted. */
  lemma DriverFindsAreBounded(baud: int, s: State, acts: seq<Action>, s': State)
    requires baud > 0 && Init(s) && Runs(AtRate(baud), s, acts, s')
    ensures FindsIn(AtRate(baud), s, acts) <= 2 * |s'.tx.accepted|
  {
    ConfiguredIsHonest(baud);
    FindsAreBounded(AtRate(baud), s, acts, s');
  }
}
