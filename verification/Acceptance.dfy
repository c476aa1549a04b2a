/**
 The acceptance filter: how code and mask get into its registers through `ioctl`, and which frames the
 controller then accepts (Single Filter Configuration, section 6.4.15 of the SJA1000 data sheet).
 */
module Acceptance {
  import opened Words
  import opened Bits
  import opened CanTypes
  import opened Codec
  import opened Sja1000

  const CONF_ACC: int := 0
  const CONF_ACCM: int := 1
  const CONF_ACCC: int := 2
  const CONF_TIMING: int := 3
  const CONF_OMODE: int := 4
  const EINVAL: int := 22

  const MODE_DEF: nat := 8

  // ---------------------------------------------------------------- the settings as values

  /** What was last set for the board, and what the filter registers hold. */
  datatype Setup = Setup(code: nat, mask: nat, heldCode: nat, heldMask: nat, reset: bool)

  datatype Op = Conf(target: int, val1: nat, val2: nat) | Reset | Stop | Start

  function Stored(s: Setup): Setup {
    if s.reset then s.(heldCode := s.code, heldMask := s.mask) else s
  }

  function Step(s: Setup, op: Op): Setup {
    match op
    case Conf(target, val1, val2) =>
      if target == CONF_ACC then Stored(s.(mask := val1 % TWO32, code := val2 % TWO32))
      else if target == CONF_ACCM then Stored(s.(mask := val1 % TWO32))
      else if target == CONF_ACCC then Stored(s.(code := val1 % TWO32))
      else s
    case Reset => Stored(s.(reset := true))
    case Stop => s.(reset := true)
    case Start => s.(reset := false)
  }

  function Run(s: Setup, ops: seq<Op>): Setup {
    if ops == [] then s else Step(Run(s, ops[..|ops| - 1]), ops[|ops| - 1])
  }

  predicate InSync(s: Setup) {
    s.heldCode == s.code && s.heldMask == s.mask
  }

  predicate Sets(op: Op) {
    op.Conf? && op.target in {CONF_ACC, CONF_ACCM, CONF_ACCC}
  }

  /** Every setting is made while the chip is in reset. */
  predicate SetInReset(s: Setup, ops: seq<Op>) {
    forall k :: 0 <= k < |ops| && Sets(ops[k]) ==> Run(s, ops[..k]).reset
  }

  /** After any sequence of operations that sets code and mask only in reset, the filter holds the last of each. */
  lemma {:induction false} FilterHoldsLastSettings(s: Setup, ops: seq<Op>)
    requires InSync(s) && SetInReset(s, ops)
    ensures InSync(Run(s, ops))
    decreases |ops|
  {
    if ops != [] {
      var n := |ops| - 1;
      forall k | 0 <= k < n && Sets(ops[..n][k]) ensures Run(s, ops[..n][..k]).reset {
        assert ops[..n][..k] == ops[..k];
      }
      FilterHoldsLastSettings(s, ops[..n]);
    }
  }

  // the targets by their numbers: 0 is CONF_ACC, 1 is CONF_ACCM, 2 is CONF_ACCC

  predicate SetsMask(op: Op) { op.Conf? && (op.target == 0 || op.target == 1) }

  predicate SetsCode(op: Op) { op.Conf? && (op.target == 0 || op.target == 2) }

  /** With mask and code in one operation, the code is the second value. */
  function CodeIn(op: Op): nat
    requires SetsCode(op)
  {
    if op.target == 0 then op.val2 else op.val1
  }

  predicate LastMask(ops: seq<Op>, k: nat) {
    k < |ops| && SetsMask(ops[k]) && forall j :: k < j < |ops| ==> !SetsMask(ops[j])
  }

  predicate LastCode(ops: seq<Op>, k: nat) {
    k < |ops| && SetsCode(ops[k]) && forall j :: k < j < |ops| ==> !SetsCode(ops[j])
  }

  predicate LastSwitch(ops: seq<Op>, k: nat) {
    k < |ops| && !ops[k].Conf? && forall j :: k < j < |ops| ==> ops[j].Conf?
  }

  /** The mask is the first value of the last operation that set it. */
  lemma {:induction false} MaskIsLastSet(s: Setup, ops: seq<Op>, k: nat)
    requires LastMask(ops, k)
    ensures Run(s, ops).mask == ops[k].val1 % TWO32
    decreases |ops|
  {
    var n := |ops| - 1;
    if k < n { MaskIsLastSet(s, ops[..n], k); }
  }

  lemma {:induction false} MaskIsKept(s: Setup, ops: seq<Op>)
    requires forall k :: 0 <= k < |ops| ==> !SetsMask(ops[k])
    ensures Run(s, ops).mask == s.mask
    decreases |ops|
  {
    if ops != [] { MaskIsKept(s, ops[..|ops| - 1]); }
  }

  lemma {:induction false} CodeIsLastSet(s: Setup, ops: seq<Op>, k: nat)
    requires LastCode(ops, k)
    ensures Run(s, ops).code == CodeIn(ops[k]) % TWO32
    decreases |ops|
  {
    var n := |ops| - 1;
    if k < n { CodeIsLastSet(s, ops[..n], k); }
  }

  lemma {:induction false} CodeIsKept(s: Setup, ops: seq<Op>)
    requires forall k :: 0 <= k < |ops| ==> !SetsCode(ops[k])
    ensures Run(s, ops).code == s.code
    decreases |ops|
  {
    if ops != [] { CodeIsKept(s, ops[..|ops| - 1]); }
  }

  /** The chip is in reset exactly if the last of resets, stops and starts was no start. */
  lemma {:induction false} ResetIsLastSwitch(s: Setup, ops: seq<Op>, k: nat)
    requires LastSwitch(ops, k)
    ensures Run(s, ops).reset == !ops[k].Start?
    decreases |ops|
  {
    var n := |ops| - 1;
    if k < n { ResetIsLastSwitch(s, ops[..n], k); }
  }

  lemma {:induction false} ResetIsKept(s: Setup, ops: seq<Op>)
    requires forall k :: 0 <= k < |ops| ==> ops[k].Conf?
    ensures Run(s, ops).reset == s.reset
    decreases |ops|
  {
    if ops != [] { ResetIsKept(s, ops[..|ops| - 1]); }
  }

  /** When all settings are made in reset, the registers hold the last mask and the last code that were set. */
  lemma FilterHoldsWhatWasSet(s: Setup, ops: seq<Op>)
    requires InSync(s) && SetInReset(s, ops)
    ensures forall k: nat :: LastMask(ops, k) ==> Run(s, ops).heldMask == ops[k].val1 % TWO32
    ensures forall k: nat :: LastCode(ops, k) ==> Run(s, ops).heldCode == CodeIn(ops[k]) % TWO32
    ensures (forall k :: 0 <= k < |ops| ==> !SetsMask(ops[k])) ==> Run(s, ops).heldMask == s.heldMask
    ensures (forall k :: 0 <= k < |ops| ==> !SetsCode(ops[k])) ==> Run(s, ops).heldCode == s.heldCode
  {
    FilterHoldsLastSettings(s, ops);
    hide Run, SetInReset;
    forall k: nat | LastMask(ops, k) ensures Run(s, ops).mask == ops[k].val1 % TWO32 { MaskIsLastSet(s, ops, k); }
    forall k: nat | LastCode(ops, k) ensures Run(s, ops).code == CodeIn(ops[k]) % TWO32 { CodeIsLastSet(s, ops, k); }
    if forall k :: 0 <= k < |ops| ==> !SetsMask(ops[k]) { MaskIsKept(s, ops); }
    if forall k :: 0 <= k < |ops| ==> !SetsCode(ops[k]) { CodeIsKept(s, ops); }
  }

  /** A setting made outside reset does not reach the filter: it is out of step exactly if something changed. */
  lemma SettingOutsideResetIsLost(s: Setup, op: Op)
    requires InSync(s)
    ensures InSync(Step(s, op)) <==>
              s.reset || !Sets(op) || (Step(s, op).code == s.code && Step(s, op).mask == s.mask)
  {
  }

  /** The next chip reset puts things right. */
  lemma ChipResetRestoresFilter(s: Setup, ops: seq<Op>)
    requires ops != [] && ops[|ops| - 1].Reset?
    ensures InSync(Run(s, ops))
  {
  }

  // ---------------------------------------------------------------- the registers

  /** Four registers hold a 32-bit value, the most significant byte first. */
  ghost predicate Holds(r: seq<Byte>, v: nat) {
    |r| == 4 && v < TWO32 && forall b: nat | b < 32 :: Bit(r[3 - b / 8], b % 8) == Bit(v, b)
  }

  lemma HoldsAtMostOne(r: seq<Byte>, v: nat, w: nat)
    requires Holds(r, v) && Holds(r, w)
    ensures v == w
  {
    Pow2Values();
    forall b | 0 <= b < 32 ensures Bit(v, b) == Bit(w, b) {
      var n: nat := b;
      assert Bit(r[3 - n / 8], n % 8) == Bit(v, n);
    }
    BitsDetermine(v, w, 32);
  }

  lemma SplitHolds(r: seq<Byte>, v: nat)
    requires |r| == 4 && v < TWO32
    requires r[0] == Shr(v, 24) % 256 && r[1] == Shr(v, 16) % 256 && r[2] == Shr(v, 8) % 256 && r[3] == Shr(v, 0) % 256
    ensures Holds(r, v)
  {
    forall b: nat | b < 32 ensures Bit(r[3 - b / 8], b % 8) == Bit(v, b) {
      CutRight(v, 8 * (b / 8), b % 8);
      assert b == 8 * (b / 8) + b % 8;
    }
  }

  /** One board: its settings and its controller. */
  class Board {
    const chip: Chip
    var accCode: nat
    var accMask: nat
    ghost var heldCode: nat
    ghost var heldMask: nat

    ghost predicate Valid()
      reads this, chip, chip.filter
    {
      && chip.Valid() && accCode < TWO32 && accMask < TWO32
      && Holds(chip.filter[..4], heldCode) && Holds(chip.filter[4..], heldMask)
    }

    ghost function Now(): Setup
      reads this, chip
    {
      Setup(accCode, accMask, heldCode, heldMask, chip.InReset())
    }

    /** A board whose device has been opened for the first time. */
    constructor (chip: Chip)
      requires chip.Valid()
      modifies chip, chip.window, chip.filter
      ensures Valid() && this.chip == chip && Now() == Setup(TWO32 - 1, TWO32 - 1, TWO32 - 1, TWO32 - 1, true)
    {
      this.chip := chip;
      accCode, accMask, heldCode, heldMask := TWO32 - 1, TWO32 - 1, TWO32 - 1, TWO32 - 1;
      new;
      ResetRegisters();
    }

    /** The first half of `CAN_SetMask`; in reset mode these addresses are the filter. */
    method SetCode(code: nat)
      requires chip.Valid() && code < TWO32
      modifies chip.window, chip.filter
      ensures chip.InReset() ==> Holds(chip.filter[..4], code) && chip.filter[4..] == old(chip.filter[4..])
      ensures chip.InReset() ==> chip.window[..] == old(chip.window[..])
      ensures !chip.InReset() ==> chip.filter[..] == old(chip.filter[..])
    {
      hide Shr, Holds;
      chip.Out(chip.Address(0), Shr(code, 24) % 256);
      chip.Out(chip.Address(1), Shr(code, 16) % 256);
      chip.Out(chip.Address(2), Shr(code, 8) % 256);
      chip.Out(chip.Address(3), Shr(code, 0) % 256);
      if chip.InReset() { SplitHolds(chip.filter[..4], code); }
    }

    method SetMaskBytes(mask: nat)
      requires chip.Valid() && mask < TWO32
      modifies chip.window, chip.filter
      ensures chip.InReset() ==> Holds(chip.filter[4..], mask) && chip.filter[..4] == old(chip.filter[..4])
      ensures chip.InReset() ==> chip.window[..] == old(chip.window[..])
      ensures !chip.InReset() ==> chip.filter[..] == old(chip.filter[..])
    {
      hide Shr, Holds;
      chip.Out(chip.Address(4), Shr(mask, 24) % 256);
      chip.Out(chip.DataAddress(true, 0), Shr(mask, 16) % 256);
      chip.Out(chip.DataAddress(true, 1), Shr(mask, 8) % 256);
      chip.Out(chip.DataAddress(true, 2), Shr(mask, 0) % 256);
      if chip.InReset() { SplitHolds(chip.filter[4..], mask); }
    }

    /** `CAN_SetMask` */
    method SetMask(code: nat, mask: nat)
      requires chip.Valid() && code < TWO32 && mask < TWO32
      modifies chip.window, chip.filter
      ensures chip.InReset() ==> Holds(chip.filter[..4], code) && Holds(chip.filter[4..], mask)
      ensures chip.InReset() ==> chip.window[..] == old(chip.window[..])
      ensures !chip.InReset() ==> chip.filter[..] == old(chip.filter[..])
    {
      SetCode(code);
      SetMaskBytes(mask);
    }

    /** The part of `CAN_ChipReset` that concerns mode and filter, once the chip has answered: reset, and one filter. */
    method ResetRegisters()
      requires chip.Valid() && accCode < TWO32 && accMask < TWO32
      modifies chip, chip.window, chip.filter
      ensures chip.Valid() && chip.InReset() && chip.mode == 9
      ensures Holds(chip.filter[..4], accCode) && Holds(chip.filter[4..], accMask)
    {
      chip.WriteMode(RESET_REQUEST + MODE_DEF);
      SetMask(accCode, accMask);
    }

    /**
     `CAN_ChipReset`.  Where no chip is `present` writes have no effect, and `idle` is what the bus shows:
     the board is missed only if the bit of the reset request reads as 0.
     */
    method ChipReset(present: bool, idle: Byte) returns (ret: int)
      requires Valid()
      modifies this`heldCode, this`heldMask, chip, chip.window, chip.filter
      ensures Valid() && Now() == if present then Step(old(Now()), Reset) else old(Now())
      ensures present ==> chip.InReset() && chip.mode == 9 && Holds(chip.filter[..4], accCode) && Holds(chip.filter[4..], accMask)
      ensures !present ==> chip.InReset() == old(chip.InReset()) && chip.filter[..] == old(chip.filter[..])
      ensures ret == if !present && Bit(idle, 0) == 0 then -1 else 0
    {
      var mode := idle;
      if present {
        chip.WriteMode(RESET_REQUEST);
        mode := chip.mode;
      }
      SingleBitTest(mode, 0);
      assert Pow2(0) == RESET_REQUEST;
      BitIsBinary(mode, 0);
      if BitAnd(mode, RESET_REQUEST) == 0 {
        ret := -1;
        return;
      }
      if present {
        ResetRegisters();
        heldCode, heldMask := accCode, accMask;
      }
      ret := 0;
    }

    /** `CAN_SetMask` with the settings of the board. */
    method StoreSettings()
      requires Valid()
      modifies this`heldCode, this`heldMask, chip.window, chip.filter
      ensures Valid() && Now() == Stored(old(Now()))
      ensures chip.InReset() ==> Holds(chip.filter[..4], accCode) && Holds(chip.filter[4..], accMask)
      ensures !chip.InReset() ==> chip.filter[..] == old(chip.filter[..])
    {
      SetMask(accCode, accMask);
      if chip.InReset() {
        heldCode, heldMask := accCode, accMask;
      }
    }

    /** `can_Config` */
    method Config(target: int, val1: nat, val2: nat) returns (ret: int)
      requires Valid()
      modifies this, chip.window, chip.filter
      ensures Valid() && Now() == Step(old(Now()), Conf(target, val1, val2)) && chip.InReset() == old(chip.InReset())
      ensures accMask == if target == 0 || target == 1 then val1 % TWO32 else old(accMask)
      ensures accCode == if target == 0 then val2 % TWO32 else if target == 2 then val1 % TWO32 else old(accCode)
      ensures chip.InReset() && 0 <= target <= 2 ==>
                Holds(chip.filter[..4], accCode) && Holds(chip.filter[4..], accMask)
      ensures !chip.InReset() || target < 0 || target > 2 ==> chip.filter[..] == old(chip.filter[..])
      ensures ret == if 0 <= target <= 4 then 0 else -22
    {
      ret := 0;
      if target == CONF_ACC {
        accMask := val1 % TWO32;
        accCode := val2 % TWO32;
        StoreSettings();
      } else if target == CONF_ACCM {
        accMask := val1 % TWO32;
        StoreSettings();
      } else if target == CONF_ACCC {
        accCode := val1 % TWO32;
        StoreSettings();
      } else if target != CONF_TIMING && target != CONF_OMODE {
        ret := -EINVAL;
      }
    }

    /** The part of `CAN_StartChip` and `CAN_StopChip` that concerns the mode. */
    method SetReset(stop: bool)
      requires Valid()
      modifies chip`mode, chip`fifo, chip`locked
      ensures Valid() && Now() == Step(old(Now()), if stop then Stop else Start)
      ensures chip.InReset() == stop && chip.mode / 2 == old(chip.mode) / 2
    {
      if stop {
        chip.WriteMode(chip.mode - chip.mode % 2 + RESET_REQUEST);
      } else {
        chip.WriteMode(chip.mode - chip.mode % 2);
      }
    }
  }

  // ---------------------------------------------------------------- the filter

  /** What is compared with bit `b` of the code, if anything: the format of the frame decides. */
  function Compared(f: Frame, b: nat): int {
    if f.ext then
      if b >= 3 then Bit(f.id, b - 3)
      else if b == 2 then One(f.rtr)
      else -1
    else
      if b >= 21 then Bit(f.id, b - 21)
      else if b == 20 then One(f.rtr)
      else if b >= 16 || f.rtr then -1
      else if b >= 8 && |f.data| > 0 then Bit(f.data[0], b - 8)
      else if b < 8 && |f.data| > 1 then Bit(f.data[1], b)
      else -1
  }

  /** A set mask bit means that the code bit does not matter. */
  ghost predicate Passes(code: nat, mask: nat, f: Frame) {
    forall b: nat | b < 32 :: Bit(mask, b) == 1 || Compared(f, b) == -1 || Compared(f, b) == Bit(code, b)
  }

  /** `(id << 3) + (rtr << 2)` */
  function ExtCode(id: nat, rtr: bool): nat { Shl(id, 3) + Shl(One(rtr), 2) }

  /** `(id << 21) + (rtr << 20)` */
  function StdCode(id: nat, rtr: bool): nat { Shl(id, 21) + Shl(One(rtr), 20) }

  /** The lowest `n` bits of the mask are set and no others. */
  ghost predicate Ignores(mask: nat, n: nat) {
    forall b: nat | b < 32 :: Bit(mask, b) == One(b < n)
  }

  lemma CodeBits(id: nat, rtr: bool, k: nat, b: nat)
    requires k > 0
    ensures Bit(Shl(id, k) + Shl(One(rtr), k - 1), b)
         == if b >= k then Bit(id, b - k) else if b == k - 1 then One(rtr) else 0
  {
    ShlIsProduct(One(rtr), k - 1);
    assert Pow2(k - 1) * One(rtr) < Pow2(k);
    BitOfConcat(id, Shl(One(rtr), k - 1), k, b);
    BitOfShl(One(rtr), k - 1, b);
  }

  lemma ExtCodeBits(id: nat, rtr: bool)
    ensures forall b: nat :: Bit(ExtCode(id, rtr), b) == if b >= 3 then Bit(id, b - 3) else if b == 2 then One(rtr) else 0
  {
    forall b: nat
      ensures Bit(ExtCode(id, rtr), b) == if b >= 3 then Bit(id, b - 3) else if b == 2 then One(rtr) else 0
    {
      CodeBits(id, rtr, 3, b);
    }
  }

  lemma StdCodeBits(id: nat, rtr: bool)
    ensures forall b: nat :: Bit(StdCode(id, rtr), b) == if b >= 21 then Bit(id, b - 21) else if b == 20 then One(rtr) else 0
  {
    forall b: nat
      ensures Bit(StdCode(id, rtr), b) == if b >= 21 then Bit(id, b - 21) else if b == 20 then One(rtr) else 0
    {
      CodeBits(id, rtr, 21, b);
    }
  }

  predicate ExtFrame(f: Frame) { f.ext && f.id < Pow2(29) }

  predicate StdFrame(f: Frame) { !f.ext && f.id < Pow2(11) }

  /** The mask bits from `n` on are clear. */
  ghost predicate Compares(mask: nat, n: nat) {
    forall b: nat | n <= b < 32 :: Bit(mask, b) == 0
  }

  /** The code for extended frames takes none but those of that identifier and type if the mask has the bits compared. */
  lemma ExtPassesOnly(id: nat, rtr: bool, mask: nat, f: Frame)
    requires id < Pow2(29) && ExtFrame(f) && Compares(mask, 2)
    ensures Passes(ExtCode(id, rtr), mask, f) <==> f.id == id && f.rtr == rtr
  {
    var code := ExtCode(id, rtr);
    ExtCodeBits(id, rtr);
    if Passes(code, mask, f) {
      forall i | 0 <= i < 29 ensures Bit(f.id, i) == Bit(id, i) {
        var b: nat := i + 3;
        assert Bit(mask, b) == 0 && Compared(f, b) == Bit(f.id, i);
        BitIsBinary(f.id, i);
      }
      BitsDetermine(f.id, id, 29);
      var b: nat := 2;
      assert Bit(mask, b) == 0 && Compared(f, b) == One(f.rtr);
    }
  }

  /** The same for standard frames; the data bytes of a data frame are compared with zeros where the mask says so. */
  lemma StdPassesOnly(id: nat, rtr: bool, mask: nat, f: Frame)
    requires id < Pow2(11) && StdFrame(f) && Compares(mask, 20)
    ensures Passes(StdCode(id, rtr), mask, f) <==>
              f.id == id && f.rtr == rtr && forall b: nat | b < 16 :: Bit(mask, b) == 1 || Compared(f, b) <= 0
  {
    var code := StdCode(id, rtr);
    StdCodeBits(id, rtr);
    if Passes(code, mask, f) {
      forall i | 0 <= i < 11 ensures Bit(f.id, i) == Bit(id, i) {
        var b: nat := i + 21;
        assert Bit(mask, b) == 0 && Compared(f, b) == Bit(f.id, i);
        BitIsBinary(f.id, i);
      }
      BitsDetermine(f.id, id, 11);
      var b: nat := 20;
      assert Bit(mask, b) == 0 && Compared(f, b) == One(f.rtr);
    } else {
      var b: nat :| b < 32 && !(Bit(mask, b) == 1 || Compared(f, b) == -1 || Compared(f, b) == Bit(code, b));
      if b < 16 { ComparedIsBit(f, b); }
    }
  }

  lemma ComparedIsBit(f: Frame, b: nat)
    requires b < 32
    ensures Compared(f, b) in {-1, 0, 1}
  {
    BitIsBinary(f.id, if f.ext then if b >= 3 then b - 3 else 0 else if b >= 21 then b - 21 else 0);
    if |f.data| > 0 && b >= 8 { BitIsBinary(f.data[0], b - 8); }
    if |f.data| > 1 && b < 8 { BitIsBinary(f.data[1], b); }
  }

  /** The documented code for extended frames selects exactly the extended frames of that identifier and type. */
  lemma ExtFilterIsExact(id: nat, rtr: bool, mask: nat, f: Frame)
    requires id < Pow2(29) && Ignores(mask, 2) && ExtFrame(f)
    ensures Passes(ExtCode(id, rtr), mask, f) <==> f.id == id && f.rtr == rtr
  {
    ExtPassesOnly(id, rtr, mask, f);
  }

  /** The same for standard frames, with the data bytes ignored. */
  lemma StdFilterIsExact(id: nat, rtr: bool, mask: nat, f: Frame)
    requires id < Pow2(11) && Ignores(mask, 20) && StdFrame(f)
    ensures Passes(StdCode(id, rtr), mask, f) <==> f.id == id && f.rtr == rtr
  {
    StdPassesOnly(id, rtr, mask, f);
  }

  // ---------------------------------------------------------------- which masks do what is documented

  /** Among extended frames exactly those of that identifier and type. */
  ghost predicate SelectsExt(id: nat, rtr: bool, mask: nat) {
    forall f: Frame | ExtFrame(f) :: Passes(ExtCode(id, rtr), mask, f) <==> f.id == id && f.rtr == rtr
  }

  ghost predicate SelectsStd(id: nat, rtr: bool, mask: nat) {
    forall f: Frame | StdFrame(f) :: Passes(StdCode(id, rtr), mask, f) <==> f.id == id && f.rtr == rtr
  }

  /** A frame that is let in although one bit of it is wrong. */
  lemma WrongExtFrame(id: nat, rtr: bool, mask: nat, b: nat)
    requires id < Pow2(29) && 2 <= b < 32 && Bit(mask, b) == 1
    ensures !SelectsExt(id, rtr, mask)
  {
    ExtCodeBits(id, rtr);
    hide ExtCode, Bit, Flip, Pow2;
    var f := if b == 2 then Frame(id, true, !rtr, 0, []) else Frame(Flip(id, b - 3), true, rtr, 0, []);
    if b > 2 { FlipFits(id, b - 3, 29); }
    forall c: nat | c < 32 && c != b ensures Compared(f, c) == -1 || Compared(f, c) == Bit(ExtCode(id, rtr), c) {
      if b > 2 && c > 2 { BitOfFlip(id, b - 3, c - 3); }
    }
    assert ExtFrame(f) && Passes(ExtCode(id, rtr), mask, f);
  }

  /** For each mask: the code for extended frames selects as documented exactly if bits 2 to 31 are clear. */
  lemma ExtSelectsExactly(id: nat, rtr: bool, mask: nat)
    requires id < Pow2(29)
    ensures SelectsExt(id, rtr, mask) <==> Compares(mask, 2)
  {
    if Compares(mask, 2) {
      forall f: Frame | ExtFrame(f) ensures Passes(ExtCode(id, rtr), mask, f) <==> f.id == id && f.rtr == rtr {
        ExtPassesOnly(id, rtr, mask, f);
      }
    } else {
      var b: nat :| 2 <= b < 32 && Bit(mask, b) != 0;
      BitIsBinary(mask, b);
      WrongExtFrame(id, rtr, mask, b);
    }
  }

  lemma WrongStdFrame(id: nat, rtr: bool, mask: nat, b: nat)
    requires id < Pow2(11) && 20 <= b < 32 && Bit(mask, b) == 1
    ensures !SelectsStd(id, rtr, mask)
  {
    StdCodeBits(id, rtr);
    hide StdCode, Bit, Flip, Pow2;
    var f := if b == 20 then Frame(id, false, !rtr, 0, []) else Frame(Flip(id, b - 21), false, rtr, 0, []);
    if b > 20 { FlipFits(id, b - 21, 11); }
    forall c: nat | c < 32 && c != b ensures Compared(f, c) == -1 || Compared(f, c) == Bit(StdCode(id, rtr), c) {
      if b > 20 && c > 20 { BitOfFlip(id, b - 21, c - 21); }
    }
    assert StdFrame(f) && Passes(StdCode(id, rtr), mask, f);
  }

  /** Two data bytes with a single bit set, in the order in which they are compared. */
  function SingleBit(b: nat): (data: seq<Byte>)
    requires b < 16
    ensures |data| == 2
  {
    assert Pow2(7) == 128;
    Pow2Grows(b % 8, 7);
    if b >= 8 then [Pow2(b % 8), 0] else [0, Pow2(b % 8)]
  }

  /** A data frame of that identifier that is kept out for one bit of its data. */
  lemma WrongData(id: nat, mask: nat, b: nat)
    requires id < Pow2(11) && b < 16 && Bit(mask, b) == 0 && Compares(mask, 20)
    ensures !SelectsStd(id, false, mask)
  {
    hide Passes, StdCode, Compared, SingleBit, Bit, Pow2;
    var f := Frame(id, false, false, 2, SingleBit(b));
    SingleBitIsCompared(f, b);
    StdPassesOnly(id, false, mask, f);
    assert StdFrame(f) && !Passes(StdCode(id, false), mask, f);
  }

  lemma SingleBitIsCompared(f: Frame, b: nat)
    requires !f.ext && !f.rtr && b < 16 && f.data == SingleBit(b)
    ensures Compared(f, b) == 1
  {
    hide Bit, Pow2;
    BitOfPow2(b % 8, b % 8);
    assert b % 8 == if b >= 8 then b - 8 else b;
  }

  /**
   The code for standard frames selects as documented exactly if bits 20 to 31 are clear and, for data
   frames, bits 0 to 15 are set: against the comment in ioctl.c these do matter.
   */
  lemma StdSelectsExactly(id: nat, rtr: bool, mask: nat)
    requires id < Pow2(11)
    ensures SelectsStd(id, rtr, mask) <==>
              Compares(mask, 20) && (rtr || forall b: nat | b < 16 :: Bit(mask, b) == 1)
  {
    if !Compares(mask, 20) {
      var b: nat :| 20 <= b < 32 && Bit(mask, b) != 0;
      BitIsBinary(mask, b);
      WrongStdFrame(id, rtr, mask, b);
    } else if rtr || forall b: nat | b < 16 :: Bit(mask, b) == 1 {
      forall f: Frame | StdFrame(f) ensures Passes(StdCode(id, rtr), mask, f) <==> f.id == id && f.rtr == rtr {
        StdPassesOnly(id, rtr, mask, f);
      }
    } else {
      var b: nat :| b < 16 && Bit(mask, b) != 1;
      BitIsBinary(mask, b);
      WrongData(id, mask, b);
    }
  }

  // ---------------------------------------------------------------- the other format

  /** A code for standard frames lets in the extended frames whose first eleven bits and whose bit 17 agree with it. */
  lemma StdCodeOnExtended(id: nat, rtr: bool, mask: nat, f: Frame)
    requires id < Pow2(11) && Ignores(mask, 20) && ExtFrame(f)
    ensures Passes(StdCode(id, rtr), mask, f) <==> Shr(f.id, 18) == id && Bit(f.id, 17) == One(rtr)
  {
    var code := StdCode(id, rtr);
    StdCodeBits(id, rtr);
    ShrFits(f.id, 18, 11);
    forall i: nat ensures Bit(Shr(f.id, 18), i) == Bit(f.id, 18 + i) { BitOfShr(f.id, 18, i); }
    if Passes(code, mask, f) {
      forall i | 0 <= i < 11 ensures Bit(Shr(f.id, 18), i) == Bit(id, i) {
        var b: nat := i + 21;
        assert Bit(mask, b) == One(b < 20) && Compared(f, b) == Bit(f.id, b - 3);
        BitIsBinary(f.id, b - 3);
      }
      BitsDetermine(Shr(f.id, 18), id, 11);
      var b: nat := 20;
      assert Bit(mask, b) == One(b < 20) && Compared(f, b) == Bit(f.id, 17);
      BitIsBinary(f.id, 17);
    }
  }

  /**
   A code for extended frames compares the first eleven identifier bits with those of a standard frame,
   the next one with its type, and the rest with its first two data bytes, if it has them.
   */
  lemma ExtCodeOnStandard(id: nat, rtr: bool, mask: nat, f: Frame)
    requires id < Pow2(29) && Ignores(mask, 2) && StdFrame(f)
    ensures Passes(ExtCode(id, rtr), mask, f) <==>
              && f.id == Shr(id, 18) && One(f.rtr) == Bit(id, 17)
              && (!f.rtr && |f.data| > 0 ==> f.data[0] == Shr(id, 5) % 256)
              && (!f.rtr && |f.data| > 1 ==> f.data[1] / 4 == (2 * id + One(rtr)) % 64)
  {
    ExtCodeBits(id, rtr);
    HeadOnStandard(id, rtr, mask, f);
    if !f.rtr && |f.data| > 0 { FirstByteOnStandard(id, rtr, mask, f); }
    if !f.rtr && |f.data| > 1 { SecondByteOnStandard(id, rtr, mask, f); }
    PassesByParts(ExtCode(id, rtr), mask, f);
  }

  /** The bits of the code from `lo` to `hi` let the frame pass. */
  ghost predicate PassesIn(code: nat, mask: nat, f: Frame, lo: nat, hi: nat) {
    forall b: nat | lo <= b < hi :: Bit(mask, b) == 1 || Compared(f, b) == -1 || Compared(f, b) == Bit(code, b)
  }

  lemma PassesByParts(code: nat, mask: nat, f: Frame)
    requires !f.ext
    ensures Passes(code, mask, f) <==>
              && PassesIn(code, mask, f, 16, 32)
              && (!f.rtr && |f.data| > 0 ==> PassesIn(code, mask, f, 8, 16))
              && (!f.rtr && |f.data| > 1 ==> PassesIn(code, mask, f, 0, 8))
  {
  }

  lemma HeadOnStandard(id: nat, rtr: bool, mask: nat, f: Frame)
    requires id < Pow2(29) && Ignores(mask, 2) && StdFrame(f)
    ensures PassesIn(ExtCode(id, rtr), mask, f, 16, 32) <==> f.id == Shr(id, 18) && One(f.rtr) == Bit(id, 17)
  {
    var code := ExtCode(id, rtr);
    ExtCodeBits(id, rtr);
    ShrFits(id, 18, 11);
    forall i: nat ensures Bit(Shr(id, 18), i) == Bit(id, 18 + i) { BitOfShr(id, 18, i); }
    if PassesIn(code, mask, f, 16, 32) {
      forall i | 0 <= i < 11 ensures Bit(f.id, i) == Bit(Shr(id, 18), i) {
        var b: nat := i + 21;
        assert Bit(mask, b) == One(b < 2) && Compared(f, b) == Bit(f.id, i);
        BitIsBinary(f.id, i);
      }
      BitsDetermine(f.id, Shr(id, 18), 11);
      var b: nat := 20;
      assert Bit(mask, b) == One(b < 2) && Compared(f, b) == One(f.rtr);
    }
  }

  lemma FirstByteOnStandard(id: nat, rtr: bool, mask: nat, f: Frame)
    requires Ignores(mask, 2) && StdFrame(f) && !f.rtr && |f.data| > 0
    ensures PassesIn(ExtCode(id, rtr), mask, f, 8, 16) <==> f.data[0] == Shr(id, 5) % 256
  {
    var code, want := ExtCode(id, rtr), Shr(id, 5) % 256;
    ExtCodeBits(id, rtr);
    assert Pow2(8) == 256;
    forall i: nat | i < 8 ensures Bit(want, i) == Bit(code, i + 8) {
      BitOfMod(Shr(id, 5), 8, i);
      BitOfShr(id, 5, i);
    }
    if PassesIn(code, mask, f, 8, 16) {
      forall i | 0 <= i < 8 ensures Bit(f.data[0], i) == Bit(want, i) {
        var b: nat := i + 8;
        assert Bit(mask, b) == One(b < 2) && Compared(f, b) == Bit(f.data[0], i);
        BitIsBinary(f.data[0], i);
      }
      BitsDetermine(f.data[0], want, 8);
    } else {
      var b: nat :| 8 <= b < 16 && !(Bit(mask, b) == 1 || Compared(f, b) == -1 || Compared(f, b) == Bit(code, b));
      assert Compared(f, b) == Bit(f.data[0], b - 8) && Bit(want, b - 8) == Bit(code, b);
    }
  }

  lemma SecondByteOnStandard(id: nat, rtr: bool, mask: nat, f: Frame)
    requires Ignores(mask, 2) && StdFrame(f) && !f.rtr && |f.data| > 1
    ensures PassesIn(ExtCode(id, rtr), mask, f, 0, 8) <==> f.data[1] / 4 == (2 * id + One(rtr)) % 64
  {
    var code, want := ExtCode(id, rtr), (2 * id + One(rtr)) % 64;
    ExtCodeBits(id, rtr);
    assert Pow2(6) == 64;
    forall i: nat | i < 6 ensures Bit(want, i) == Bit(code, i + 2) {
      BitOfMod(2 * id + One(rtr), 6, i);
      if i > 0 { assert (2 * id + One(rtr)) / 2 == id; }
    }
    forall i: nat ensures Bit(f.data[1] / 4, i) == Bit(f.data[1], i + 2) {
      assert f.data[1] / 4 == f.data[1] / 2 / 2;
    }
    if PassesIn(code, mask, f, 0, 8) {
      forall i | 0 <= i < 6 ensures Bit(f.data[1] / 4, i) == Bit(want, i) {
        var b: nat := i + 2;
        assert Bit(mask, b) == One(b < 2) && Compared(f, b) == Bit(f.data[1], b);
        BitIsBinary(f.data[1], b);
      }
      BitsDetermine(f.data[1] / 4, want, 6);
    } else {
      var b: nat :| b < 8 && !(Bit(mask, b) == 1 || Compared(f, b) == -1 || Compared(f, b) == Bit(code, b));
      assert Bit(mask, b) == One(b < 2) && Compared(f, b) == Bit(f.data[1], b);
      assert b >= 2 && Bit(want, b - 2) == Bit(code, b);
    }
  }

  /** What a board set up with the documented code and mask receives, of messages sent in either format. */
  lemma SelectsMessages(id: nat, rtr: bool, mask: nat, m: Msg)
    requires m.length >= 0
    ensures id < Pow2(11) && Ignores(mask, 20) ==>
              (Passes(StdCode(id, rtr), mask, Wire(m)) <==>
                 if IsExt(m) then Shr(m.id % Pow2(29), 18) == id && Bit(m.id % Pow2(29), 17) == One(rtr)
                 else m.id % Pow2(11) == id && IsRtr(m) == rtr)
    ensures id < Pow2(29) && Ignores(mask, 2) ==>
              (Passes(ExtCode(id, rtr), mask, Wire(m)) <==>
                 if IsExt(m) then m.id % Pow2(29) == id && IsRtr(m) == rtr
                 else && m.id % Pow2(11) == Shr(id, 18) && One(IsRtr(m)) == Bit(id, 17)
                      && (!IsRtr(m) && m.length > 0 ==> m.data[0] == Shr(id, 5) % 256)
                      && (!IsRtr(m) && m.length > 1 ==> m.data[1] / 4 == (2 * id + One(rtr)) % 64))
  {
    hide Passes, Compared, Ignores, ExtCode, StdCode, Shr, Bit, Pow2, BitAnd;
    if id < Pow2(11) && Ignores(mask, 20) {
      if IsExt(m) { StdCodeOnExtended(id, rtr, mask, Wire(m)); } else { StdFilterIsExact(id, rtr, mask, Wire(m)); }
    }
    if id < Pow2(29) && Ignores(mask, 2) {
      if IsExt(m) { ExtFilterIsExact(id, rtr, mask, Wire(m)); } else { ExtCodeOnStandard(id, rtr, mask, Wire(m)); }
    }
  }

  /** The filter does not look at the format: whatever code and mask, some frame of each format passes. */
  lemma FormatIsNotCompared(code: nat, mask: nat)
    requires code < TWO32
    ensures var f := Frame(Shr(code, 3), true, Bit(code, 2) == 1, 0, []); ExtFrame(f) && Passes(code, mask, f)
    ensures var f := Frame(Shr(code, 21), false, Bit(code, 20) == 1, 0, []); StdFrame(f) && Passes(code, mask, f)
  {
    Pow2Values();
    ShrFits(code, 3, 29);
    ShrFits(code, 21, 11);
    var e, s := Frame(Shr(code, 3), true, Bit(code, 2) == 1, 0, []), Frame(Shr(code, 21), false, Bit(code, 20) == 1, 0, []);
    BitIsBinary(code, 2);
    BitIsBinary(code, 20);
    forall b: nat | b < 32 ensures Compared(e, b) == -1 || Compared(e, b) == Bit(code, b) {
      if b >= 3 { BitOfShr(code, 3, b - 3); }
    }
    forall b: nat | b < 32 ensures Compared(s, b) == -1 || Compared(s, b) == Bit(code, b) {
      if b >= 21 { BitOfShr(code, 21, b - 21); }
    }
  }

  lemma {:induction false} ShrFits(x: nat, k: nat, n: nat)
    requires x < Pow2(k + n)
    ensures Shr(x, k) < Pow2(n)
    decreases k
  {
    if k != 0 { ShrFits(x / 2, k - 1, n); }
  }

  /**
   Against the comment in ioctl.c, the low mask bits do matter for standard frames: with all of them
   clear, the documented code takes a frame with data bytes only if these are zero.
   */
  lemma ZeroMaskComparesData(id: nat, rtr: bool, f: Frame)
    requires id < Pow2(11) && !f.ext && !f.rtr && !rtr && f.id == id && |f.data| > 0
    ensures Passes(StdCode(id, rtr), 0, f) <==> f.data[0] == 0 && (|f.data| > 1 ==> f.data[1] == 0)
  {
    var code := StdCode(id, rtr);
    forall b: nat | b < 32 ensures Bit(code, b) == (if b >= 21 then Bit(id, b - 21) else 0) && Bit(0, b) == 0 {
      CodeBits(id, rtr, 21, b);
      BitOfZero(b);
    }
    if Passes(code, 0, f) {
      DataIsZero(code, f, 0);
      if |f.data| > 1 { DataIsZero(code, f, 1); }
    }
    forall b: nat | b < 8 ensures Bit(0, b) == 0 { BitOfZero(b); }
  }

  lemma DataIsZero(code: nat, f: Frame, j: nat)
    requires Passes(code, 0, f) && !f.ext && !f.rtr && j < 2 && |f.data| > j
    requires forall b: nat | b < 16 :: Bit(code, b) == 0 && Bit(0, b) == 0
    ensures f.data[j] == 0
  {
    assert Pow2(8) == 256;
    forall i | 0 <= i < 8 ensures Bit(f.data[j], i) == Bit(0, i) {
      var b: nat := if j == 0 then i + 8 else i;
      assert Compared(f, b) == Bit(f.data[j], i);
      BitIsBinary(f.data[j], i);
      BitOfZero(i);
      assert Bit(code, b) == 0 && Bit(0, b) == 0;
    }
    BitsDetermine(f.data[j], 0, 8);
  }
}
