/**
 The frame codec on either side of the controller: what `sendcanmsg` decides about a message, what
 `readcanmsg` makes of the thirteen bytes of the frame window, and the layout of that window as the
 Philips SJA1000 data sheet gives it (sections 6.4.13 and 6.4.14).
 */
module Codec {
  import opened Words
  import opened Bits
  import opened CanTypes

  const CAN_RTR: nat := 64
  const CAN_EFF: nat := 128

  /** The frame window, registers 16 to 28: frame information, identifier bytes, data bytes. */
  const WINDOW: nat := 13

  type Image = w: seq<Byte> | |w| == WINDOW
    witness [0, 0, 0, 0, 0, 0, 0, 0, 0, 0, 0, 0, 0]

  function IdBits(ext: bool): nat { if ext then 29 else 11 }

  /** Index in the window of the first data byte: the two layouts overlap. */
  function DataBase(ext: bool): nat { if ext then 5 else 3 }

  // ---------------------------------------------------------------- transmit side

  /** `sendcanmsg` cuts an over-long message in place. */
  function Capped(m: Msg): Msg {
    if m.length > 8 then m.(length := 8) else m
  }

  /** The bits of an unstuffed frame, field by field as the driver adds them; data bits are added for remote frames too. */
  function FrameBits(m: Msg): int {
    1 + 11 + 1 + 1 + 1 + 4 + 15 + 1 + 1 + 1 + 7 + (if IsExt(m) then 18 + 2 else 0) + m.length * 8
  }

  /** C division, which truncates toward zero. */
  function CDiv(a: int, b: int): int
    requires b > 0
  {
    if a >= 0 then a / b else -((-a) / b)
  }

  /** The wait in microseconds that `sendcanmsg` asks the timer for; zero or less means send now. */
  function Delay(m: Msg, baud: int): int
    requires baud > 0
  {
    var requested := ToInt32(m.usec);
    if requested == 0 then 0 else ToInt32(requested - CDiv(FrameBits(m) * 1000, baud))
  }

  /** The frame that a message asks for. */
  function Wire(m: Msg): Frame
    requires m.length >= 0
  {
    var n := Capped(m).length;
    Frame(m.id % Pow2(IdBits(IsExt(m))), IsExt(m), IsRtr(m), n, m.data[..n])
  }

  // ---------------------------------------------------------------- the data sheet

  /**
   Data sheet layout: the identifier is laid out most significant bit first from the byte after the
   frame information on; the low bits left over in its last byte mean nothing.
   */
  ghost predicate Carries(w: Image, f: Frame) {
    && f.id < Pow2(IdBits(f.ext))
    && f.length <= 8 && |f.data| == f.length
    && (Bit(w[0], 7) == 1 <==> f.ext)
    && (Bit(w[0], 6) == 1 <==> f.rtr)
    && w[0] % 16 == f.length
    && (forall p | 0 <= p < IdBits(f.ext) :: Bit(w[1 + p / 8], 7 - p % 8) == Bit(f.id, IdBits(f.ext) - 1 - p))
    && (forall i | 0 <= i < f.length :: w[DataBase(f.ext) + i] == f.data[i])
  }

  /** The frame information and the identifier bytes that `sendcanmsg` stores for a message of at most eight bytes. */
  predicate WrittenHeader(w: Image, m: Msg)
    requires 0 <= m.length <= 8
  {
    && w[0] == (if IsExt(m) then CAN_EFF else 0) + FrameInfo(m)
    && (if IsExt(m) then
          w[1] == Shr(m.id, 21) % 256 && w[2] == Shr(m.id, 13) % 256
          && w[3] == Shr(m.id, 5) % 256 && w[4] == Shl(m.id, 3) % 256
        else
          w[1] == Shr(m.id, 3) % 256 && w[2] == BitAnd(Shl(m.id, 5) % 256, 0xE0))
  }

  predicate Written(w: Image, m: Msg)
    requires 0 <= m.length <= 8
  {
    WrittenHeader(w, m) && forall i | 0 <= i < m.length :: w[DataBase(IsExt(m)) + i] == m.data[i]
  }

  function FrameInfo(m: Msg): (r: nat)
    requires 0 <= m.length <= 8
    ensures r == m.length + (if IsRtr(m) then CAN_RTR else 0)
  {
    RtrAboveLength(m.length);
    if IsRtr(m) then BitOr(m.length, CAN_RTR) else m.length
  }

  lemma RtrAboveLength(n: nat)
    requires n <= 8
    ensures BitOr(n, CAN_RTR) == n + CAN_RTR
  {
    assert Pow2(6) == CAN_RTR;
    OrAbove(n, 6);
  }

  /** Or-ing in a bit above all others adds it. */
  lemma {:induction false} OrAbove(n: nat, k: nat)
    requires n < Pow2(k)
    ensures BitOr(n, Pow2(k)) == n + Pow2(k)
    decreases k
  {
    if k > 0 {
      OrAbove(n / 2, k - 1);
      assert Pow2(k) / 2 == Pow2(k - 1) && Pow2(k) % 2 == 0;
    }
  }

  lemma TopBits(b: Byte)
    ensures Bit(b, 6) == b / 64 % 2 && Bit(b, 7) == b / 128 % 2
  {
    var x := b / 2 / 2 / 2 / 2;
    assert Bit(b, 6) == Bit(b / 2 / 2, 4) == Bit(x, 2) == Bit(x / 2 / 2, 0);
    assert Bit(b, 7) == Bit(b / 2 / 2, 5) == Bit(x, 3) == Bit(x / 2 / 2, 1) == Bit(x / 2 / 2 / 2, 0);
  }

  /** A bit of a byte that was cut out of the identifier. */
  lemma CutRight(x: nat, k: nat, j: nat)
    requires j < 8
    ensures Bit(Shr(x, k) % 256, j) == Bit(x, k + j)
  {
    assert Pow2(8) == 256;
    BitOfMod(Shr(x, k), 8, j);
    BitOfShr(x, k, j);
  }

  lemma CutLeft(x: nat, k: nat, j: nat)
    requires k <= j < 8
    ensures Bit(Shl(x, k) % 256, j) == Bit(x, j - k)
  {
    assert Pow2(8) == 256;
    BitOfMod(Shl(x, k), 8, j);
    BitOfShl(x, k, j);
  }

  lemma WrittenIdExt(w: Image, m: Msg, p: nat)
    requires 0 <= m.length <= 8 && WrittenHeader(w, m) && IsExt(m) && p < 29
    ensures Bit(w[1 + p / 8], 7 - p % 8) == Bit(m.id, 28 - p)
  {
    if p < 8 { CutRight(m.id, 21, 7 - p); }
    else if p < 16 { CutRight(m.id, 13, 15 - p); }
    else if p < 24 { CutRight(m.id, 5, 23 - p); }
    else { CutLeft(m.id, 3, 31 - p); }
  }

  lemma WrittenIdStd(w: Image, m: Msg, p: nat)
    requires 0 <= m.length <= 8 && WrittenHeader(w, m) && !IsExt(m) && p < 11
    ensures Bit(w[1 + p / 8], 7 - p % 8) == Bit(m.id, 10 - p)
  {
    if p < 8 {
      CutRight(m.id, 3, 7 - p);
    } else {
      CutLeft(m.id, 5, 15 - p);
      BitOfAnd(Shl(m.id, 5) % 256, 0xE0, 15 - p);
      assert Bit(0xE0, 7) == 1 && Bit(0xE0, 6) == 1 && Bit(0xE0, 5) == 1;
      BitIsBinary(w[2], 15 - p);
      BitIsBinary(m.id, 10 - p);
    }
  }

  lemma WrittenId(w: Image, m: Msg, p: nat)
    requires 0 <= m.length <= 8 && WrittenHeader(w, m) && p < IdBits(IsExt(m))
    ensures var n := IdBits(IsExt(m)); Bit(w[1 + p / 8], 7 - p % 8) == Bit(m.id % Pow2(n), n - 1 - p)
  {
    var n := IdBits(IsExt(m));
    BitOfMod(m.id, n, n - 1 - p);
    if IsExt(m) { WrittenIdExt(w, m, p); } else { WrittenIdStd(w, m, p); }
  }

  lemma WrittenInfo(w: Image, m: Msg)
    requires 0 <= m.length <= 8 && WrittenHeader(w, m)
    ensures Bit(w[0], 7) == 1 <==> IsExt(m)
    ensures Bit(w[0], 6) == 1 <==> IsRtr(m)
    ensures w[0] % 16 == m.length
  {
    TopBits(w[0]);
  }

  /** What the driver stores is the frame in the layout of the data sheet. */
  lemma WrittenCarries(w: Image, m: Msg)
    requires 0 <= m.length <= 8 && Written(w, m)
    ensures Carries(w, Wire(m))
  {
    WrittenInfo(w, m);
    forall p | 0 <= p < IdBits(IsExt(m))
      ensures Bit(w[1 + p / 8], 7 - p % 8) == Bit(Wire(m).id, IdBits(IsExt(m)) - 1 - p)
    {
      WrittenId(w, m, p);
    }
    assert Wire(m).data == m.data[..m.length];
  }

  // ---------------------------------------------------------------- receive side

  function ReadId(w: Image): (id: nat)
    ensures id < Pow2(29)
  {
    Pow2Values();
    if BitAnd(w[0], CAN_EFF) != 0 then
      NestedShifts(w[1], w[2], w[3], w[4]);
      (Shl(w[1], 21) + Shl(w[2], 13) + Shl(w[3], 5) + Shr(w[4], 3)) % TWO32
    else
      StdShifts(w[1], w[2]);
      (Shl(w[1], 3) + Shr(w[2], 5)) % TWO32
  }

  lemma ShlByte(b: Byte, k: nat)
    requires k in {3, 5, 13, 21}
    ensures k == 3 ==> Shl(b, k) == 8 * b
    ensures k == 5 ==> Shl(b, k) == 32 * b
    ensures k == 13 ==> Shl(b, k) == 8192 * b
    ensures k == 21 ==> Shl(b, k) == 2097152 * b
  {
    ShlIsProduct(b, k);
    assert Pow2(3) == 8 && Pow2(5) == 32 && Pow2(13) == 8192 && Pow2(21) == 2097152;
  }

  lemma {:induction false} ShlIsProduct(x: nat, k: nat)
    ensures Shl(x, k) == Pow2(k) * x
  {
    if k != 0 { ShlIsProduct(x, k - 1); }
  }

  lemma ShrByte(b: Byte, k: nat)
    requires k in {3, 5}
    ensures k == 3 ==> Shr(b, k) == b / 8 < 32
    ensures k == 5 ==> Shr(b, k) == b / 32 < 8
  {
    assert Shr(b, 3) == Shr(b / 2, 2) == Shr(b / 2 / 2, 1) == b / 2 / 2 / 2;
    assert k == 5 ==> Shr(b, 5) == Shr(b / 2, 4) == Shr(b / 2 / 2, 3) == Shr(b / 2 / 2 / 2, 2);
  }

  /** `readcanmsg` on a window: the slot's old bytes past the received data stay as they were. */
  function Received(w: Image, old_: Msg, flags: nat, sec: int, usec: int): Msg {
    var rtr := if BitAnd(w[0], CAN_RTR) != 0 then BitOr(flags, MSG_RTR) else flags;
    var ext := BitAnd(w[0], CAN_EFF) != 0;
    var dlc := BitAnd(w[0], 15);
    var copied := dlc % 9;
    old_.(flags := if ext then BitOr(rtr, MSG_EXT) else rtr,
          sec := sec, usec := usec, id := ReadId(w), length := dlc,
          data := w[DataBase(ext)..DataBase(ext) + copied] + old_.data[copied..])
  }

  /** What the reader of a received message sees of the frame. */
  function Seen(m: Msg): Frame {
    Frame(m.id, IsExt(m), IsRtr(m), m.length, m.data[..if m.length < 0 then 0 else m.length % 9])
  }

  // ---------------------------------------------------------------- theorems

  lemma FrameInfoBits(b: Byte)
    ensures BitAnd(b, CAN_RTR) != 0 <==> Bit(b, 6) == 1
    ensures BitAnd(b, CAN_EFF) != 0 <==> Bit(b, 7) == 1
    ensures BitAnd(b, 15) == b % 16
  {
    assert Pow2(6) == CAN_RTR && Pow2(7) == CAN_EFF && Pow2(4) == 16;
    SingleBitTest(b, 6);
    SingleBitTest(b, 7);
    BitAndMask(b, 4);
  }

  lemma FlagBits(flags: nat)
    ensures BitAnd(flags, MSG_RTR) != 0 <==> Bit(flags, 0) == 1
    ensures BitAnd(flags, MSG_EXT) != 0 <==> Bit(flags, 2) == 1
    ensures Bit(BitOr(flags, MSG_RTR), 0) == 1 && Bit(BitOr(flags, MSG_EXT), 2) == 1
    ensures Bit(BitOr(flags, MSG_RTR), 2) == 1 <==> Bit(flags, 2) == 1
    ensures Bit(BitOr(flags, MSG_EXT), 0) == 1 <==> Bit(flags, 0) == 1
  {
    assert Pow2(0) == MSG_RTR && Pow2(2) == MSG_EXT;
    SingleBitTest(flags, 0);
    SingleBitTest(flags, 2);
    BitOfPow2(0, 0); BitOfPow2(0, 2); BitOfPow2(2, 0); BitOfPow2(2, 2);
    BitOfOr(flags, MSG_RTR, 0); BitOfOr(flags, MSG_RTR, 2);
    BitOfOr(flags, MSG_EXT, 0); BitOfOr(flags, MSG_EXT, 2);
  }

  /** Flags that the interrupt handler presets: neither format bit is among them. */
  predicate PlainFlags(flags: nat) {
    Bit(flags, 0) != 1 && Bit(flags, 2) != 1
  }

  /** The extended identifier as nested shifts, each remainder fitting below its shift. */
  lemma NestedShifts(b1: Byte, b2: Byte, b3: Byte, b4: Byte)
    ensures Shr(b4, 3) < Pow2(5)
    ensures Shl(b3, 5) + Shr(b4, 3) < Pow2(13)
    ensures Shl(b2, 13) + (Shl(b3, 5) + Shr(b4, 3)) < Pow2(21)
    ensures (Shl(b1, 21) + Shl(b2, 13) + Shl(b3, 5) + Shr(b4, 3)) % TWO32
         == Shl(b1, 21) + (Shl(b2, 13) + (Shl(b3, 5) + Shr(b4, 3))) < 0x2000_0000
  {
    ShlByte(b1, 21); ShlByte(b2, 13); ShlByte(b3, 5); ShrByte(b4, 3);
    assert Pow2(5) == 32 && Pow2(13) == 8192 && Pow2(21) == 2097152;
    var id := 2097152 * b1 + (8192 * b2 + (32 * b3 + b4 / 8));
    DivModUnique(id, TWO32, 0, id);
  }

  lemma ReadIdExtNested(w: Image)
    requires Bit(w[0], 7) == 1
    ensures ReadId(w) == Shl(w[1], 21) + (Shl(w[2], 13) + (Shl(w[3], 5) + Shr(w[4], 3)))
  {
    FrameInfoBits(w[0]);
    NestedShifts(w[1], w[2], w[3], w[4]);
  }

  lemma ReadIdBitsExt(w: Image, i: nat)
    requires Bit(w[0], 7) == 1 && i < 29
    ensures Bit(ReadId(w), i) == Bit(w[1 + (28 - i) / 8], 7 - (28 - i) % 8)
  {
    ReadIdExtNested(w);
    NestedShifts(w[1], w[2], w[3], w[4]);
    var low := Shl(w[3], 5) + Shr(w[4], 3);
    var id := ReadId(w);
    BitOfConcat(w[1], Shl(w[2], 13) + low, 21, i);
    BitOfConcat(w[2], low, 13, i);
    BitOfConcat(w[3], Shr(w[4], 3), 5, i);
    BitOfShr(w[4], 3, i);
    ExtPosition(i);
  }

  lemma ExtPosition(i: nat)
    requires i < 29
    ensures i >= 21 ==> (28 - i) / 8 == 0 && 7 - (28 - i) % 8 == i - 21
    ensures 13 <= i < 21 ==> (28 - i) / 8 == 1 && 7 - (28 - i) % 8 == i - 13
    ensures 5 <= i < 13 ==> (28 - i) / 8 == 2 && 7 - (28 - i) % 8 == i - 5
    ensures i < 5 ==> (28 - i) / 8 == 3 && 7 - (28 - i) % 8 == 3 + i
  {
  }

  lemma StdShifts(b1: Byte, b2: Byte)
    ensures Shr(b2, 5) < Pow2(3)
    ensures (Shl(b1, 3) + Shr(b2, 5)) % TWO32 == Shl(b1, 3) + Shr(b2, 5) < Pow2(11) == 2048
  {
    ShlByte(b1, 3); ShrByte(b2, 5);
    assert Pow2(3) == 8 && Pow2(11) == 2048;
  }

  lemma ReadIdStd(w: Image)
    requires Bit(w[0], 7) != 1
    ensures ReadId(w) == Shl(w[1], 3) + Shr(w[2], 5) < Pow2(11)
  {
    FrameInfoBits(w[0]);
    StdShifts(w[1], w[2]);
  }

  lemma ReadIdBitsStd(w: Image, i: nat)
    requires Bit(w[0], 7) != 1 && i < 11
    ensures Bit(ReadId(w), i) == Bit(w[1 + (10 - i) / 8], 7 - (10 - i) % 8)
    ensures ReadId(w) < Pow2(11)
  {
    ReadIdStd(w);
    StdShifts(w[1], w[2]);
    BitOfConcat(w[1], Shr(w[2], 5), 3, i);
    if i < 3 { BitOfShr(w[2], 5, i); }
  }

  lemma CarriesIdBit(w: Image, f: Frame, p: nat)
    requires Carries(w, f) && p < IdBits(f.ext)
    ensures Bit(w[1 + p / 8], 7 - p % 8) == Bit(f.id, IdBits(f.ext) - 1 - p)
    ensures (Bit(w[0], 7) == 1 <==> f.ext) && f.id < Pow2(IdBits(f.ext))
  {
  }

  lemma ReadIdOfFrame(w: Image, f: Frame)
    requires Carries(w, f)
    ensures ReadId(w) == f.id
  {
    hide Carries, Bit, ReadId, Pow2;
    var n := IdBits(f.ext);
    CarriesIdBit(w, f, 0);
    forall i | 0 <= i < n
      ensures Bit(ReadId(w), i) == Bit(f.id, i)
    {
      if f.ext { ReadIdBitsExt(w, i); } else { ReadIdBitsStd(w, i); }
      CarriesIdBit(w, f, n - 1 - i);
    }
    if !f.ext { ReadIdBitsStd(w, 0); }
    BitsDetermine(ReadId(w), f.id, n);
  }

  lemma ReceivedFlags(w: Image, old_: Msg, flags: nat, sec: int, usec: int)
    requires PlainFlags(flags)
    ensures IsExt(Received(w, old_, flags, sec, usec)) <==> Bit(w[0], 7) == 1
    ensures IsRtr(Received(w, old_, flags, sec, usec)) <==> Bit(w[0], 6) == 1
  {
    FrameInfoBits(w[0]);
    FlagBits(flags);
    FlagBits(BitOr(flags, MSG_RTR));
    FlagBits(BitOr(flags, MSG_EXT));
    FlagBits(BitOr(BitOr(flags, MSG_RTR), MSG_EXT));
  }

  lemma ReceivedData(w: Image, old_: Msg, flags: nat, sec: int, usec: int)
    ensures var m, n := Received(w, old_, flags, sec, usec), w[0] % 16;
            && m.id == ReadId(w) && m.length == n
            && m.data[..n % 9] == w[DataBase(Bit(w[0], 7) == 1)..][..n % 9]
  {
    FrameInfoBits(w[0]);
  }

  /** What a message read says of the window, bit by bit; `flags` are the flags noted before. */
  ghost predicate ReadsAs(r: Msg, w: Image, flags: nat, sec: int, usec: int) {
    var ext, code := Bit(w[0], 7) == 1, w[0] % 16;
    && r.sec == sec && r.usec == usec && r.length == code
    && (forall i: nat :: Bit(r.flags, i) == if i == 0 then Bit(w[0], 6) else if i == 2 then Bit(w[0], 7) else Bit(flags, i))
    && r.id < Pow2(IdBits(ext))
    && (forall p: nat | p < IdBits(ext) :: Bit(r.id, p) == Bit(w[1 + (IdBits(ext) - 1 - p) / 8], 7 - (IdBits(ext) - 1 - p) % 8))
    && (forall i: nat | i < BytesCopied(code) :: r.data[i] == w[DataBase(ext) + i])
  }

  /** The data bytes copied for a length code: none too many, but for codes above 8 fewer than the frame has. */
  function BytesCopied(code: nat): (n: nat)
    requires code < 16
    ensures n <= 8
  {
    if code <= 8 then code else code - 9
  }

  lemma OrKeepsOthers(flags: nat, k: nat, i: nat)
    ensures Bit(BitOr(flags, Pow2(k)), i) == if i == k then 1 else Bit(flags, i)
  {
    BitOfOr(flags, Pow2(k), i);
    BitOfPow2(k, i);
    BitIsBinary(flags, i);
    BitIsBinary(BitOr(flags, Pow2(k)), i);
  }

  lemma FlagsReadAs(w: Image, old_: Msg, flags: nat, sec: int, usec: int, i: nat)
    requires PlainFlags(flags)
    ensures Bit(Received(w, old_, flags, sec, usec).flags, i)
         == if i == 0 then Bit(w[0], 6) else if i == 2 then Bit(w[0], 7) else Bit(flags, i)
  {
    assert Pow2(0) == MSG_RTR && Pow2(2) == MSG_EXT;
    FrameInfoBits(w[0]);
    BitIsBinary(w[0], 6);
    BitIsBinary(w[0], 7);
    BitIsBinary(flags, i);
    OrKeepsOthers(flags, 0, i);
    OrKeepsOthers(flags, 2, i);
    OrKeepsOthers(BitOr(flags, MSG_RTR), 2, i);
  }

  lemma IdReadsAs(w: Image)
    ensures var n := IdBits(Bit(w[0], 7) == 1);
            && ReadId(w) < Pow2(n)
            && forall p: nat | p < n :: Bit(ReadId(w), p) == Bit(w[1 + (n - 1 - p) / 8], 7 - (n - 1 - p) % 8)
  {
    hide Bit, ReadId, Pow2;
    var ext := Bit(w[0], 7) == 1;
    var n := IdBits(ext);
    if !ext { ReadIdBitsStd(w, 0); }
    forall p: nat | p < n ensures Bit(ReadId(w), p) == Bit(w[1 + (n - 1 - p) / 8], 7 - (n - 1 - p) % 8) {
      if ext { ReadIdBitsExt(w, p); } else { ReadIdBitsStd(w, p); }
    }
  }

  /** For every window, also with a length code above 8. */
  lemma ReceivedReadsAs(w: Image, old_: Msg, flags: nat, sec: int, usec: int)
    requires PlainFlags(flags)
    ensures var r := Received(w, old_, flags, sec, usec);
            && ReadsAs(r, w, flags, sec, usec)
            && r.cob == old_.cob && forall i :: BytesCopied(w[0] % 16) <= i < 8 ==> r.data[i] == old_.data[i]
  {
    var r, code, base := Received(w, old_, flags, sec, usec), w[0] % 16, DataBase(Bit(w[0], 7) == 1);
    ReceivedData(w, old_, flags, sec, usec);
    IdReadsAs(w);
    forall i: nat
      ensures Bit(r.flags, i) == if i == 0 then Bit(w[0], 6) else if i == 2 then Bit(w[0], 7) else Bit(flags, i)
    {
      FlagsReadAs(w, old_, flags, sec, usec, i);
    }
    FrameInfoBits(w[0]);
    assert BytesCopied(code) == code % 9;
    forall i: nat | i < BytesCopied(code) ensures r.data[i] == w[base + i] {
      assert r.data[i] == r.data[..code % 9][i] && w[base + i] == w[base..][..code % 9][i];
    }
  }

  /** Reading any window that carries a frame, with any junk in the bits that mean nothing, gives that frame. */
  lemma ReceivedSeesFrame(w: Image, f: Frame, old_: Msg, flags: nat, sec: int, usec: int)
    requires Carries(w, f) && PlainFlags(flags)
    ensures Seen(Received(w, old_, flags, sec, usec)) == f
  {
    ReceivedFlags(w, old_, flags, sec, usec);
    ReceivedData(w, old_, flags, sec, usec);
    ReadIdOfFrame(w, f);
    assert f.length % 9 == f.length;
  }

  /**
   The round trip: what comes back of a message is its identifier as far as the format has room for it,
   both format bits, the length up to eight, and that many data bytes.
   */
  lemma RoundTrip(m: Msg, w: Image, old_: Msg, flags: nat, sec: int, usec: int)
    requires m.length >= 0 && Written(w, Capped(m)) && PlainFlags(flags)
    ensures var r := Received(w, old_, flags, sec, usec);
            && r.id == m.id % Pow2(IdBits(IsExt(m))) && IsExt(r) == IsExt(m) && IsRtr(r) == IsRtr(m)
            && r.length == Min(m.length, 8) && r.data[..r.length] == m.data[..r.length]
            && r.sec == sec && r.usec == usec
  {
    hide Carries, Written;
    WrittenCarries(w, Capped(m));
    ReceivedSeesFrame(w, Wire(Capped(m)), old_, flags, sec, usec);
    ReceivedLength(w, old_, flags, sec, usec);
  }

  lemma ReceivedLength(w: Image, old_: Msg, flags: nat, sec: int, usec: int)
    ensures 0 <= Received(w, old_, flags, sec, usec).length
  {
  }

  /** So a window carries at most one frame. */
  lemma CarriesAtMostOne(w: Image, f: Frame, g: Frame)
    requires Carries(w, f) && Carries(w, g)
    ensures f == g
  {
    var m: Msg := CanMsg(0, 0, 0, 0, 0, 0, [0, 0, 0, 0, 0, 0, 0, 0]);
    BitOfZero(0);
    BitOfZero(2);
    ReceivedSeesFrame(w, f, m, 0, 0, 0);
    ReceivedSeesFrame(w, g, m, 0, 0, 0);
  }

  /** A received identifier is never the error marker. */
  lemma ReceivedIsNoError(w: Image)
    ensures ReadId(w) != ERROR_ID
  {
    Pow2Values();
  }
}
