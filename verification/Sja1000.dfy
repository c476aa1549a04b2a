/**
 The register file of the SJA1000 in PeliCAN mode (sections 6.4.1 to 6.4.15 of its data sheet), and
 the codec routines of sja1000funcs.c that write and read it byte by byte.
 */
module Sja1000 {
  import opened Words
  import opened CanTypes
  import opened Codec

  const FRAME: nat := 16

  const RESET_REQUEST: nat := 1

  const FILTERS: nat := 8

  /** The bits of the interrupt register that the driver enables: receive, error warning, transmit, overrun. */
  datatype Irq = Irq(ri: bool, ei: bool, ti: bool, di: bool) {
    predicate Any() { ri || ei || ti || di }
  }

  /**
   One controller behind its bus adapter.  Registers lie `stride` bytes apart: 1 as a rule, 4 on the
   EMS CPC-PCI card.
   */
  class Chip {
    const stride: nat
    var mode: Byte
    const window: array<Byte>     // transmit buffer, registers 16 to 28 in operating mode
    const filter: array<Byte>     // acceptance code and mask, registers 16 to 23 in reset mode
    var fifo: seq<Image>          // receive FIFO; its head is what registers 16 to 28 show
    var locked: bool              // a requested frame is still in the transmit buffer
    var warn: bool                // interrupt bits: error warning, transmit, overrun
    var txint: bool
    var ovrint: bool
    var busoff: bool              // status bits: bus, error, data overrun
    var errstatus: bool
    var dos: bool
    ghost var requested: seq<Image>

    /** In reset mode there is nothing to receive. */
    ghost predicate Valid()
      reads `mode, `fifo
    {
      && (stride == 1 || stride == 4)
      && window.Length == WINDOW && filter.Length == FILTERS && window != filter
      && (InReset() ==> fifo == [])
    }

    predicate InReset()
      reads `mode
    {
      mode % 2 == 1
    }

    constructor (wide: bool)
      ensures Valid() && InReset() && stride == (if wide then 4 else 1) && fifo == [] && requested == [] && !locked
      ensures fresh(window) && fresh(filter)
    {
      stride := if wide then 4 else 1;
      mode := RESET_REQUEST;
      window := new Byte[WINDOW](_ => 0);
      filter := new Byte[FILTERS](_ => 0);
      fifo, locked, requested := [], false, [];
      warn, txint, ovrint, busoff, errstatus, dos := false, false, false, false, false, false;
    }

    /** Byte address of a register of the frame window, as the structures of sja1000.h lay it out. */
    function Address(k: nat): nat {
      stride * (FRAME + k)
    }

    /** Byte address of `canxdata[R_OFF * i]` in the extended layout and of `candata[R_OFF * i]` in the standard one. */
    function DataAddress(ext: bool, i: nat): nat {
      Address(DataBase(ext)) + stride * i
    }

    /** The register of the frame window at a byte address. */
    function Slot(address: nat): int
      requires stride > 0
    {
      address / stride - FRAME
    }

    /**
     `CANout` to a register of the frame window: in reset mode the first eight are the acceptance filter;
     otherwise they are the transmit buffer, which takes nothing while it is locked.
     */
    method Out(address: nat, b: Byte)
      requires Valid() && 0 <= Slot(address) < WINDOW
      modifies window, filter
      ensures window[..] == if InReset() || locked then old(window[..]) else old(window[..])[Slot(address) := b]
      ensures filter[..] == if InReset() && Slot(address) < FILTERS then old(filter[..])[Slot(address) := b]
                            else old(filter[..])
    {
      var k := Slot(address);
      if InReset() {
        if k < FILTERS {
          filter[k] := b;
        }
      } else if !locked {
        window[k] := b;
      }
    }

    /** `CANin` from the frame window in operating mode. */
    method In(address: nat) returns (b: Byte)
      requires Valid() && !InReset() && fifo != [] && 0 <= Slot(address) < WINDOW
      ensures b == fifo[0][Slot(address)]
    {
      b := fifo[0][Slot(address)];
    }

    /** `CANout(cancmd, CAN_TRANSMISSION_REQUEST)`; no command is taken in reset mode. */
    method RequestTransmission()
      requires Valid()
      modifies this`locked, this`requested
      ensures locked == (old(locked) || !InReset())
      ensures requested == if InReset() || old(locked) then old(requested) else old(requested) + [window[..]]
    {
      if !InReset() && !locked {
        requested := requested + [window[..]];
        locked := true;
      }
    }

    /** `CANout(cancmd, CAN_RELEASE_RECEIVE_BUFFER)` */
    method Release()
      requires Valid()
      modifies this`fifo
      ensures Valid() && fifo == if old(fifo) == [] then [] else old(fifo)[1..]
    {
      if fifo != [] {
        fifo := fifo[1..];
      }
    }

    /** `CANout(canmode, b)`; going to reset mode ends a transmission and empties the receive buffer. */
    method WriteMode(b: Byte)
      requires Valid()
      modifies this`mode, this`fifo, this`locked
      ensures Valid() && mode == b
      ensures if b % 2 == 1 then fifo == [] && !locked else fifo == old(fifo) && locked == old(locked)
    {
      mode := b;
      if b % 2 == 1 {
        fifo := [];
        locked := false;
      }
    }

    /** `CANreset(canmode, CAN_RESET_REQUEST)` */
    method LeaveReset()
      requires Valid()
      modifies this`mode
      ensures Valid() && !InReset() && mode / 2 == old(mode) / 2
    {
      mode := mode - mode % 2;
    }

    /** `CANin(canirq)`: the receive bit stands for a non-empty FIFO, the others are cleared by reading. */
    method ReadIrq() returns (src: Irq)
      requires Valid()
      modifies this`warn, this`txint, this`ovrint
      ensures src == Irq(fifo != [], old(warn), old(txint), old(ovrint))
      ensures !warn && !txint && !ovrint
    {
      src := Irq(fifo != [], warn, txint, ovrint);
      warn, txint, ovrint := false, false, false;
    }

    // ---------------------------------------------------------------- sendcanmsg and readcanmsg

    /** Frame information and identifier. */
    method StoreHeader(m: Msg)
      requires Valid() && 0 <= m.length <= 8
      modifies window, filter
      ensures !InReset() && !locked ==> WrittenHeader(window[..], m)
      ensures InReset() || locked ==> window[..] == old(window[..])
      ensures !InReset() ==> filter[..] == old(filter[..])
    {
      var tx2reg := m.length;
      if IsRtr(m) {
        RtrAboveLength(m.length);
        tx2reg := BitOr(tx2reg, CAN_RTR);
      }
      if IsExt(m) {
        Out(Address(0), CAN_EFF + tx2reg);
        Out(Address(1), Shr(m.id, 21) % 256);
        Out(Address(2), Shr(m.id, 13) % 256);
        Out(Address(3), Shr(m.id, 5) % 256);
        Out(Address(4), Shl(m.id, 3) % 256);
      } else {
        Out(Address(0), tx2reg);
        Out(Address(1), Shr(m.id, 3) % 256);
        AndBelow(Shl(m.id, 5) % 256, 0xE0);
        Out(Address(2), BitAnd(Shl(m.id, 5) % 256, 0xE0));
      }
    }

    /** The register writes of `sendcanmsg`, for a message of at most eight bytes. */
    method StoreFrame(m: Msg)
      requires Valid() && 0 <= m.length <= 8
      modifies window, filter
      ensures !InReset() && !locked ==> Written(window[..], m)
      ensures InReset() || locked ==> window[..] == old(window[..])
      ensures !InReset() ==> filter[..] == old(filter[..])
    {
      StoreHeader(m);
      var ext := IsExt(m);
      for i := 0 to m.length
        invariant InReset() || locked ==> window[..] == old(window[..])
        invariant !InReset() ==> filter[..] == old(filter[..])
        invariant !InReset() && !locked ==>
            WrittenHeader(window[..], m) && forall j :: 0 <= j < i ==> window[DataBase(ext) + j] == m.data[j]
      {
        Out(DataAddress(ext, i), m.data[i]);
      }
    }

    /** `readcanmsg` on the frame that the window shows; then the frame is released. */
    method FetchFrame(old_: Msg, flags: nat, sec: int, usec: int) returns (m: Msg)
      requires Valid() && fifo != []
      modifies this`fifo
      ensures Valid() && fifo == old(fifo)[1..]
      ensures m == Received(old(fifo)[0], old_, flags, sec, usec)
    {
      ghost var w := fifo[0];
      m := old_.(sec := sec, usec := usec, flags := flags);
      var reg := In(Address(0));
      if BitAnd(reg, CAN_RTR) != 0 {
        m := m.(flags := BitOr(m.flags, MSG_RTR));
      }
      var ext := BitAnd(reg, CAN_EFF) != 0;
      if ext {
        m := m.(flags := BitOr(m.flags, MSG_EXT));
      }
      var id := FetchId(ext);
      FrameInfoBits(w[0]);
      var dlc := BitAnd(reg, 15);
      m := m.(id := id, length := dlc);
      var data := FetchData(ext, dlc % 9, m.data);
      m := m.(data := data);
      Release();
    }

    method FetchData(ext: bool, n: nat, old_: seq<Byte>) returns (data: seq<Byte>)
      requires Valid() && fifo != [] && n <= 8 && |old_| == 8
      ensures data == fifo[0][DataBase(ext)..DataBase(ext) + n] + old_[n..]
    {
      data := old_;
      for i := 0 to n
        invariant |data| == 8 && forall j :: 0 <= j < 8 ==> data[j] == if j < i then fifo[0][DataBase(ext) + j] else old_[j]
      {
        var b := In(DataAddress(ext, i));
        data := data[i := b];
      }
    }

    method FetchId(ext: bool) returns (id: nat)
      requires Valid() && fifo != [] && (ext <==> BitAnd(fifo[0][0], CAN_EFF) != 0)
      ensures id == ReadId(fifo[0])
    {
      var b1 := In(Address(1));
      var b2 := In(Address(2));
      if ext {
        var b3 := In(Address(3));
        var b4 := In(Address(4));
        id := (Shl(b1, 21) + Shl(b2, 13) + Shl(b3, 5) + Shr(b4, 3)) % TWO32;
      } else {
        id := (Shl(b1, 3) + Shr(b2, 5)) % TWO32;
      }
    }
  }

  lemma {:induction false} AndBelow(a: nat, b: nat)
    ensures BitAnd(a, b) <= b
  {
    if a != 0 { AndBelow(a / 2, b / 2); }
  }
}
