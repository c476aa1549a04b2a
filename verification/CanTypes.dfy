/** The message record that `read` and `write` carry, and the constants of can4linux.h and defs.h. */
module CanTypes {
  import opened Words

  /** `canmsg_t`.  `flags` is the bit pattern of the C `int`; the time stamp is split into its two fields. */
  datatype CanMsg = CanMsg(flags: nat, cob: int, id: nat, sec: int, usec: int, length: int, data: seq<Byte>)

  /** A message always owns its eight data bytes, whatever `length` says. */
  type Msg = m: CanMsg | |m.data| == 8
    witness CanMsg(0, 0, 0, 0, 0, 0, [0, 0, 0, 0, 0, 0, 0, 0])

  const BLANK: Msg := CanMsg(0, 0, 0, 0, 0, 0, [0, 0, 0, 0, 0, 0, 0, 0])

  const MSG_RTR: nat := 1
  const MSG_OVR: nat := 2
  const MSG_EXT: nat := 4
  const MSG_PASSIVE: nat := 16
  const MSG_BUSOFF: nat := 32
  const MSG_BOVR: nat := 128

  /** The identifier that marks an error message; no frame has it. */
  const ERROR_ID: nat := 0xFFFF_FFFF

  const MAX_CHANNELS: nat := 4

  predicate IsExt(m: Msg) { BitAnd(m.flags, MSG_EXT) != 0 }

  predicate IsRtr(m: Msg) { BitAnd(m.flags, MSG_RTR) != 0 }

  /** What a CAN frame carries, independent of the time stamp and of bytes past the length. */
  datatype Frame = Frame(id: nat, ext: bool, rtr: bool, length: int, data: seq<Byte>)
}
