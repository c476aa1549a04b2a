/**
 The queue of msgq.c in memory: wrapping C counters, a mask and an array of slots.  The unbounded
 counts behind the counters are ghost; `Snapshot` is the ring that they and the slots stand for.
 */
module MsgQueue {
  import opened Words
  import opened CanTypes
  import opened Rings

  class MsgQ {
    var produced: int
    var consumed: int
    var mask: int
    var data: array<Msg>
    var idle: bool
    var locked: bool
    ghost var made: nat
    ghost var taken: nat

    ghost predicate Counts()
      reads `produced, `consumed, `made, `taken
    {
      produced == ToInt32(made) && consumed == ToInt32(taken)
    }

    ghost predicate Ready()
      reads `produced, `consumed, `made, `taken, `mask, `data, data
    {
      Counts() && mask == data.Length - 1 && Rings.Valid(Snapshot())
    }

    ghost function Snapshot(): Ring
      reads `made, `taken, `data, data
    {
      Ring(made, taken, data[..])
    }

    ghost function Queued(): seq<Msg>
      requires Ready()
      reads `produced, `consumed, `made, `taken, `mask, `data, data
    {
      Contents(Snapshot())
    }

    lemma QueuedFits()
      requires Ready()
      ensures |Queued()| <= data.Length && data.Length > 0
    {
      RingSizeBounds(data.Length);
    }

    /** The queue of a static device record: everything zero, no slots. */
    constructor ()
      ensures Counts() && made == taken == 0 && !idle && !locked && fresh(data)
    {
      produced, consumed, mask := 0, 0, 0;
      idle, locked := false, false;
      made, taken := 0, 0;
      data := new Msg[0];
    }

    /**
     `qcreate`, where `memory` says whether `kmalloc` succeeds.  The counters keep their values from the
     last session, so the queue starts empty exactly when they were equal.
     */
    method QCreate(sz: nat, protect: bool, memory: bool) returns (ret: int)
      requires IsRingSize(sz) && Counts()
      modifies this
      ensures ret == if memory then 0 else -1
      ensures !memory ==> unchanged(this)
      ensures memory ==> fresh(data) && data.Length == sz && idle && (locked <==> protect || old(locked))
      ensures made == old(made) && taken == old(taken)
      ensures memory ==> (Ready() <==> 0 <= made - taken <= sz)
      ensures memory && Ready() ==> (Queued() == [] <==> old(produced == consumed))
    {
      if !memory {
        return -1;
      }
      data := new Msg[sz];
      mask := sz - 1;
      idle := true;
      if protect {
        locked := true;
      }
      ret := 0;
      if 0 <= made - taken <= sz { CountersAreExact(Snapshot()); }
    }

    method QLen() returns (n: int)
      requires Ready()
      ensures n == |Queued()|
    {
      CountersAreExact(Snapshot());
      n := ToInt32(produced - consumed);
    }

    method QSize() returns (n: int)
      requires Ready()
      ensures n == data.Length
    {
      n := mask + 1;
    }

    // ---------------------------------------------------------------- the steps of qproduce

    method HasRoom() returns (room: bool)
      requires Ready()
      ensures room <==> |Queued()| < data.Length
    {
      CountersAreExact(Snapshot());
      room := !(ToInt32(produced - consumed) > mask);
    }

    /** The slot that the producer hands to its callback. */
    method FreeSlot() returns (i: nat)
      requires Ready()
      ensures i < data.Length && i == Index(Snapshot(), made)
      ensures forall m: Msg :: data[..][i := m] == Fill(Snapshot(), m).slots
    {
      MaskedIndex(data.Length, made);
      i := And32(produced, mask);
    }

    method Publish()
      requires Ready() && |Queued()| < data.Length
      modifies this`produced, this`made
      ensures Ready() && Snapshot() == Rings.Publish(old(Snapshot()))
      ensures Queued() == old(Queued()) + [Filled(old(Snapshot()))]
    {
      CountersAreExact(Snapshot());
      PublishAppends(Snapshot());
      NextCounter(made);
      produced := ToInt32(produced + 1);
      made := made + 1;
    }

    /** `qproduce` with a callback that only writes the slot. */
    method QProduce(produce: Msg -> Msg) returns (ok: bool)
      requires Ready()
      modifies this`produced, this`made, data
      ensures Ready()
      ensures ok <==> |old(Queued())| < data.Length
      ensures Queued() == if ok then old(Queued()) + [produce(Filled(old(Snapshot())))] else old(Queued())
      ensures !ok ==> Snapshot() == old(Snapshot())
    {
      ok := HasRoom();
      if !ok {
        return;
      }
      CountersAreExact(Snapshot());
      FillKeepsContents(Snapshot(), produce(Filled(Snapshot())));
      var i := FreeSlot();
      data[i] := produce(data[i]);
      assert Snapshot() == Fill(old(Snapshot()), produce(Filled(old(Snapshot()))));
      Publish();
    }

    // ---------------------------------------------------------------- the steps of qconsume

    /** The emptiness test under the lock. */
    method FindOrPark() returns (found: bool)
      requires Ready()
      modifies this`idle
      ensures found <==> Queued() != []
      ensures idle == (old(idle) || !found)
    {
      CountersAreExact(Snapshot());
      found := produced != consumed;
      if !found {
        idle := true;
      }
    }

    /** The slot that the consumer hands to its callback. */
    method HeadSlot() returns (i: nat)
      requires Ready() && Queued() != []
      ensures i < data.Length && i == Index(Snapshot(), taken) && data[i] == Queued()[0]
      ensures forall m: Msg :: data[..][i := m] == SetHead(Snapshot(), m).slots
    {
      MaskedIndex(data.Length, taken);
      i := And32(consumed, mask);
    }

    method Advance()
      requires Ready() && Queued() != []
      modifies this`consumed, this`taken
      ensures Ready() && Snapshot() == Rings.Advance(old(Snapshot()))
      ensures Queued() == old(Queued())[1..]
    {
      CountersAreExact(Snapshot());
      AdvanceDropsOldest(Snapshot());
      NextCounter(taken);
      consumed := ToInt32(consumed + 1);
      taken := taken + 1;
    }
  }

  /** Counting on in a C `int` follows the unbounded count. */
  lemma NextCounter(n: nat)
    ensures ToInt32(ToInt32(n) + 1) == ToInt32(n + 1)
  {
    var q := (n + TWO31) / TWO32;
    assert ToInt32(n) + 1 + TWO31 == n + 1 + TWO31 - TWO32 * q;
    ModOfShift(n + 1 + TWO31, q);
  }
}
