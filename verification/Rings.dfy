/**
 The ring of msgq.c as a value: unbounded counts of the messages produced and consumed so far, and
 the slots.  Every test and every index is computed as the driver computes it, from the wrapping
 32-bit images of the counts, and is proved to be exact.
 */
module Rings {
  import opened Words
  import opened CanTypes

  datatype Ring = Ring(produced: nat, consumed: nat, slots: seq<Msg>)

  /** Sizes that `qcreate` can be given: a power of two whose successor still fits in an `int`. */
  ghost predicate IsRingSize(n: nat) {
    exists k: nat :: k <= 30 && n == Pow2(k)
  }

  ghost predicate Valid(r: Ring) {
    && IsRingSize(|r.slots|)
    && r.consumed <= r.produced <= r.consumed + |r.slots|
  }

  /** The number of queued messages. */
  function Len(r: Ring): int { r.produced - r.consumed }

  /** `qlen`: the difference of the two wrapped counters. */
  function QLen(r: Ring): int {
    ToInt32(ToInt32(r.produced) - ToInt32(r.consumed))
  }

  /** The test that makes `qproduce` give up. */
  predicate Full(r: Ring) {
    QLen(r) > |r.slots| - 1
  }

  /** The test that makes `qconsume` park the queue. */
  predicate Empty(r: Ring) {
    ToInt32(r.produced) == ToInt32(r.consumed)
  }

  lemma RingSizeBounds(n: nat)
    requires IsRingSize(n)
    ensures 0 < n <= Pow2(30) == 0x4000_0000
  {
    var k: nat :| k <= 30 && n == Pow2(k);
    Pow2Grows(k, 30);
    Pow2Values();
  }

  lemma MaskedIndex(size: nat, n: nat)
    requires IsRingSize(size)
    ensures And32(ToInt32(n), size - 1) == n % size < size
  {
    var k: nat :| k <= 30 && size == Pow2(k);
    assert ToInt32(n) % TWO32 == n % TWO32 by {
      var a := n + TWO31;
      assert a % TWO32 - TWO31 == n - TWO32 * (a / TWO32);
      ModOfShift(n, a / TWO32);
    }
    BitAndMask(n % TWO32, k);
    Pow2Values();
    Pow2Adds(k, 32 - k);
    ModOfMod(n, Pow2(k), Pow2(32 - k));
  }

  lemma ModOfShift(n: nat, q: int)
    ensures (n - TWO32 * q) % TWO32 == n % TWO32
  {
    DivModUnique(n - TWO32 * q, TWO32, n / TWO32 - q, n % TWO32);
  }

  lemma WrappedDifference(p: nat, c: nat)
    requires 0 <= p - c <= Pow2(30)
    ensures ToInt32(ToInt32(p) - ToInt32(c)) == p - c
  {
    Pow2Values();
    var a, b := (p + TWO31) / TWO32, (c + TWO31) / TWO32;
    assert ToInt32(p) - ToInt32(c) == p - c + TWO32 * (b - a);
    DivModUnique(p - c + TWO32 * (b - a) + TWO31, TWO32, b - a, p - c + TWO31);
  }

  /**
   The wrapping counters lose nothing: `qlen` is the number of queued messages, the full and the
   empty test are exact, and the masked index is the position modulo the size.
   */
  lemma CountersAreExact(r: Ring)
    requires Valid(r)
    ensures 0 <= QLen(r) == r.produced - r.consumed <= |r.slots|
    ensures Full(r) <==> r.produced - r.consumed == |r.slots|
    ensures Empty(r) <==> r.produced == r.consumed
  {
    RingSizeBounds(|r.slots|);
    WrappedDifference(r.produced, r.consumed);
  }

  /** `n & mask`, the slot of the message with number `n`. */
  function Index(r: Ring, n: nat): (i: nat)
    requires IsRingSize(|r.slots|)
    ensures i == n % |r.slots| < |r.slots|
  {
    MaskedIndex(|r.slots|, n);
    And32(ToInt32(n), |r.slots| - 1)
  }

  /** The queued messages, oldest first. */
  function Contents(r: Ring): (s: seq<Msg>)
    requires Valid(r)
    ensures |s| == r.produced - r.consumed
  {
    seq(r.produced - r.consumed, i requires 0 <= i => r.slots[Index(r, r.consumed + i)])
  }

  function Fill(r: Ring, m: Msg): Ring
    requires IsRingSize(|r.slots|)
  {
    r.(slots := r.slots[Index(r, r.produced) := m])
  }

  function Filled(r: Ring): Msg
    requires IsRingSize(|r.slots|)
  {
    r.slots[Index(r, r.produced)]
  }

  function Publish(r: Ring): Ring {
    r.(produced := r.produced + 1)
  }

  function Head(r: Ring): Msg
    requires IsRingSize(|r.slots|)
  {
    r.slots[Index(r, r.consumed)]
  }

  function SetHead(r: Ring, m: Msg): Ring
    requires IsRingSize(|r.slots|)
  {
    r.(slots := r.slots[Index(r, r.consumed) := m])
  }

  lemma HeadOfSetHead(r: Ring, m: Msg)
    requires IsRingSize(|r.slots|)
    ensures Head(SetHead(r, m)) == m
  {
  }

  function Advance(r: Ring): Ring {
    r.(consumed := r.consumed + 1)
  }

  lemma ModInjective(a: nat, b: nat, n: nat)
    requires n > 0 && a <= b < a + n && a % n == b % n
    ensures a == b
  {
    if a / n < b / n {
      MulMonotone(n, a / n, b / n);
    } else if b / n < a / n {
      MulMonotone(n, b / n, a / n);
    }
  }

  lemma ContentsAt(r: Ring, i: nat)
    requires Valid(r) && i < r.produced - r.consumed
    ensures Contents(r)[i] == r.slots[(r.consumed + i) % |r.slots|]
  {
  }

  /** The slot being filled and the slot being drained never coincide. */
  lemma FillAndDrainDiffer(r: Ring)
    requires Valid(r) && !Full(r) && !Empty(r)
    ensures Index(r, r.produced) != Index(r, r.consumed)
  {
    CountersAreExact(r);
    if Index(r, r.produced) == Index(r, r.consumed) {
      ModInjective(r.consumed, r.produced, |r.slots|);
    }
  }

  /** Filling the free slot disturbs no queued message. */
  lemma FillKeepsContents(r: Ring, m: Msg)
    requires Valid(r) && !Full(r)
    ensures Valid(Fill(r, m)) && Contents(Fill(r, m)) == Contents(r) && Filled(Fill(r, m)) == m
  {
    CountersAreExact(r);
    var r' := Fill(r, m);
    forall i | 0 <= i < r.produced - r.consumed
      ensures Contents(r')[i] == Contents(r)[i]
    {
      if Index(r, r.consumed + i) == Index(r, r.produced) {
        ModInjective(r.consumed + i, r.produced, |r.slots|);
      }
    }
  }

  lemma PublishAppends(r: Ring)
    requires Valid(r) && !Full(r)
    ensures Valid(Publish(r)) && Contents(Publish(r)) == Contents(r) + [Filled(r)]
  {
    CountersAreExact(r);
    var r' := Publish(r);
    forall i | 0 <= i < |Contents(r')|
      ensures Contents(r')[i] == (Contents(r) + [Filled(r)])[i]
    {
      ContentsAt(r', i);
      if i < |Contents(r)| { ContentsAt(r, i); }
    }
  }

  lemma HeadIsOldest(r: Ring)
    requires Valid(r) && !Empty(r)
    ensures |Contents(r)| > 0 && Head(r) == Contents(r)[0]
  {
    CountersAreExact(r);
  }

  /** Rewriting the head in place leaves the other messages, and a slot being filled, alone. */
  lemma SetHeadKeepsRest(r: Ring, m: Msg)
    requires Valid(r) && !Empty(r)
    ensures |Contents(r)| > 0
    ensures Valid(SetHead(r, m)) && Contents(SetHead(r, m)) == [m] + Contents(r)[1..]
    ensures !Full(r) ==> Filled(SetHead(r, m)) == Filled(r)
  {
    CountersAreExact(r);
    var r' := SetHead(r, m);
    var was := [m] + Contents(r)[1..];
    forall i | 0 <= i < |was|
      ensures Contents(r')[i] == was[i]
    {
      if i > 0 && Index(r, r.consumed + i) == Index(r, r.consumed) {
        ModInjective(r.consumed, r.consumed + i, |r.slots|);
      }
    }
    assert Contents(r') == was;
    if !Full(r) { FillAndDrainDiffer(r); }
  }

  lemma AdvanceDropsOldest(r: Ring)
    requires Valid(r) && !Empty(r)
    ensures |Contents(r)| > 0
    ensures Valid(Advance(r)) && Contents(Advance(r)) == Contents(r)[1..]
    ensures Filled(Advance(r)) == Filled(r)
  {
    CountersAreExact(r);
    var r' := Advance(r);
    forall i | 0 <= i < |Contents(r')|
      ensures Contents(r')[i] == Contents(r)[1..][i]
    {
      ContentsAt(r', i);
      ContentsAt(r, i + 1);
      assert r'.consumed + i == r.consumed + (i + 1);
    }
  }
}
