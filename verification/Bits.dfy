/** What each C bit operator does to each single bit, and when bits determine a number. */
module Bits {
  import opened Words

  lemma {:induction false} BitIsBinary(x: nat, i: nat)
    ensures Bit(x, i) == 0 || Bit(x, i) == 1
  {
    if i != 0 { BitIsBinary(x / 2, i - 1); }
  }

  lemma {:induction false} BitOfZero(i: nat)
    ensures Bit(0, i) == 0
  {
    if i != 0 { BitOfZero(i - 1); }
  }

  lemma {:induction false} BitOfAnd(a: nat, b: nat, i: nat)
    ensures Bit(BitAnd(a, b), i) == 1 <==> Bit(a, i) == 1 && Bit(b, i) == 1
    decreases i
  {
    if a == 0 {
      BitOfZero(i);
    } else if i != 0 {
      BitOfAnd(a / 2, b / 2, i - 1);
      assert BitAnd(a, b) / 2 == BitAnd(a / 2, b / 2);
    }
  }

  lemma {:induction false} BitOfOr(a: nat, b: nat, i: nat)
    ensures Bit(BitOr(a, b), i) == 1 <==> Bit(a, i) == 1 || Bit(b, i) == 1
    decreases i
  {
    if a == 0 {
      BitOfZero(i);
    } else if i != 0 {
      BitOfOr(a / 2, b / 2, i - 1);
      assert BitOr(a, b) / 2 == BitOr(a / 2, b / 2);
    }
  }

  lemma {:induction false} BitOfShr(x: nat, k: nat, i: nat)
    ensures Bit(Shr(x, k), i) == Bit(x, k + i)
  {
    if k != 0 { BitOfShr(x / 2, k - 1, i); }
  }

  lemma {:induction false} BitOfShl(x: nat, k: nat, i: nat)
    ensures Bit(Shl(x, k), i) == if i < k then 0 else Bit(x, i - k)
  {
    if k != 0 && i != 0 { BitOfShl(x, k - 1, i - 1); }
  }

  /** Bits of `(a << k) + b` when `b` fits below the shift. */
  lemma {:induction false} BitOfConcat(a: nat, b: nat, k: nat, i: nat)
    requires b < Pow2(k)
    ensures Bit(Shl(a, k) + b, i) == if i < k then Bit(b, i) else Bit(a, i - k)
    decreases k
  {
    if k != 0 {
      var half := Shl(a, k - 1) + b / 2;
      assert Shl(a, k) + b == 2 * half + b % 2;
      if i != 0 {
        BitOfConcat(a, b / 2, k - 1, i - 1);
        assert (Shl(a, k) + b) / 2 == half;
      }
    }
  }

  lemma {:induction false} BitOfMod(x: nat, n: nat, i: nat)
    ensures Bit(x % Pow2(n), i) == if i < n then Bit(x, i) else 0
    decreases n
  {
    if n == 0 {
      BitOfZero(i);
    } else {
      ModDouble(x, Pow2(n - 1));
      var low := (x / 2) % Pow2(n - 1);
      assert x % Pow2(n) == 2 * low + x % 2;
      if i != 0 {
        assert (x % Pow2(n)) / 2 == low;
        BitOfMod(x / 2, n - 1, i - 1);
      }
    }
  }

  lemma {:induction false} BitOfPow2(k: nat, i: nat)
    ensures Bit(Pow2(k), i) == if i == k then 1 else 0
  {
    if k == 0 {
      if i != 0 { BitOfZero(i - 1); }
    } else if i != 0 {
      BitOfPow2(k - 1, i - 1);
    }
  }

  /** `a & (1 << k)` is non-zero exactly when bit `k` of `a` is set. */
  lemma {:induction false} SingleBitTest(a: nat, k: nat)
    ensures BitAnd(a, Pow2(k)) != 0 <==> Bit(a, k) == 1
  {
    if a == 0 {
      BitOfZero(k);
    } else if k == 0 {
      BitAndZero(a / 2);
      assert Pow2(0) / 2 == 0;
    } else {
      SingleBitTest(a / 2, k - 1);
      assert Pow2(k) / 2 == Pow2(k - 1) && Pow2(k) % 2 == 0;
    }
  }

  /** Two numbers of `n` bits with equal bits are equal. */
  lemma {:induction false} BitsDetermine(x: nat, y: nat, n: nat)
    requires x < Pow2(n) && y < Pow2(n)
    requires forall i | 0 <= i < n :: Bit(x, i) == Bit(y, i)
    ensures x == y
    decreases n
  {
    if n != 0 {
      forall i | 0 <= i < n - 1
        ensures Bit(x / 2, i) == Bit(y / 2, i)
      {
        assert Bit(x, i + 1) == Bit(y, i + 1);
      }
      BitsDetermine(x / 2, y / 2, n - 1);
      assert Bit(x, 0) == Bit(y, 0);
    }
  }

  /** `x ^ (1 << i)` */
  function Flip(x: nat, i: nat): nat {
    if i == 0 then (if x % 2 == 0 then x + 1 else x - 1) else 2 * Flip(x / 2, i - 1) + x % 2
  }

  lemma {:induction false} BitOfFlip(x: nat, i: nat, j: nat)
    ensures Bit(Flip(x, i), j) == if j == i then 1 - Bit(x, i) else Bit(x, j)
  {
    if i != 0 {
      assert Flip(x, i) / 2 == Flip(x / 2, i - 1);
      if j != 0 { BitOfFlip(x / 2, i - 1, j - 1); }
    } else {
      assert Flip(x, 0) / 2 == x / 2;
    }
  }

  lemma {:induction false} FlipFits(x: nat, i: nat, n: nat)
    requires i < n && x < Pow2(n)
    ensures Flip(x, i) < Pow2(n) && Flip(x, i) != x
  {
    if i != 0 { FlipFits(x / 2, i - 1, n - 1); }
  }
}
