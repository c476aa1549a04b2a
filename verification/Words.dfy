/**
 C integer arithmetic written out over the unbounded integers.

 The bit operators of C are defined by halving and doubling, so that every fact about them is an
 induction over the bits.  A C `int` is the signed image `ToInt32` of an unbounded count; the
 pattern that `&` works on is the same count modulo two to the thirty-second.
 */
module Words {

  type Byte = b: int | 0 <= b < 256

  const TWO31: int := 0x8000_0000
  const TWO32: int := 0x1_0000_0000
  const TWO64: int := 0x1_0000_0000_0000_0000

  /** A condition as a number. */
  function One(b: bool): nat { if b then 1 else 0 }

  function Min(a: int, b: int): int { if a <= b then a else b }

  function Pow2(k: nat): (r: int)
    ensures r > 0
  {
    if k == 0 then 1 else 2 * Pow2(k - 1)
  }

  /** Two's complement wrap-around of a 32-bit C `int`. */
  function ToInt32(x: int): (r: int)
    ensures -TWO31 <= r < TWO31
    ensures -TWO31 <= x < TWO31 ==> r == x
  {
    (x + TWO31) % TWO32 - TWO31
  }

  function BitAnd(a: nat, b: nat): nat {
    if a == 0 then 0
    else 2 * BitAnd(a / 2, b / 2) + (if a % 2 == 1 && b % 2 == 1 then 1 else 0)
  }

  function BitOr(a: nat, b: nat): nat
    decreases a + b
  {
    if a == 0 then b
    else 2 * BitOr(a / 2, b / 2) + (if a % 2 == 1 || b % 2 == 1 then 1 else 0)
  }

  /** `a & m` for an `int` pattern `a`, which may be negative, and a non-negative mask. */
  function And32(a: int, m: nat): nat {
    BitAnd(a % TWO32, m)
  }

  function Shr(x: nat, k: nat): nat {
    if k == 0 then x else Shr(x / 2, k - 1)
  }

  function Shl(x: nat, k: nat): nat {
    if k == 0 then x else 2 * Shl(x, k - 1)
  }

  /** Bit `i` of `x`, counted from the least significant one. */
  function Bit(x: nat, i: nat): nat {
    if i == 0 then x % 2 else Bit(x / 2, i - 1)
  }

  lemma MulMonotone(d: int, q: int, q': int)
    requires d > 0 && q < q'
    ensures d * q + d <= d * q'
  {
    var gap := q' - q;
    assert d * (gap - 1) >= 0;
    assert d * q' == d * q + d * gap;
  }

  lemma QuotientUnique(d: int, q: int, r: int, q': int, r': int)
    requires d > 0 && 0 <= r < d && 0 <= r' < d && d * q + r == d * q' + r'
    ensures q == q' && r == r'
  {
    if q < q' {
      MulMonotone(d, q, q');
    } else if q' < q {
      MulMonotone(d, q', q);
    }
  }

  lemma DivModUnique(a: int, d: int, q: int, r: int)
    requires d > 0 && 0 <= r < d && a == d * q + r
    ensures a / d == q && a % d == r
  {
    QuotientUnique(d, q, r, a / d, a % d);
  }

  lemma ModDouble(a: nat, p: int)
    requires p > 0
    ensures a % (2 * p) == 2 * ((a / 2) % p) + a % 2
  {
    var q, r := (a / 2) / p, (a / 2) % p;
    assert a == (2 * p) * q + (2 * r + a % 2);
    DivModUnique(a, 2 * p, q, 2 * r + a % 2);
  }

  lemma {:induction false} BitAndZero(a: nat)
    ensures BitAnd(a, 0) == 0
  {
    if a != 0 { BitAndZero(a / 2); }
  }

  /** A mask of `k` ones takes the remainder modulo two to the `k`. */
  lemma {:induction false} BitAndMask(a: nat, k: nat)
    ensures BitAnd(a, Pow2(k) - 1) == a % Pow2(k)
    decreases k
  {
    if k == 0 {
      BitAndZero(a);
    } else {
      BitAndMask(a / 2, k - 1);
      ModDouble(a, Pow2(k - 1));
      assert (Pow2(k) - 1) / 2 == Pow2(k - 1) - 1;
      if a == 0 { BitAndZero(0); }
    }
  }

  lemma {:induction false} BitAndSelfPredecessor(n: nat)
    requires n > 0 && BitAnd(n, n - 1) == 0
    ensures exists k: nat :: n == Pow2(k)
  {
    if n == 1 {
      assert n == Pow2(0);
    } else if n % 2 == 0 {
      assert (n - 1) / 2 == n / 2 - 1;
      BitAndSelfPredecessor(n / 2);
      var k: nat :| n / 2 == Pow2(k);
      assert n == Pow2(k + 1);
    } else {
      assert (n - 1) / 2 == n / 2;
      BitAndSame(n / 2);
      assert false;
    }
  }

  lemma {:induction false} BitAndSame(a: nat)
    ensures BitAnd(a, a) == a
  {
    if a != 0 { BitAndSame(a / 2); }
  }

  /** The mask of `qcreate` indexes correctly for every count exactly when the size is a power of two. */
  lemma MaskIsModuloExactlyForPowersOfTwo(size: nat)
    requires size > 0
    ensures (forall n: nat :: BitAnd(n, size - 1) == n % size) <==> exists k: nat :: size == Pow2(k)
  {
    if exists k: nat :: size == Pow2(k) {
      var k: nat :| size == Pow2(k);
      forall n: nat ensures BitAnd(n, size - 1) == n % size { BitAndMask(n, k); }
    }
    if forall n: nat :: BitAnd(n, size - 1) == n % size {
      assert BitAnd(size, size - 1) == size % size == 0;
      BitAndSelfPredecessor(size);
    }
  }

  lemma {:induction false} Pow2Adds(i: nat, j: nat)
    ensures Pow2(i + j) == Pow2(i) * Pow2(j)
  {
    if i != 0 {
      Pow2Adds(i - 1, j);
      assert Pow2(i + j) == 2 * Pow2(i - 1 + j);
    }
  }

  lemma Pow2Values()
    ensures Pow2(29) == 0x2000_0000 && Pow2(30) == 0x4000_0000 && Pow2(31) == TWO31 && Pow2(32) == TWO32
  {
    assert Pow2(10) == 1024;
    Pow2Adds(10, 10);
    Pow2Adds(20, 10);
    assert Pow2(30) == 2 * Pow2(29);
    assert Pow2(31) == 2 * Pow2(30);
    assert Pow2(32) == 2 * Pow2(31);
  }

  lemma {:induction false} Pow2Grows(i: nat, j: nat)
    requires i <= j
    ensures Pow2(i) <= Pow2(j)
  {
    if i < j { Pow2Grows(i, j - 1); }
  }

  /** Taking the remainder modulo a multiple first changes nothing. */
  lemma ModOfMod(n: int, d: int, m: int)
    requires d > 0 && m > 0
    ensures (n % (d * m)) % d == n % d
  {
    var e := d * m;
    var q, r := n / e, n % e;
    assert n == e * q + r;
    var q', r' := r / d, r % d;
    assert n == d * (m * q + q') + r' by {
      assert e * q == d * (m * q);
      assert d * (m * q + q') == d * (m * q) + d * q';
    }
    DivModUnique(n, d, m * q + q', r');
  }
}
