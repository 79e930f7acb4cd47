/** Option and Result, in the shape the rest of the model uses them. */
module Wrappers {
  datatype Option<+T> = None | Some(value: T)

  datatype Result<+T, +E> = Success(value: T) | Failure(error: E)
}

/** Powers of two, bit extraction and halving: the arithmetic under the tree shape. */
module Arith {
  function Pow2(k: nat): (r: nat)
    ensures r > 0
  {
    if k == 0 then 1 else 2 * Pow2(k - 1)
  }

  lemma {:induction false} Pow2Monotone(a: nat, b: nat)
    requires a <= b
    ensures Pow2(a) <= Pow2(b)
    ensures a < b ==> 2 * Pow2(a) <= Pow2(b)
    decreases b
  {
    if a < b {
      Pow2Monotone(a, b - 1);
    }
  }

  const TWO_63: nat := 0x8000_0000_0000_0000
  const TWO_64: nat := 0x1_0000_0000_0000_0000

  lemma Regroup(x: nat, y: nat)
    ensures (2 * x) * y == 2 * (x * y)
  {
  }

  lemma {:induction false} Pow2Sum(a: nat, b: nat)
    ensures Pow2(a + b) == Pow2(a) * Pow2(b)
    decreases a
  {
    if a > 0 {
      Pow2Sum(a - 1, b);
      Regroup(Pow2(a - 1), Pow2(b));
    }
  }

  lemma WordSizes()
    ensures Pow2(63) == TWO_63 && Pow2(64) == TWO_64
  {
    assert Pow2(2) == 4;
    Pow2Sum(2, 2);
    Pow2Sum(4, 4);
    Pow2Sum(8, 8);
    Pow2Sum(16, 16);
    Pow2Sum(32, 32);
  }

  /** Go's `bits.Len`: the number of bits needed to write x. */
  function BitsLen(x: nat): nat {
    if x == 0 then 0 else 1 + BitsLen(x / 2)
  }

  /** Bit i of x. For a 64-bit x every bit from position 64 on is clear, as with Go's shifts. */
  predicate Bit(x: nat, i: nat) {
    if i == 0 then x % 2 == 1 else Bit(x / 2, i - 1)
  }

  /** Go's x >> n. */
  function Shift(x: nat, n: nat): nat {
    if n == 0 then x else Shift(x / 2, n - 1)
  }

  lemma {:induction false} BitOfShift(x: nat, n: nat, i: nat)
    ensures Bit(Shift(x, n), i) == Bit(x, n + i)
    decreases n
  {
    if n != 0 {
      BitOfShift(x / 2, n - 1, i);
    }
  }

  lemma {:induction false} BitIsShift(x: nat, i: nat)
    ensures Bit(x, i) == ((x / Pow2(i)) % 2 == 1)
    decreases i
  {
    if i > 0 {
      DivStep(x, i - 1);
      BitIsShift(x / 2, i - 1);
    }
  }

  lemma DivStep(x: nat, i: nat)
    ensures x / Pow2(i + 1) == (x / 2) / Pow2(i)
  {
    var p, q := Pow2(i), (x / 2) / Pow2(i);
    var r := (x / 2) % p;
    assert x / 2 == q * p + r;
    assert x == q * (2 * p) + (2 * r + x % 2) by {
      assert q * (2 * p) == 2 * (q * p);
    }
    DivUnique(x, 2 * p, q, 2 * r + x % 2);
  }

  lemma Magnitude(e: int, d: int)
    requires d > 0
    ensures e >= 1 ==> e * d >= d
    ensures e <= -1 ==> e * d <= -d
  {
  }

  lemma DivUnique(x: nat, d: nat, q: nat, r: nat)
    requires d > 0 && r < d && x == q * d + r
    ensures x / d == q && x % d == r
  {
    var q', r' := x / d, x % d;
    assert x == q' * d + r';
    var e := q - q';
    assert e * d == r' - r by {
      assert e * d == q * d - q' * d;
    }
    Magnitude(e, d);
  }

  // ----- digits in any base -----

  function Power(base: nat, k: nat): (r: nat)
    requires base > 0
    ensures r > 0
    decreases k, base
  {
    if k == 0 then 1 else base * Power(base, k - 1)
  }

  /** The digit of n with weight base^k. */
  function DigitAt(n: nat, base: nat, k: nat): (r: nat)
    requires base > 0
    ensures r < base
  {
    (n / Power(base, k)) % base
  }

  lemma DivPower(n: nat, base: nat, k: nat)
    requires base > 0
    ensures n / Power(base, k + 1) == (n / base) / Power(base, k)
  {
    DivTwice(n, base, Power(base, k));
  }

  /** Dividing twice is dividing by the product. */
  lemma DivTwice(n: nat, b: nat, p: nat)
    requires b > 0 && p > 0
    ensures b * p > 0 && n / (b * p) == (n / b) / p
  {
    var m, low := n / b, n % b;
    var q, r := m / p, m % p;
    assert n == b * m + low;
    assert m == q * p + r;
    Recombine(n, b, m, low, p, q, r);
    DivUnique(n, b * p, q, b * r + low);
  }

  lemma Recombine(n: nat, b: nat, m: nat, low: nat, p: nat, q: nat, r: nat)
    requires n == b * m + low && low < b && m == q * p + r && r < p
    ensures n == q * (b * p) + (b * r + low) && b * r + low < b * p
  {
    Distribute(b, q * p, r);
    Exchange(b, q, p);
    Scale(b, r, p - 1);
  }

  lemma Distribute(a: nat, x: nat, y: nat)
    ensures a * (x + y) == a * x + a * y
  {
  }

  lemma Exchange(a: nat, x: nat, y: nat)
    ensures a * (x * y) == x * (a * y)
  {
  }

  lemma Scale(a: nat, x: nat, y: int)
    requires x <= y
    ensures a * x <= a * y && a * (y + 1) == a * y + a
  {
  }

  /** The higher digits of n are those of n / base. */
  lemma DigitAbove(n: nat, base: nat, k: nat)
    requires base > 0
    ensures DigitAt(n, base, 0) == n % base
    ensures DigitAt(n, base, k + 1) == DigitAt(n / base, base, k)
  {
    DivPower(n, base, k);
  }

  lemma BelowPower(n: nat, base: nat, k: nat)
    requires base > 0
    ensures n < Power(base, k + 1) <==> n / base < Power(base, k)
  {
    var p, q := Power(base, k), n / base;
    assert n == base * q + n % base;
    if q < p {
      Scale(base, q, p - 1);
    } else {
      Scale(base, p, q);
    }
  }

  ghost predicate SameBits(x: nat, y: nat, m: nat) {
    forall i: nat :: i < m ==> Bit(x, i) == Bit(y, i)
  }

  lemma SameBitsStep(x: nat, y: nat, m: nat)
    ensures SameBits(x, y, m + 1) <==> x % 2 == y % 2 && SameBits(x / 2, y / 2, m)
  {
    if SameBits(x, y, m + 1) {
      assert Bit(x, 0) == Bit(y, 0);
      forall i: nat | i < m ensures Bit(x / 2, i) == Bit(y / 2, i) {
        assert Bit(x, i + 1) == Bit(y, i + 1);
      }
    }
    if x % 2 == y % 2 && SameBits(x / 2, y / 2, m) {
      forall i: nat | i < m + 1 ensures Bit(x, i) == Bit(y, i) {
        if i > 0 { assert Bit(x / 2, i - 1) == Bit(y / 2, i - 1); }
      }
    }
  }

  /** Two numbers agree on their low m bits exactly when they are congruent modulo 2^m. */
  lemma {:induction false} LowBits(x: nat, y: nat, m: nat)
    ensures SameBits(x, y, m) <==> x % Pow2(m) == y % Pow2(m)
    decreases m
  {
    if m != 0 {
      ModStep(x, m - 1);
      ModStep(y, m - 1);
      SameBitsStep(x, y, m - 1);
      LowBits(x / 2, y / 2, m - 1);
    }
  }

  lemma ModStep(x: nat, m: nat)
    ensures x % Pow2(m + 1) == x % 2 + 2 * ((x / 2) % Pow2(m))
  {
    var p := Pow2(m);
    var q, r := (x / 2) / p, (x / 2) % p;
    assert x == q * (2 * p) + (2 * r + x % 2) by {
      assert x / 2 == q * p + r;
      assert q * (2 * p) == 2 * (q * p);
    }
    DivUnique(x, 2 * p, q, 2 * r + x % 2);
  }

  /** `i` halved k times: the index of leaf i's ancestor at level k. */
  function Anc(i: nat, k: nat): nat {
    if k == 0 then i else Anc(i, k - 1) / 2
  }

  lemma HalveQuotient(i: nat, p: nat)
    requires p > 0
    ensures (i / p) / 2 == i / (2 * p)
    ensures i % (2 * p) == i % p + if (i / p) % 2 == 1 then p else 0
  {
    var q, e := i / p, (i / p) % 2;
    assert i == q * p + i % p;
    assert q == 2 * (q / 2) + e;
    assert q * p == (q / 2) * (2 * p) + e * p by {
      assert (2 * (q / 2) + e) * p == (q / 2) * (2 * p) + e * p;
    }
    assert e * p == if e == 1 then p else 0;
    DivUnique(i, 2 * p, q / 2, e * p + i % p);
  }

  lemma {:induction false} AncIsShift(i: nat, k: nat)
    ensures Anc(i, k) == i / Pow2(k)
    decreases k
  {
    if k != 0 {
      AncIsShift(i, k - 1);
      HalveQuotient(i, Pow2(k - 1));
    }
  }
}
