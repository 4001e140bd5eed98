/** Powers of two, and the two bitwise operators the allocators and the hash table use on page
    numbers and hashes, over unbounded naturals. */
module Bits {

  function Pow2(k: nat): (r: nat)
    ensures r > 0
  {
    if k == 0 then 1 else 2 * Pow2(k - 1)
  }

  /** Bitwise exclusive or. */
  function Xor(a: nat, b: nat): nat
    decreases a + b
  {
    if a == 0 && b == 0 then 0
    else 2 * Xor(a / 2, b / 2) + (if a % 2 == b % 2 then 0 else 1)
  }

  /** Bitwise and. */
  function And(a: nat, b: nat): nat
    decreases a + b
  {
    if a == 0 && b == 0 then 0
    else 2 * And(a / 2, b / 2) + (if a % 2 == 1 && b % 2 == 1 then 1 else 0)
  }

  lemma MulMod(k: int, m: int)
    requires m > 0
    ensures (k * m) % m == 0
  {
    DivModUnique(k * m, m, k, 0);
  }

  lemma DivModUnique(a: int, m: int, q: int, r: int)
    requires m > 0 && 0 <= r < m && a == q * m + r
    ensures a / m == q && a % m == r
  {
    var q', r' := a / m, a % m;
    var d := q' - q;
    assert d * m == r - r' by {
      assert a == q' * m + r';
      assert (q' - q) * m == q' * m - q * m;
    }
    if d >= 1 {
      MulMonotone(1, d, m);
      assert false;
    }
    if d <= -1 {
      MulMonotone(d, -1, m);
      assert false;
    }
  }

  /** The multiple of n at or below x. */
  function RoundDown(x: nat, n: nat): nat
    requires n > 0
  {
    x - x % n
  }

  function Times(k: nat, n: nat): nat {
    k * n
  }

  lemma QuotientRest(a: nat, n: nat)
    requires n > 0
    ensures a == Times(a / n, n) + a % n && a % n < n
  {
  }

  lemma TimesSum(i: nat, j: nat, n: nat)
    ensures Times(i, n) + Times(j, n) == Times(i + j, n)
  {
  }

  lemma TimesOrder(i: nat, j: nat, n: nat)
    requires Times(i, n) <= Times(j, n) && n > 0
    ensures i <= j
  {
    if i > j { MulMonotone(j + 1, i, n); }
  }

  lemma TimesRest(k: nat, n: nat, r: nat)
    requires r < n
    ensures (Times(k, n) + r) % n == r
  {
    DivModUnique(k * n + r, n, k, r);
  }

  lemma MulMonotone(x: int, y: int, m: int)
    requires x <= y && m >= 0
    ensures x * m <= y * m
  {
  }

  lemma EvenMultiple(m: nat, j: nat)
    requires m > 0
    ensures (j * (2 * m)) % (2 * m) == 0 && (j * (2 * m) + m) % (2 * m) == m
  {
    DivModUnique(j * (2 * m), 2 * m, j, 0);
    DivModUnique(j * (2 * m) + m, 2 * m, j, m);
  }

  /** A multiple of m is a multiple of 2m or lies m above one. */
  lemma HalfAligned(p: nat, m: nat)
    requires m > 0 && p % m == 0
    ensures p % (2 * m) == 0 || (p % (2 * m) == m && p >= m && (p - m) % (2 * m) == 0)
    ensures p % (2 * m) == 0 <==> (p / m) % 2 == 0
    ensures (p + m) % m == 0
    ensures p % (2 * m) == 0 ==> (p + m) % (2 * m) == m
  {
    var k := p / m;
    var j := k / 2;
    assert p == k * m;
    assert p + m == (k + 1) * m;
    MulMod(k + 1, m);
    EvenMultiple(m, j);
    assert (2 * j) * m == j * (2 * m);
    if k % 2 == 0 {
      assert p == j * (2 * m);
    } else {
      assert (2 * j + 1) * m == (2 * j) * m + m;
      assert p - m == j * (2 * m);
    }
  }

  /** Alignment to 2m is stronger than alignment to m. */
  lemma AlignedDown(p: nat, m: nat)
    requires m > 0 && p % (2 * m) == 0
    ensures p % m == 0 && (p + m) % m == 0
  {
    var j := p / (2 * m);
    assert p == j * (2 * m) == (2 * j) * m;
    DivModUnique(p, m, 2 * j, 0);
    DivModUnique(p + m, m, 2 * j + 1, 0);
  }

  lemma DivByHalves(a: nat, m: nat)
    requires m > 0
    ensures a / (2 * m) == (a / 2) / m
    ensures a % (2 * m) == 2 * ((a / 2) % m) + a % 2
  {
    var q, r := (a / 2) / m, (a / 2) % m;
    assert a / 2 == q * m + r;
    assert a == q * (2 * m) + (2 * r + a % 2);
    DivModUnique(a, 2 * m, q, 2 * r + a % 2);
  }

  lemma {:induction false} XorZero(a: nat)
    ensures Xor(a, 0) == a
  {
    if a != 0 { XorZero(a / 2); }
  }

  lemma {:induction false} XorSymmetric(a: nat, b: nat)
    ensures Xor(a, b) == Xor(b, a)
    decreases a + b
  {
    hide Xor;
    if a != 0 || b != 0 {
      XorSymmetric(a / 2, b / 2);
      XorStep(a, b);
      XorStep(b, a);
    }
  }

  lemma {:induction false} XorCancels(a: nat, b: nat)
    ensures Xor(Xor(a, b), b) == a
    decreases a + b
  {
    hide Xor;
    if a == 0 && b == 0 {
      XorZero(0);
    } else {
      XorCancels(a / 2, b / 2);
      XorStep(a, b);
      XorStep(Xor(a, b), b);
    }
  }

  lemma {:induction false} XorBelow(a: nat, b: nat, k: nat)
    requires a < Pow2(k) && b < Pow2(k)
    ensures Xor(a, b) < Pow2(k)
  {
    hide Xor, Pow2;
    Pow2Step(k);
    if k == 0 {
      XorZero(0);
    } else {
      XorBelow(a / 2, b / 2, k - 1);
      XorStep(a, b);
    }
  }

  lemma XorStep(a: nat, b: nat)
    ensures Xor(a, b) == 2 * Xor(a / 2, b / 2) + if a % 2 == b % 2 then 0 else 1
  {
  }

  lemma XorHalves(a: nat, b: nat)
    requires b > 0 && b % 2 == 0
    ensures Xor(a, b) == 2 * Xor(a / 2, b / 2) + a % 2
  {
  }

  /** Flipping a bit of the half flips the next bit of the whole. */
  lemma FlipDoubled(a: nat, m: nat, y: int)
    requires m > 0 && y == if (a / 2 / m) % 2 == 0 then a / 2 + m else a / 2 - m
    ensures 2 * y + a % 2 == if (a / (2 * m)) % 2 == 0 then a + 2 * m else a - 2 * m
  {
    DivByHalves(a, m);
  }

  lemma XorOne(a: nat)
    ensures Xor(a, 1) == if a % 2 == 0 then a + 1 else a - 1
  {
    XorZero(a / 2);
  }

  lemma Pow2Step(k: nat)
    ensures Pow2(0) == 1 && (k > 0 ==> Pow2(k) == 2 * Pow2(k - 1))
  {
  }

  lemma {:induction false} Pow2Sum(a: nat, b: nat)
    ensures Pow2(a + b) == Pow2(a) * Pow2(b)
  {
    hide Pow2;
    Pow2Step(a + b);
    Pow2Step(b);
    if b > 0 {
      Pow2Sum(a, b - 1);
      TwiceProduct(Pow2(a), Pow2(b - 1));
    }
  }

  lemma TwiceProduct(x: nat, y: nat)
    ensures x * (2 * y) == 2 * (x * y)
  {
  }

  /** Exclusive or with one power of two flips exactly that bit. */
  lemma {:induction false} XorFlipsBit(a: nat, k: nat)
    ensures Xor(a, Pow2(k)) == if (a / Pow2(k)) % 2 == 0 then a + Pow2(k) else a - Pow2(k)
  {
    hide Xor, Pow2;
    Pow2Step(k);
    if k == 0 {
      XorOne(a);
    } else {
      XorFlipsBit(a / 2, k - 1);
      XorHalves(a, Pow2(k));
      FlipDoubled(a, Pow2(k - 1), Xor(a / 2, Pow2(k - 1)));
    }
  }

  lemma AndHalves(a: nat, b: nat)
    requires b % 2 == 1
    ensures And(a, b) == 2 * And(a / 2, b / 2) + a % 2
  {
  }

  /** And with an all-ones mask below a power of two is the remainder. */
  lemma {:induction false} AndMask(a: nat, k: nat)
    ensures And(a, Pow2(k) - 1) == a % Pow2(k)
  {
    hide And, Pow2;
    Pow2Step(k);
    if k == 0 {
      AndZero(a);
    } else {
      AndHalves(a, Pow2(k) - 1);
      AndMask(a / 2, k - 1);
      DivByHalves(a, Pow2(k - 1));
    }
  }

  lemma {:induction false} AndZero(a: nat)
    ensures And(a, 0) == 0
  {
    if a != 0 { AndZero(a / 2); }
  }
}
