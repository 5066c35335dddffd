/** The power-of-two macros of include/eoblock_defs.h on 64-bit words. A word is a number below
    [WORD], and the bitwise operators are given bit by bit. */
module PowerOfTwo {
  const WORD: nat := 0x1_0000_0000_0000_0000

  type U64 = w: int | 0 <= w < WORD

  function Pow2(k: nat): (p: nat)
    ensures p > 0
  {
    if k == 0 then 1 else 2 * Pow2(k - 1)
  }

  function And(x: nat, y: nat): nat {
    if x == 0 || y == 0 then 0 else (if x % 2 == 1 && y % 2 == 1 then 1 else 0) + 2 * And(x / 2, y / 2)
  }

  function Or(x: nat, y: nat): nat {
    if x == 0 && y == 0 then 0 else (if x % 2 == 1 || y % 2 == 1 then 1 else 0) + 2 * Or(x / 2, y / 2)
  }

  /** Subtraction and addition that wrap around. */
  function Minus(x: U64, y: U64): U64 {
    if y <= x then x - y else x - y + WORD
  }

  function Plus(x: nat, y: nat): U64 {
    (x + y) % WORD
  }

  // ---- The macros ----

  /** `P2ROUNDUP`. */
  function RoundUp(x: U64, align: U64): U64 {
    Plus(Or(Minus(x, 1), Minus(align, 1)), 1)
  }

  /** `P2PHASE`. */
  function Phase(x: U64, align: U64): nat {
    And(x, Minus(align, 1))
  }

  /** `P2NPHASE`. */
  function NPhase(x: U64, align: U64): nat {
    And(Minus(0, x), Minus(align, 1))
  }

  /** `P2ALIGN`. */
  function Align(x: U64, align: U64): nat {
    And(x, Minus(0, align))
  }

  // ---- Masks ----

  lemma AndStep(x: nat, m: nat)
    ensures And(x, 2 * m + 1) == x % 2 + 2 * And(x / 2, m)
  {
  }

  lemma OrStep(x: nat, m: nat)
    ensures Or(x, 2 * m + 1) == 1 + 2 * Or(x / 2, m)
  {
  }

  lemma {:induction false} AndMask(x: nat, k: nat)
    ensures And(x, Pow2(k) - 1) == x % Pow2(k)
  {
    hide And;
    if k == 0 {
      AndZero(x);
    } else {
      AndStep(x, Pow2(k - 1) - 1);
      AndMask(x / 2, k - 1);
      HalfMod(x, Pow2(k - 1));
    }
  }

  lemma {:induction false} OrMask(x: nat, k: nat)
    ensures Or(x, Pow2(k) - 1) == x - x % Pow2(k) + Pow2(k) - 1
  {
    hide Or;
    if k == 0 {
      OrZero(x);
    } else {
      OrStep(x, Pow2(k - 1) - 1);
      OrMask(x / 2, k - 1);
      HalfMod(x, Pow2(k - 1));
    }
  }

  lemma AndZero(x: nat)
    ensures And(x, 0) == 0
  {
  }

  lemma {:induction false} OrZero(x: nat)
    ensures Or(x, 0) == x
  {
    if x > 0 {
      OrZero(x / 2);
    }
  }

  lemma HalfMod(x: nat, p: nat)
    requires p > 0
    ensures x % (2 * p) == x % 2 + 2 * (x / 2 % p)
  {
    var q, r := x / 2 / p, x / 2 % p;
    assert x == (2 * p) * q + (2 * r + x % 2);
    DivModUnique(x, 2 * p, q, 2 * r + x % 2);
  }

  lemma {:induction false} MulGap(d: nat, a: int, b: int)
    requires a < b
    ensures d * a + d <= d * b
    decreases b - a
  {
    if a + 1 < b {
      MulGap(d, a + 1, b);
    }
  }

  lemma DivModUnique(x: nat, d: nat, q: nat, r: nat)
    requires d > 0 && x == d * q + r && r < d
    ensures x / d == q && x % d == r
  {
    var a := x / d;
    assert x == d * a + x % d;
    if a < q {
      MulGap(d, a, q);
    } else if q < a {
      MulGap(d, q, a);
    }
  }

  lemma DoubleProduct(a: nat, b: nat)
    ensures 2 * a * b == 2 * (a * b)
  {
  }

  lemma {:induction false} Pow2Add(j: nat, k: nat)
    ensures Pow2(j + k) == Pow2(j) * Pow2(k)
  {
    if j > 0 {
      Pow2Add(j - 1, k);
      DoubleProduct(Pow2(j - 1), Pow2(k));
    }
  }

  lemma {:induction false} Pow2Double(k: nat)
    ensures Pow2(k + k) == Pow2(k) * Pow2(k)
  {
    Pow2Add(k, k);
  }

  lemma Pow2Word()
    ensures Pow2(64) == WORD
  {
    assert Pow2(8) == 256;
    Pow2Double(8);
    Pow2Double(16);
    Pow2Double(32);
  }

  /** A power of two that fits a word divides the word size. */
  lemma Divides(k: nat)
    requires k < 64
    ensures Pow2(k) * Pow2(64 - k) == WORD && Pow2(k) < WORD && Pow2(64 - k) > 1
  {
    Pow2Word();
    Pow2Add(k, 64 - k);
    MulGap(Pow2(k), 1, Pow2(64 - k));
  }

  // ---- What the macros compute ----

  /** `P2ROUNDUP` is the least multiple that is not below `x`, unless that multiple is the word size. */
  lemma RoundUpLeast(x: U64, k: nat, m: nat)
    requires k < 64
    ensures Pow2(k) < WORD
    ensures var a, r := Pow2(k), RoundUp(x, Pow2(k));
      if x <= WORD - a then r % a == 0 && x <= r < x + a && (m % a == 0 && x <= m ==> r <= m)
      else r == 0
  {
    hide Or, Pow2;
    Divides(k);
    OrMask(Minus(x, 1), k);
    RoundUpNumber(x, Pow2(k), Pow2(64 - k), Or(Minus(x, 1), Pow2(k) - 1), m);
  }

  lemma RoundUpNumber(x: U64, a: nat, n: nat, z: nat, m: nat)
    requires 0 < a < WORD && n > 1 && a * n == WORD
    requires z == Minus(x, 1) - Minus(x, 1) % a + a - 1
    ensures z < WORD
    ensures var r := Plus(z, 1);
      if x <= WORD - a then r % a == 0 && x <= r < x + a && (m % a == 0 && x <= m ==> r <= m)
      else r == 0
  {
    var q := Minus(x, 1) / a;
    Quotient(Minus(x, 1), a);
    if x == 0 {
      MulGap(a, n - 1, n);
      DivModUnique(WORD - 1, a, n - 1, a - 1);
      DivModUnique(0, a, 0, 0);
    } else {
      RoundUpQuotient(x, a, n, q);
      if x <= WORD - a && m % a == 0 && x <= m {
        LeastMultiple(x, a, q, m);
      }
    }
  }

  lemma Quotient(y: nat, a: nat)
    requires a > 0
    ensures y == a * (y / a) + y % a && 0 <= y % a < a
  {
  }

  lemma RoundUpQuotient(x: U64, a: nat, n: nat, q: nat)
    requires 0 < x && 0 < a && n > 1 && a * n == WORD && a * q <= x - 1 < a * q + a
    ensures a * q + a <= WORD && (a * q + a == WORD <==> x > WORD - a)
    ensures (a * q + a) % a == 0
  {
    if q >= n {
      if q > n { MulGap(a, n, q); }
    } else if q < n - 1 {
      MulGap(a, q + 1, n);
      MulGap(a, q, q + 1);
    }
    DivModUnique(a * q + a, a, q + 1, 0);
  }

  lemma LeastMultiple(x: nat, a: nat, q: nat, m: nat)
    requires 0 < a && a * q <= x - 1 && m % a == 0 && x <= m
    ensures a * q + a <= m
  {
    var j := m / a;
    assert m == a * j;
    if j < q { MulGap(a, j, q); }
    if q < j { MulGap(a, q, j); }
  }

  /** `P2PHASE` is the remainder, and `P2NPHASE` what is missing to the next multiple. */
  lemma PhaseParts(x: U64, k: nat)
    requires k < 64
    ensures Pow2(k) < WORD
    ensures var a := Pow2(k);
      Phase(x, a) == x % a && 0 <= NPhase(x, a) < a && (x + NPhase(x, a)) % a == 0
  {
    hide And, Pow2;
    Divides(k);
    AndMask(x, k);
    AndMask(Minus(0, x), k);
    MissingPart(x, Pow2(k), Pow2(64 - k));
  }

  lemma MissingPart(x: U64, a: nat, n: nat)
    requires 0 < a && a * n == WORD
    ensures 0 <= Minus(0, x) % a < a && (x + Minus(0, x) % a) % a == 0
  {
    if x == 0 {
      DivModUnique(0, a, 0, 0);
    } else {
      var y := WORD - x;
      Quotient(y, a);
      assert a * n - a * (y / a) == a * (n - y / a);
      if y / a > n { MulGap(a, n, y / a); }
      DivModUnique(x + y % a, a, n - y / a, 0);
    }
  }

  lemma AndEven(x: nat, m: nat)
    ensures And(x, 2 * m) == 2 * And(x / 2, m)
  {
  }

  lemma {:induction false} AndHigh(x: nat, n: nat, k: nat)
    requires k <= n && x < Pow2(n)
    ensures Pow2(k) <= Pow2(n) && And(x, Pow2(n) - Pow2(k)) == x - x % Pow2(k)
  {
    hide And;
    if k == 0 {
      AndMask(x, n);
      DivModUnique(x, Pow2(n), 0, x);
    } else {
      AndHigh(x / 2, n - 1, k - 1);
      AndEven(x, Pow2(n - 1) - Pow2(k - 1));
      HalfMod(x, Pow2(k - 1));
    }
  }

  /** `P2ALIGN` is the greatest multiple that is not above `x`. */
  lemma AlignDown(x: U64, k: nat)
    requires k < 64
    ensures Pow2(k) < WORD && Align(x, Pow2(k)) == x - x % Pow2(k)
  {
    hide And, Pow2;
    Divides(k);
    Pow2Word();
    AndHigh(x, 64, k);
  }
}
