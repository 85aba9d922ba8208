/** Bitwise operations of an unsigned machine word, on natural numbers. A word of width w holds the
    numbers below Pow2(w). */
module Bits {

  function Pow2(n: nat): (p: nat)
    ensures p >= 1
  {
    if n == 0 then 1 else 2 * Pow2(n - 1)
  }

  function BitAnd(x: nat, y: nat): nat {
    if x == 0 || y == 0 then 0 else (x % 2) * (y % 2) + 2 * BitAnd(x / 2, y / 2)
  }

  function BitOr(x: nat, y: nat): nat {
    if x == 0 then y
    else if y == 0 then x
    else (if x % 2 + y % 2 > 0 then 1 else 0) + 2 * BitOr(x / 2, y / 2)
  }

  /** x << n in a word of width w: bits shifted out at the top are lost. */
  function ShiftLeft(w: nat, x: nat, n: nat): nat {
    x * Pow2(n) % Pow2(w)
  }

  /** ~x in a word of width w. */
  function Complement(w: nat, x: nat): nat
    requires x < Pow2(w)
  {
    Pow2(w) - 1 - x
  }

  /** The least c with n <= 2^c: the integer value of ceil(log2(n)). */
  function CeilLog2(n: nat): (c: nat)
    requires n >= 1
    ensures n <= Pow2(c)
    ensures c > 0 ==> Pow2(c - 1) < n
  {
    if n == 1 then 0 else 1 + CeilLog2((n + 1) / 2)
  }

  /** The greatest c with 2^c <= n: the integer value of floor(log2(n)). */
  function FloorLog2(n: nat): (c: nat)
    requires n >= 1
    ensures Pow2(c) <= n < Pow2(c + 1)
  {
    if n == 1 then 0 else 1 + FloorLog2(n / 2)
  }

  lemma {:induction false} Pow2Monotone(a: nat, b: nat)
    requires a <= b
    ensures Pow2(a) <= Pow2(b)
    ensures a < b ==> Pow2(a) < Pow2(b)
  {
    if a < b { Pow2Monotone(a, b - 1); }
  }

  lemma {:induction false} Pow2Add(a: nat, b: nat)
    ensures Pow2(a + b) == Pow2(a) * Pow2(b)
  {
    if a > 0 { Pow2Add(a - 1, b); }
  }

  lemma {:induction false} Pow2Exceeds(n: nat)
    ensures n < Pow2(n)
  {
    if n > 0 { Pow2Exceeds(n - 1); }
  }

  /** Uniqueness of quotient and remainder. */
  lemma DivisionUnique(q: int, m: int, r: int)
    requires m > 0 && 0 <= r < m
    ensures (q * m + r) % m == r && (q * m + r) / m == q
  {
    var x := q * m + r;
    var k := x / m - q;
    assert m * k == r - x % m by {
      assert x == m * (x / m) + x % m;
      assert m * (x / m - q) == m * (x / m) - m * q;
    }
    assert k >= 1 ==> m * k >= m;
    assert k <= -1 ==> m * k <= -m;
  }

  lemma SmallMod(x: nat, m: nat)
    requires x < m
    ensures x % m == x
  {}

  lemma ModPlusMultiple(a: int, m: int, y: int)
    requires m > 0
    ensures (a * m + y) % m == y % m
  {
    assert a * m + y == (a + y / m) * m + y % m by {
      assert y == (y / m) * m + y % m;
      assert (a + y / m) * m == a * m + (y / m) * m;
    }
    DivisionUnique(a + y / m, m, y % m);
  }

  /** The n lowest bits of x. */
  function LowBits(x: nat, n: nat): nat {
    if n == 0 then 0 else x % 2 + 2 * LowBits(x / 2, n - 1)
  }

  lemma {:induction false} LowBitsSplit(x: nat, n: nat) returns (q: nat)
    ensures x == q * Pow2(n) + LowBits(x, n) && LowBits(x, n) < Pow2(n)
  {
    if n == 0 {
      q := x;
    } else {
      q := LowBitsSplit(x / 2, n - 1);
      assert q * Pow2(n) == 2 * (q * Pow2(n - 1));
    }
  }

  lemma {:induction false} LowBitsIsMod(x: nat, n: nat)
    ensures LowBits(x, n) == x % Pow2(n)
  {
    var q := LowBitsSplit(x, n);
    DivisionUnique(q, Pow2(n), LowBits(x, n));
  }

  lemma {:induction false} LowBitsOfSmall(x: nat, n: nat)
    requires x < Pow2(n)
    ensures LowBits(x, n) == x
  {
    if n > 0 { LowBitsOfSmall(x / 2, n - 1); }
  }

  lemma AndWithEven(x: nat, half: nat)
    ensures BitAnd(x, 2 * half) == 2 * BitAnd(x / 2, half)
  {
    assert (2 * half) / 2 == half && (2 * half) % 2 == 0;
  }

  lemma AndWithOdd(x: nat, half: nat)
    ensures BitAnd(x, 2 * half + 1) == x % 2 + 2 * BitAnd(x / 2, half)
  {
    assert (2 * half + 1) / 2 == half && (2 * half + 1) % 2 == 1;
  }

  lemma {:induction false} AndLowBits(x: nat, n: nat)
    ensures BitAnd(x, Pow2(n) - 1) == LowBits(x, n)
  {
    if n > 0 {
      AndLowBits(x / 2, n - 1);
      AndWithOdd(x, Pow2(n - 1) - 1);
    }
  }

  lemma {:induction false} AndAllBits(w: nat, x: nat)
    requires x < Pow2(w)
    ensures BitAnd(x, Pow2(w) - 1) == x
  {
    AndLowBits(x, w);
    LowBitsOfSmall(x, w);
  }

  lemma {:induction false} AndNoBits(w: nat, x: nat)
    requires x < Pow2(w)
    ensures BitAnd(x, Complement(w, Pow2(w) - 1)) == x - LowBits(x, w) == 0
  {
    LowBitsOfSmall(x, w);
  }

  lemma {:induction false} AndHighBits(w: nat, x: nat, n: nat)
    requires n <= w && x < Pow2(w)
    ensures Pow2(n) <= Pow2(w)
    ensures BitAnd(x, Complement(w, Pow2(n) - 1)) == x - LowBits(x, n)
  {
    Pow2Monotone(n, w);
    if n == 0 {
      AndAllBits(w, x);
    } else if n == w {
      AndNoBits(w, x);
    } else {
      AndHighBits(w - 1, x / 2, n - 1);
      AndHighBitsStep(w, x, n, Complement(w - 1, Pow2(n - 1) - 1));
    }
  }

  lemma {:induction false} AndHighBitsStep(w: nat, x: nat, n: nat, mask: nat)
    requires 0 < n < w && x < Pow2(w) && Pow2(n - 1) <= Pow2(w - 1) && mask == Complement(w - 1, Pow2(n - 1) - 1)
    requires BitAnd(x / 2, mask) == x / 2 - LowBits(x / 2, n - 1)
    ensures Pow2(n) <= Pow2(w) && BitAnd(x, Complement(w, Pow2(n) - 1)) == x - LowBits(x, n)
  {
    ComplementOfMask(w, n);
    AndWithEven(x, mask);
  }

  lemma ComplementOfMask(w: nat, n: nat)
    requires 0 < n < w
    ensures Pow2(n - 1) <= Pow2(w - 1) && Pow2(n) <= Pow2(w)
    ensures Complement(w, Pow2(n) - 1) == 2 * Complement(w - 1, Pow2(n - 1) - 1)
  {
    Pow2Monotone(n - 1, w - 1);
    Pow2Monotone(n, w);
  }

  /** Masking with 2^n - 1 keeps the remainder modulo 2^n. */
  lemma AndLowMask(x: nat, n: nat)
    ensures BitAnd(x, Pow2(n) - 1) == x % Pow2(n)
  {
    AndLowBits(x, n);
    LowBitsIsMod(x, n);
  }

  /** Masking with the complement of 2^n - 1 clears the remainder modulo 2^n. */
  lemma AndHighMask(w: nat, x: nat, n: nat)
    requires n <= w && x < Pow2(w)
    ensures Pow2(n) <= Pow2(w)
    ensures BitAnd(x, Complement(w, Pow2(n) - 1)) == x - x % Pow2(n)
  {
    AndHighBits(w, x, n);
    LowBitsIsMod(x, n);
  }

  lemma OrWithEven(x: nat, y: nat)
    ensures BitOr(2 * x, y) == y % 2 + 2 * BitOr(x, y / 2)
  {
    assert (2 * x) / 2 == x && (2 * x) % 2 == 0;
  }

  function Doublings(x: nat, n: nat): nat {
    if n == 0 then x else 2 * Doublings(x, n - 1)
  }

  lemma TimesDouble(x: nat, m: nat)
    ensures x * (2 * m) == 2 * (x * m)
  {}

  lemma {:induction false} DoublingsIsProduct(x: nat, n: nat)
    ensures Doublings(x, n) == x * Pow2(n)
  {
    if n > 0 {
      DoublingsIsProduct(x, n - 1);
      TimesDouble(x, Pow2(n - 1));
    }
  }

  lemma {:induction false} OrDoublings(x: nat, y: nat, n: nat)
    requires y < Pow2(n)
    ensures BitOr(Doublings(x, n), y) == Doublings(x, n) + y
  {
    if n > 0 {
      OrDoublings(x, y / 2, n - 1);
      OrWithEven(Doublings(x, n - 1), y);
    }
  }

  /** Or-ing bits into places that are clear adds them. */
  lemma {:induction false} OrIsPlus(x: nat, y: nat, n: nat)
    requires y < Pow2(n)
    ensures BitOr(x * Pow2(n), y) == x * Pow2(n) + y
  {
    DoublingsIsProduct(x, n);
    OrDoublings(x, y, n);
  }

  /** Reducing modulo m before multiplying and reducing again changes nothing. */
  lemma ModMul(x: int, m: int, c: int)
    requires m > 0
    ensures ((x % m) * c) % m == (x * c) % m
  {
    var q, r := x / m, x % m;
    assert x * c == (q * c) * m + r * c by {
      assert x == q * m + r;
      assert (q * m + r) * c == (q * m) * c + r * c;
      assert (q * m) * c == (q * c) * m;
    }
    ModPlusMultiple(q * c, m, r * c);
  }
}
