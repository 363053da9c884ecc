/** Machine words as natural numbers.

    A w-bit word is a nat below Pow2(w).  The bitwise operators are defined bit by bit,
    from the least significant end, and the lemmas below say what the idioms of the C sources
    (masks, shifts, disjoint ors) compute as arithmetic. */
module Bits {

  function Pow2(k: nat): (r: nat)
    ensures r >= 1
  {
    if k == 0 then 1 else 2 * Pow2(k - 1)
  }

  function And(x: nat, y: nat): nat {
    if x == 0 || y == 0 then 0 else (if x % 2 == 1 && y % 2 == 1 then 1 else 0) + 2 * And(x / 2, y / 2)
  }

  function Or(x: nat, y: nat): nat
    decreases x + y
  {
    if x == 0 then y else if y == 0 then x
    else (if x % 2 == 1 || y % 2 == 1 then 1 else 0) + 2 * Or(x / 2, y / 2)
  }

  function Xor(x: nat, y: nat): nat
    decreases x + y
  {
    if x == 0 then y else if y == 0 then x
    else (if x % 2 != y % 2 then 1 else 0) + 2 * Xor(x / 2, y / 2)
  }

  function Quotient(x: nat, d: nat): nat
    requires d > 0
  {
    x / d
  }

  function Remainder(x: nat, d: nat): nat
    requires d > 0
  {
    x % d
  }

  /** `x << k` in a w-bit unsigned type. */
  function Shl(x: nat, k: nat, w: nat): nat {
    Remainder(x * Pow2(k), Pow2(w))
  }

  /** `x >> k` in an unsigned type. */
  function Shr(x: nat, k: nat): nat {
    Quotient(x, Pow2(k))
  }

  /** `~x` in a w-bit unsigned type. */
  function Not(x: nat, w: nat): nat
    requires x < Pow2(w)
  {
    Pow2(w) - 1 - x
  }

  /** The value of a w-bit two's complement word. */
  function Signed(x: nat, w: nat): int
    requires w > 0
  {
    if x < Pow2(w - 1) then x else x - Pow2(w)
  }

  function Bit(x: nat, i: nat): nat {
    Shr(x, i) % 2
  }

  lemma {:induction false} Pow2Values()
    ensures Pow2(1) == 2 && Pow2(2) == 4 && Pow2(3) == 8 && Pow2(4) == 16 && Pow2(5) == 32
    ensures Pow2(7) == 128 && Pow2(8) == 256 && Pow2(10) == 1024 && Pow2(12) == 4096
    ensures Pow2(16) == 0x1_0000 && Pow2(20) == 0x10_0000
    ensures Pow2(31) == 0x8000_0000 && Pow2(32) == 0x1_0000_0000
    ensures Pow2(63) == 0x8000_0000_0000_0000 && Pow2(64) == 0x1_0000_0000_0000_0000
  {
    Pow2Add(8, 8);
    Pow2Add(10, 10);
    Pow2Add(16, 16);
    Pow2Add(32, 32);
  }

  lemma {:induction false} Pow2Add(a: nat, b: nat)
    ensures Pow2(a + b) == Pow2(a) * Pow2(b)
  {
    if a > 0 {
      Pow2Add(a - 1, b);
    }
  }

  lemma {:induction false} Pow2Mono(a: nat, b: nat)
    requires a <= b
    ensures Pow2(a) <= Pow2(b)
    ensures a < b ==> 2 * Pow2(a) <= Pow2(b)
  {
    if a < b {
      Pow2Mono(a, b - 1);
    }
  }

  /** Quotient and remainder are determined by what they satisfy. */
  lemma {:induction false} DivModUnique(x: int, d: int, q: int, r: int)
    requires d > 0 && x == q * d + r && 0 <= r < d
    ensures x / d == q && x % d == r
  {
    var q', r' := x / d, x % d;
    assert (q - q') * d == r' - r && (q' - q) * d == r - r';
    if q > q' {
      MulMono(1, q - q', d);
    } else if q < q' {
      MulMono(1, q' - q, d);
    }
  }

  lemma {:induction false} MulMono(a: int, b: int, m: int)
    requires a <= b && m >= 0
    ensures a * m <= b * m
  {
    assert (b - a) * m >= 0;
  }

  lemma {:induction false} Distribute(a: int, b: int, m: int)
    ensures (a + b) * m == a * m + b * m
  {
  }

  lemma {:induction false} QuotientBound(x: nat, d: nat)
    requires d > 0
    ensures x / d <= x
  {
    MulMono(1, d, x / d);
  }

  lemma {:induction false} DivLess(x: nat, d: nat, q: nat)
    requires d > 0 && x < q * d
    ensures x / d < q
  {
    if x / d >= q {
      MulMono(q, x / d, d);
    }
  }

  lemma {:induction false} DivDiv(x: nat, a: nat, b: nat)
    requires a > 0 && b > 0
    ensures a * b > 0 && x / (a * b) == x / a / b
    ensures x % (a * b) == x / a % b * a + x % a
  {
    var y := x / a;
    var q := y / b;
    assert x == y * a + x % a;
    assert y == q * b + y % b;
    assert x == q * (a * b) + ((y % b) * a + x % a) by {
      assert (q * b + y % b) * a == q * (a * b) + (y % b) * a;
    }
    MulMono(y % b, b - 1, a);
    assert (b - 1) * a == a * b - a;
    DivModUnique(x, a * b, q, (y % b) * a + x % a);
  }

  /** (m * d + r) divided by d. */
  lemma {:induction false} DivMulAdd(m: nat, d: nat, r: nat)
    requires r < d
    ensures (m * d + r) / d == m && (m * d + r) % d == r
  {
    DivModUnique(m * d + r, d, m, r);
  }

  lemma {:induction false} AndZero(x: nat)
    ensures And(x, 0) == 0 && And(0, x) == 0
  {
  }

  lemma {:induction false} OrComm(x: nat, y: nat)
    ensures Or(x, y) == Or(y, x)
    decreases x + y
  {
    if x != 0 && y != 0 {
      OrComm(x / 2, y / 2);
    }
  }

  /** One unfolding of And that also holds at 0. */
  lemma {:induction false} AndStep(x: nat, y: nat)
    ensures And(x, y) == (if x % 2 == 1 && y % 2 == 1 then 1 else 0) + 2 * And(x / 2, y / 2)
  {
  }

  lemma {:induction false} OrStep(x: nat, y: nat)
    ensures Or(x, y) == (if x % 2 == 1 || y % 2 == 1 then 1 else 0) + 2 * Or(x / 2, y / 2)
  {
  }

  lemma {:induction false} XorStep(x: nat, y: nat)
    ensures Xor(x, y) == (if x % 2 != y % 2 then 1 else 0) + 2 * Xor(x / 2, y / 2)
  {
  }

  /** Or of a multiple of 2^k with a word below 2^k is their sum. */
  lemma {:induction false} OrDisjoint(hi: nat, k: nat, lo: nat)
    requires lo < Pow2(k)
    ensures Or(hi * Pow2(k), lo) == hi * Pow2(k) + lo
    ensures Or(lo, hi * Pow2(k)) == hi * Pow2(k) + lo
  {
    if k > 0 {
      var h := hi * Pow2(k - 1);
      assert hi * Pow2(k) == 2 * h;
      OrDisjoint(hi, k - 1, lo / 2);
      OrStep(2 * h, lo);
    }
    OrComm(hi * Pow2(k), lo);
  }

  /** Or-ing into low bits leaves the bits above alone, one level up from half the words. */
  lemma {:induction false} OrStepAbove(h: nat, x: nat, y: nat)
    requires Or(h + x / 2, y / 2) == h + Or(x / 2, y / 2)
    ensures Or(2 * h + x, y) == 2 * h + Or(x, y)
  {
    OrStep(2 * h + x, y);
    OrStep(x, y);
    hide Or;
    assert (2 * h + x) / 2 == h + x / 2 && (2 * h + x) % 2 == x % 2;
  }

  /** x & (2^k - 1) keeps the low k bits. */
  lemma {:induction false} AndMask(x: nat, k: nat)
    ensures And(x, Pow2(k) - 1) == x % Pow2(k)
  {
    if k > 0 {
      AndMask(x / 2, k - 1);
      AndStep(x, Pow2(k) - 1);
      hide And;
      assert (Pow2(k) - 1) % 2 == 1 && (Pow2(k) - 1) / 2 == Pow2(k - 1) - 1;
      DivDiv(x, 2, Pow2(k - 1));
    }
  }

  /** x & (((1 << j) - 1) << k) keeps the j bits from bit k on, in place. */
  lemma {:induction false} AndField(x: nat, j: nat, k: nat)
    ensures And(x, (Pow2(j) - 1) * Pow2(k)) == x / Pow2(k) % Pow2(j) * Pow2(k)
  {
    if k == 0 {
      AndMask(x, j);
    } else {
      var p, ones := Pow2(k - 1), Pow2(j) - 1;
      AndField(x / 2, j, k - 1);
      AndStep(x, 2 * (ones * p));
      TwiceProduct(ones, p);
      hide And, Pow2;
      FieldStep(x, Pow2(j), p);
    }
  }

  lemma {:induction false} FieldStep(x: nat, m: nat, p: nat)
    requires m > 0 && p > 0
    ensures 2 * p > 0 && x / (2 * p) % m * (2 * p) == 2 * (x / 2 / p % m * p)
  {
    DivDiv(x, 2, p);
    TwiceProduct(x / 2 / p % m, p);
  }

  lemma {:induction false} TwiceProduct(a: nat, b: nat)
    ensures a * (2 * b) == 2 * (a * b)
  {
  }

  /** Complementing all w bits. */
  lemma {:induction false} XorOnes(x: nat, w: nat)
    requires x < Pow2(w)
    ensures Xor(x, Pow2(w) - 1) == Pow2(w) - 1 - x
  {
    if w > 0 {
      XorOnes(x / 2, w - 1);
      XorStep(x, Pow2(w) - 1);
      hide Xor;
      assert (Pow2(w) - 1) % 2 == 1 && (Pow2(w) - 1) / 2 == Pow2(w - 1) - 1;
    }
  }

  /** The test `x & (x - 1)` singles out powers of two. */
  lemma {:induction false} PowerOfTwoTest(x: nat, k: nat)
    requires x > 0 && x % Pow2(k) == 0 && x / Pow2(k) % 2 == 1
    ensures And(x, x - 1) == 0 <==> x == Pow2(k)
  {
    PredecessorHalves(x);
    if k == 0 {
      AndSelf(x / 2);
    } else {
      DivDiv(x, 2, Pow2(k - 1));
      assert x % 2 == 0;
      hide And;
      PowerOfTwoTest(x / 2, k - 1);
    }
  }

  lemma {:induction false} PredecessorHalves(x: nat)
    requires x > 0
    ensures And(x, x - 1) == 2 * And(x / 2, if x % 2 == 1 then x / 2 else x / 2 - 1)
  {
    hide And;
    var h := x / 2;
    if x % 2 == 1 {
      AndStep(2 * h + 1, 2 * h);
      assert 2 * h / 2 == h && (2 * h + 1) / 2 == h;
    } else {
      AndStep(2 * h, 2 * h - 1);
      OddHalf(h);
    }
  }

  lemma {:induction false} OddHalf(h: nat)
    requires h > 0
    ensures (2 * h - 1) / 2 == h - 1 && (2 * h - 1) % 2 == 1
  {
  }

  lemma {:induction false} AndSelf(x: nat)
    ensures And(x, x) == x
  {
    if x != 0 {
      AndSelf(x / 2);
    }
  }

  /** The recursive operators act on each bit separately. */
  lemma {:induction false} BitOfAnd(x: nat, y: nat, i: nat)
    ensures Bit(And(x, y), i) == (if Bit(x, i) == 1 && Bit(y, i) == 1 then 1 else 0)
    decreases i
  {
    hide And, Bit;
    if i == 0 {
      BitZero(x);
      BitZero(y);
      BitZero(And(x, y));
      AndStep(x, y);
    } else {
      AndHalves(x, y);
      BitOfAnd(x / 2, y / 2, i - 1);
      BitOfHalf(x, i);
      BitOfHalf(y, i);
      BitOfHalf(And(x, y), i);
    }
  }

  lemma {:induction false} BitOfOr(x: nat, y: nat, i: nat)
    ensures Bit(Or(x, y), i) == (if Bit(x, i) == 1 || Bit(y, i) == 1 then 1 else 0)
    decreases i
  {
    hide Or, Bit;
    if i == 0 {
      BitZero(x);
      BitZero(y);
      BitZero(Or(x, y));
      OrStep(x, y);
    } else {
      OrHalves(x, y);
      BitOfOr(x / 2, y / 2, i - 1);
      BitOfHalf(x, i);
      BitOfHalf(y, i);
      BitOfHalf(Or(x, y), i);
    }
  }

  lemma {:induction false} BitOfXor(x: nat, y: nat, i: nat)
    ensures Bit(Xor(x, y), i) == (if Bit(x, i) != Bit(y, i) then 1 else 0)
    decreases i
  {
    hide Xor, Bit;
    if i == 0 {
      BitZero(x);
      BitZero(y);
      BitZero(Xor(x, y));
      XorStep(x, y);
    } else {
      XorHalves(x, y);
      BitOfXor(x / 2, y / 2, i - 1);
      BitOfHalf(x, i);
      BitOfHalf(y, i);
      BitOfHalf(Xor(x, y), i);
    }
  }

  lemma {:induction false} AndHalves(x: nat, y: nat)
    ensures And(x, y) / 2 == And(x / 2, y / 2)
  {
    AndStep(x, y);
  }

  lemma {:induction false} OrHalves(x: nat, y: nat)
    ensures Or(x, y) / 2 == Or(x / 2, y / 2)
  {
    OrStep(x, y);
  }

  lemma {:induction false} XorHalves(x: nat, y: nat)
    ensures Xor(x, y) / 2 == Xor(x / 2, y / 2)
  {
    XorStep(x, y);
  }

  lemma {:induction false} BitZero(x: nat)
    ensures Bit(x, 0) == x % 2
  {
  }

  lemma {:induction false} BitOfHalf(x: nat, i: nat)
    requires i > 0
    ensures Bit(x, i) == Bit(x / 2, i - 1)
  {
    DivDiv(x, 2, Pow2(i - 1));
  }

  /** The operators stay inside the word. */
  lemma {:induction false} OrBound(x: nat, y: nat, w: nat)
    requires x < Pow2(w) && y < Pow2(w)
    ensures Or(x, y) < Pow2(w) && Xor(x, y) < Pow2(w)
  {
    if w > 0 && x != 0 && y != 0 {
      OrBound(x / 2, y / 2, w - 1);
    }
  }
}
