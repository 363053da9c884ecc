/** 64-bit division on 32-bit words: abstract-machine/klib/src/int64.c.

    Words are nats below 2^32 and 2^64; shifts, ors and masks are the operators of Bits, and every
    addition or subtraction that can wrap is written with its modulus. */
module Int64 {
  import opened Bits
  import opened Division

  const W32: int := 0x1_0000_0000
  const W64: int := 0x1_0000_0000_0000_0000
  const HALF64: int := 0x8000_0000_0000_0000

  /** The union udwords: two words seen as one 64-bit value. */
  datatype Dwords = Dwords(low: nat, high: nat) {
    ghost predicate Valid() {
      low < W32 && high < W32
    }

    function All(): nat {
      high * W32 + low
    }

    static function Of(x: nat): (d: Dwords)
      requires x < W64
      ensures d.Valid() && d.All() == x
    {
      Dwords(x % W32, x / W32)
    }
  }

  function U64(x: int): (r: nat)
    ensures r < W64 && (0 <= x < W64 ==> r == x)
  {
    x % W64
  }

  function S64(x: nat): int {
    Signed(x, 64)
  }

  /** The top bit of a 64-bit word. */
  function TopBit(x: nat): nat {
    x / HALF64
  }

  /** `x >> 63` on a signed value: an arithmetic shift. */
  function Sar63(x: int): int {
    x / HALF64
  }

  // ----- counting zeros ---------------------------------------------------------------------

  /** r is the number of zeros above the top set bit of a. */
  ghost predicate LeadingZeros(a: nat, r: nat) {
    r <= 31 && Pow2(31 - r) <= a < Pow2(32 - r)
  }

  /** r is the number of zeros below the lowest set bit of a. */
  ghost predicate TrailingZeros(a: nat, r: nat) {
    r <= 31 && a % Pow2(r) == 0 && a / Pow2(r) % 2 == 1
  }

  /** The upper h bits of a word of 2 * h bits, and the lower h. */
  function UpperMask(h: nat): nat {
    (Pow2(h) - 1) * Pow2(h)
  }

  function LowerMask(h: nat): nat {
    Pow2(h) - 1
  }

  lemma {:induction false} FirstStage(a: nat)
    requires 0 < a < W32
    ensures ClzStage(a, a, 0, 32) && CtzStage(a, a, 0, 32)
  {
    Pow2Values();
    assert Pow2(0) == 1;
  }

  /** What every stage of the leading-zero search keeps: x is the top `2 * h` bits still in doubt. */
  ghost predicate ClzStage(a: nat, x: nat, r: nat, bits: nat) {
    bits + r <= 32 && 0 < x < Pow2(bits) && x == a / Pow2(32 - bits - r)
  }

  /** A mask over the upper half of a word of 2 * h bits. */
  lemma {:induction false} UpperHalfTest(x: nat, h: nat)
    requires x < Pow2(2 * h)
    ensures And(x, (Pow2(h) - 1) * Pow2(h)) == 0 <==> x < Pow2(h)
  {
    var p := Pow2(h);
    Pow2Add(h, h);
    AndField(x, h, h);
    UpperHalf(x, p);
  }

  lemma {:induction false} UpperHalf(x: nat, p: nat)
    requires p > 0 && x < p * p
    ensures x / p % p * p == 0 <==> x < p
  {
    DivLess(x, p, p);
    DivModUnique(x / p, p, 0, x / p);
    if x < p {
      DivModUnique(x, p, 0, x);
    } else {
      DivAtLeast(x, p);
      MulMono(1, x / p, p);
    }
  }

  lemma {:induction false} DivAtLeast(x: nat, p: nat)
    requires 0 < p <= x
    ensures x / p >= 1
  {
  }

  lemma {:induction false} ClzUpper(a: nat, x: nat, r: nat, h: nat)
    requires ClzStage(a, x, r, 2 * h) && x >= Pow2(h)
    ensures ClzStage(a, Shr(x, h), r, h)
  {
    var p := Pow2(h);
    assert x < p * p by { Pow2Add(h, h); }
    DivLess(x, p, p);
    DivAtLeast(x, p);
    var k := 32 - 2 * h - r;
    assert Pow2(32 - h - r) == Pow2(k) * p by { Pow2Add(k, h); }
    DivDiv(a, Pow2(k), p);
  }

  /** One stage: the test on the upper half either moves down h bits or skips h zeros. */
  lemma {:induction false} ClzHalve(a: nat, x: nat, r: nat, h: nat, mask: nat)
    requires ClzStage(a, x, r, 2 * h) && mask == UpperMask(h)
    ensures var t := if And(x, mask) == 0 then h else 0;
      ClzStage(a, Shr(x, h - t), r + t, h)
  {
    hide And;
    UpperHalfTest(x, h);
    if x < Pow2(h) {
      assert Shr(x, 0) == x;
      assert 32 - 2 * h - r == 32 - h - (r + h);
    } else {
      hide ClzStage, Shr;
      ClzUpper(a, x, r, h);
    }
  }

  lemma {:induction false} MaskValues()
    ensures UpperMask(16) == 0xFFFF_0000 && UpperMask(8) == 0xFF00 && UpperMask(4) == 0xF0 && UpperMask(2) == 0xC
    ensures LowerMask(16) == 0xFFFF && LowerMask(8) == 0xFF && LowerMask(4) == 0xF && LowerMask(2) == 3
  {
    Pow2Values();
  }

  method Clzsi2(a: nat) returns (r: nat)
    requires 0 < a < W32
    ensures LeadingZeros(a, r)
  {
    hide And, Shr, UpperMask, LowerMask, ClzStage, CtzStage, LeadingZeros;
    MaskValues();
    FirstStage(a);
    var x := a;
    ClzHalve(a, x, 0, 16, 0xFFFF_0000);
    var t := if And(x, 0xFFFF_0000) == 0 then 16 else 0;
    x := Shr(x, 16 - t);
    r := t;
    ClzHalve(a, x, r, 8, 0xFF00);
    t := if And(x, 0xFF00) == 0 then 8 else 0;
    x := Shr(x, 8 - t);
    r := r + t;
    ClzHalve(a, x, r, 4, 0xF0);
    t := if And(x, 0xF0) == 0 then 4 else 0;
    x := Shr(x, 4 - t);
    r := r + t;
    ClzHalve(a, x, r, 2, 0xC);
    t := if And(x, 0xC) == 0 then 2 else 0;
    x := Shr(x, 2 - t);
    r := r + t;
    ClzFinish(a, x, r);
    r := r + And((2 - x) % W32, if And(x, 2) == 0 then W32 - 1 else 0);
  }

  lemma {:induction false} ClzFinish(a: nat, x: nat, r: nat)
    requires ClzStage(a, x, r, 2)
    ensures And((2 - x) % W32, if And(x, 2) == 0 then W32 - 1 else 0) == (if x == 1 then 1 else 0)
    ensures LeadingZeros(a, if x == 1 then r + 1 else r)
  {
    ClzLast(x);
    var p := Pow2(30 - r);
    assert Pow2(2) == 4 && Pow2(31 - r) == 2 * p && Pow2(32 - r) == 4 * p;
    hide And, Pow2;
    DivisionBounds(a, p);
  }

  lemma {:induction false} DivisionBounds(a: nat, p: nat)
    requires p > 0
    ensures a / p * p <= a < a / p * p + p
  {
  }

  /** The branch-free ending. */
  lemma {:induction false} ClzLast(x: nat)
    requires 0 < x < 4
    ensures And((2 - x) % W32, if And(x, 2) == 0 then W32 - 1 else 0) == (if x == 1 then 1 else 0)
  {
    assert Pow2(1) == 2;
    assert Pow2(32) == W32 by { Pow2Values(); }
    hide And, Pow2;
    AndField(x, 1, 1);
    AndMask((2 - x) % W32, 32);
    AndZero((2 - x) % W32);
  }

  /** What every stage of the trailing-zero search keeps: a set bit lies in the low `bits` of x. */
  ghost predicate CtzStage(a: nat, x: nat, r: nat, bits: nat) {
    a % Pow2(r) == 0 && x == a / Pow2(r) && x % Pow2(bits) != 0
  }

  lemma {:induction false} CtzHalve(a: nat, x: nat, r: nat, h: nat, mask: nat)
    requires CtzStage(a, x, r, 2 * h) && mask == LowerMask(h)
    ensures var t := if And(x, mask) == 0 then h else 0;
      CtzStage(a, Shr(x, t), r + t, h)
  {
    AndMask(x, h);
    if x % Pow2(h) == 0 {
      Pow2Add(h, h);
      Pow2Add(r, h);
      DivDiv(a, Pow2(r), Pow2(h));
      DivDiv(x, Pow2(h), Pow2(h));
    } else {
      assert Shr(x, 0) == x;
    }
  }

  method Ctzsi2(a: nat) returns (r: nat)
    requires 0 < a < W32
    ensures TrailingZeros(a, r)
  {
    hide And, Shr, UpperMask, LowerMask, ClzStage, CtzStage, TrailingZeros;
    MaskValues();
    FirstStage(a);
    var x := a;
    CtzHalve(a, x, 0, 16, 0x0000_FFFF);
    var t := if And(x, 0x0000_FFFF) == 0 then 16 else 0;
    x := Shr(x, t);
    r := t;
    CtzHalve(a, x, r, 8, 0x00FF);
    t := if And(x, 0x00FF) == 0 then 8 else 0;
    x := Shr(x, t);
    r := r + t;
    CtzHalve(a, x, r, 4, 0x0F);
    t := if And(x, 0x0F) == 0 then 4 else 0;
    x := Shr(x, t);
    r := r + t;
    CtzHalve(a, x, r, 2, 0x3);
    t := if And(x, 0x3) == 0 then 2 else 0;
    x := Shr(x, t);
    r := r + t;
    CtzFinish(a, x, r);
    x := And(x, 3);
    r := r + And((2 - Shr(x, 1)) % W32, if And(x, 1) == 0 then W32 - 1 else 0);
  }

  lemma {:induction false} CtzFinish(a: nat, x: nat, r: nat)
    requires CtzStage(a, x, r, 2) && r <= 30
    ensures var y := And(x, 3);
      And((2 - Shr(y, 1)) % W32, if And(y, 1) == 0 then W32 - 1 else 0) == (if x % 2 == 1 then 0 else 1)
    ensures TrailingZeros(a, if x % 2 == 1 then r else r + 1)
  {
    assert Pow2(2) == 4 && Pow2(r + 1) == Pow2(r) * 2;
    CtzLast(x);
    hide And, Shr, Pow2;
    TopOfTwo(a, Pow2(r), x);
  }

  lemma {:induction false} TopOfTwo(a: nat, p: nat, x: nat)
    requires p > 0 && a % p == 0 && x == a / p && x % 4 != 0
    ensures x % 2 == 0 ==> a % (p * 2) == 0 && a / (p * 2) % 2 == 1
  {
    DivDiv(a, p, 2);
  }

  lemma {:induction false} CtzLast(x: nat)
    requires x % 4 != 0
    ensures var y := And(x, 3);
      And((2 - Shr(y, 1)) % W32, if And(y, 1) == 0 then W32 - 1 else 0) == (if x % 2 == 1 then 0 else 1)
  {
    assert Pow2(1) == 2 && Pow2(2) == 4;
    assert Pow2(32) == W32 by { Pow2Values(); }
    AndMask(x, 2);
    AndMask(x % 4, 1);
    assert Shr(x % 4, 1) == x % 4 / 2;
    hide And, Pow2, Shr;
    var z := (2 - x % 4 / 2) % W32;
    AndMask(z, 32);
    AndZero(z);
  }

  // ----- the shift-subtract loop --------------------------------------------------------------

  /** Doubling a word drops its top bit. */
  lemma {:induction false} DoubleWord(x: nat)
    requires x < W32
    ensures Shl(x, 1, 32) == 2 * x % W32 == x % 0x8000_0000 * Pow2(1)
  {
    assert Pow2(1) == 2 && Pow2(32) == W32 by { Pow2Values(); }
  }

  /** One bit shifted into a word from the word below it. */
  lemma {:induction false} ShiftInBit(x: nat, y: nat)
    requires x < W32 && y < W32
    ensures Or(Shl(x, 1, 32), Shr(y, 31)) == 2 * x % W32 + y / 0x8000_0000
    ensures y / 0x8000_0000 <= 1
  {
    assert Pow2(31) == 0x8000_0000 by { Pow2Values(); }
    hide Or, Shl;
    ShiftInCarry(x, y / 0x8000_0000);
  }

  lemma {:induction false} ShiftInCarry(x: nat, carry: nat)
    requires x < W32 && carry <= 1
    ensures Or(Shl(x, 1, 32), carry) == 2 * x % W32 + carry
  {
    assert Pow2(1) == 2;
    hide Or, Shl, Pow2;
    DoubleWord(x);
    OrDisjoint(x % 0x8000_0000, 1, carry);
  }

  /** Two words shifted left by one, a bit entering below. */
  lemma {:induction false} ShiftDword(x: Dwords, bit: nat, y: Dwords)
    requires x.Valid() && bit <= 1
    requires y.high == 2 * x.high % W32 + x.low / 0x8000_0000
    requires y.low == 2 * x.low % W32 + bit
    ensures y.Valid() && y.All() == (2 * x.All() + bit) % W64
    ensures x.All() / HALF64 == x.high / 0x8000_0000 <= 1
  {
    var c, hi := x.low / 0x8000_0000, x.high / 0x8000_0000;
    assert 2 * x.low % W32 == 2 * x.low - c * W32;
    assert 2 * x.high % W32 == 2 * x.high - hi * W32;
    assert 2 * x.All() + bit == hi * W64 + y.All();
    DivModUnique(2 * x.All() + bit, W64, hi, y.All());
    DivModUnique(x.All(), HALF64, hi, x.All() - hi * HALF64);
  }

  /** The pair r:q shifted left by one through its four words, the carry entering below. */
  lemma {:induction false} ShiftPair(r: Dwords, q: Dwords, carry: nat, r': Dwords, q': Dwords)
    requires r.Valid() && q.Valid() && carry <= 1
    requires r'.high == Or(Shl(r.high, 1, 32), Shr(r.low, 31)) && r'.low == Or(Shl(r.low, 1, 32), Shr(q.high, 31))
    requires q'.high == Or(Shl(q.high, 1, 32), Shr(q.low, 31)) && q'.low == Or(Shl(q.low, 1, 32), carry)
    ensures r'.Valid() && r'.All() == U64(2 * r.All() + TopBit(q.All()))
    ensures q'.Valid() && q'.All() == U64(2 * q.All() + carry)
  {
    hide Or, Shl, Shr;
    ShiftInBit(r.high, r.low);
    ShiftInBit(r.low, q.high);
    ShiftInBit(q.high, q.low);
    ShiftInCarry(q.low, carry);
    ShiftDword(q, carry, q');
    ShiftDword(r, q.high / 0x8000_0000, r');
  }

  /** The branch-free test: the sign mask of d - r - 1 says whether r >= d, given the range of r. */
  lemma {:induction false} SignMaskCompare(d: nat, r: nat)
    requires d < W64 && r < W64
    requires -HALF64 <= d - r - 1 < HALF64
    ensures Sar63(S64(U64(d - r - 1))) == (if r >= d then -1 else 0)
    ensures And(U64(if r >= d then -1 else 0), 1) == (if r >= d then 1 else 0)
    ensures U64(r - And(d, U64(if r >= d then -1 else 0))) == (if r >= d then r - d else r)
  {
    hide And, S64, Pow2;
    SignedWraps(d - r - 1);
    SignMask(d, if r >= d then -1 else 0);
  }

  /** Conversions between the signed and the unsigned view of 64 bits. */
  lemma {:induction false} SignedWraps(x: int)
    requires -HALF64 <= x < HALF64
    ensures S64(U64(x)) == x
    ensures U64(x) == if x < 0 then x + W64 else x
  {
    Pow2Values();
    if x < 0 {
      DivModUnique(x, W64, -1, x + W64);
    }
  }

  lemma {:induction false} SignMask(d: nat, s: int)
    requires d < W64 && (s == 0 || s == -1)
    ensures And(U64(s), 1) == -s
    ensures And(d, U64(s)) == if s == 0 then 0 else d
  {
    SignedWraps(s);
    Pow2Values();
    AndMask(U64(s), 1);
    AndMask(d, 64);
    AndZero(d);
  }

  /** How q, r and sr leave the case analysis: r:q is n shifted so that sr bits of n are still in q,
      and r is below the divisor.  The last conjunct is what makes the sign mask exact for
      divisors of 2^63 and more. */
  ghost predicate LoopEntry(n: nat, d: nat, q: nat, r: nat, sr: nat) {
    && n < W64 && 1 <= sr <= 63
    && r == n / Pow2(sr) && r < d < W64
    && q == n % Pow2(sr) * Pow2(64 - sr)
    && (d >= HALF64 ==> sr == 1 && n >= HALF64)
  }

  /** The loop invariant: the quotient of the bits shifted out so far is 2 * done + carry, and q
      holds the sr bits still to come above the bits done. */
  ghost predicate LoopInv(n: nat, d: nat, q: nat, r: nat, sr: nat, done: nat, carry: nat) {
    && n < W64 && sr <= 63 && carry <= 1
    && n / Pow2(sr) == (2 * done + carry) * d + r && r < d < W64
    && q == n % Pow2(sr) * Pow2(64 - sr) + done
    && done < Pow2(63 - sr)
    && (d >= HALF64 ==> sr <= 1 && n >= HALF64 && (sr == 1 ==> done == carry == 0))
  }

  /** The next bit of n leaves q at the top. */
  lemma {:induction false} NextBit(n: nat, q: nat, sr: nat, done: nat) returns (bit: nat)
    requires 1 <= sr <= 63 && n < W64
    requires q == n % Pow2(sr) * Pow2(64 - sr) + done && done < Pow2(63 - sr)
    ensures bit <= 1
    ensures n / Pow2(sr - 1) == 2 * (n / Pow2(sr)) + bit
    ensures q < W64 && q / HALF64 == bit
    ensures 2 * q % W64 == 2 * (n % Pow2(sr - 1) * Pow2(64 - sr) + done)
    ensures 2 * (n % Pow2(sr - 1) * Pow2(64 - sr)) == n % Pow2(sr - 1) * Pow2(65 - sr)
  {
    var s, p := Pow2(sr - 1), Pow2(63 - sr);
    assert 2 * s * p == HALF64 by {
      Pow2Values();
      Pow2Add(sr, 63 - sr);
    }
    assert Pow2(sr) == 2 * s && Pow2(64 - sr) == 2 * p && Pow2(65 - sr) == 4 * p;
    bit := NextBitOf(n, q, s, p, done);
  }

  /** NextBit with the powers of two named: 2 * s * p == 2^63. */
  lemma {:induction false} NextBitOf(n: nat, q: nat, s: nat, p: nat, done: nat) returns (bit: nat)
    requires s > 0 && p > 0 && 2 * s * p == HALF64
    requires q == n % (2 * s) * (2 * p) + done && done < p
    ensures bit <= 1
    ensures n / s == 2 * (n / (2 * s)) + bit
    ensures q < W64 && q / HALF64 == bit
    ensures 2 * q % W64 == 2 * (n % s * (2 * p) + done)
    ensures 2 * (n % s * (2 * p)) == n % s * (4 * p)
  {
    DivDiv(n, s, 2);
    bit := n / s % 2;
    var low := n % s;
    var t := low * (2 * p) + done;
    Expand(bit, s, low, p);
    LowPart(low, s, p, done);
    DivModUnique(q, HALF64, bit, t);
    DivModUnique(2 * q, W64, bit, 2 * t);
    TwiceProduct(low, 2 * p);
  }

  lemma {:induction false} Expand(b: nat, s: nat, low: nat, p: nat)
    ensures (b * s + low) * (2 * p) == b * (2 * s * p) + low * (2 * p)
  {
  }

  lemma {:induction false} LowPart(low: nat, s: nat, p: nat, done: nat)
    requires low < s && done < p
    ensures low * (2 * p) + done < 2 * s * p
  {
    MulMono(low + 1, s, 2 * p);
    assert (low + 1) * (2 * p) == low * (2 * p) + 2 * p;
    assert s * (2 * p) == 2 * s * p;
  }

  /** One turn of the loop, on values. */
  lemma {:induction false} LoopStep(n: nat, d: nat, q: nat, r: nat, sr: nat, done: nat, carry: nat)
    requires LoopInv(n, d, q, r, sr, done, carry) && sr >= 1
    ensures q < W64 && r < HALF64 && d < W64 && carry <= 1
    ensures var r' := 2 * r + TopBit(q);
      && r' < W64 && -HALF64 <= d - r' - 1 < HALF64
      && LoopInv(n, d, U64(2 * q + carry), if r' >= d then r' - d else r', sr - 1, 2 * done + carry, if r' >= d then 1 else 0)
  {
    var bit := NextBit(n, q, sr, done);
    var r', quot := 2 * r + bit, 2 * done + carry;
    RemainderRange(n, d, r, sr, bit, quot);
    assert quot < Pow2(64 - sr);
    CarryIn(q, carry, n % Pow2(sr - 1) * Pow2(64 - sr) + done);
    TwiceTimes(quot, d);
  }

  /** The partial remainder stays inside 64 bits, and inside the range where the sign mask is exact. */
  lemma {:induction false} RemainderRange(n: nat, d: nat, r: nat, sr: nat, bit: nat, quot: nat)
    requires n < W64 && 1 <= sr && bit <= 1 && r < d < W64
    requires n / Pow2(sr) == quot * d + r && n / Pow2(sr - 1) == 2 * (n / Pow2(sr)) + bit
    requires d >= HALF64 ==> sr == 1 && n >= HALF64 && quot == 0
    ensures 2 * r + bit < W64 && -HALF64 <= d - (2 * r + bit) - 1 < HALF64
  {
    assert quot * d >= 0;
    assert n / Pow2(sr - 1) <= n by {
      DivisionBounds(n, Pow2(sr - 1));
      MulMono(1, Pow2(sr - 1), n / Pow2(sr - 1));
    }
    if d >= HALF64 {
      assert Pow2(0) == 1;
      assert 2 * r + bit == n;
    }
  }

  /** Adding the carry to a doubled word does not carry further. */
  lemma {:induction false} CarryIn(q: nat, carry: nat, half: nat)
    requires carry <= 1 && 2 * q % W64 == 2 * half
    ensures (2 * q + carry) % W64 == 2 * half + carry
  {
    DivModUnique(2 * q + carry, W64, 2 * q / W64, 2 * half + carry);
  }

  lemma {:induction false} TwiceTimes(a: nat, d: nat)
    ensures 2 * (a * d) == 2 * a * d
    ensures (2 * a + 1) * d == 2 * (a * d) + d
  {
  }

  /** One turn of the loop, on words. */
  lemma {:induction false} LoopTurn(n: nat, d: Dwords, q: Dwords, r: Dwords, sr: nat, done: nat, carry: nat,
                 q1: Dwords, r1: Dwords, s: int, carry': nat, r': Dwords)
    requires d.Valid() && q.Valid() && r.Valid() && sr >= 1
    requires LoopInv(n, d.All(), q.All(), r.All(), sr, done, carry)
    requires r1.high == Or(Shl(r.high, 1, 32), Shr(r.low, 31)) && r1.low == Or(Shl(r.low, 1, 32), Shr(q.high, 31))
    requires q1.high == Or(Shl(q.high, 1, 32), Shr(q.low, 31)) && q1.low == Or(Shl(q.low, 1, 32), carry)
    requires s == Sar63(S64(U64(d.All() - r1.All() - 1)))
    requires carry' == And(U64(s), 1) && r'.All() == U64(r1.All() - And(d.All(), U64(s)))
    ensures q1.Valid() && LoopInv(n, d.All(), q1.All(), r'.All(), sr - 1, 2 * done + carry, carry')
  {
    hide And, Or, Shl, Shr, Pow2, S64, U64, Sar63, TopBit, LoopInv, Dwords.All;
    LoopStep(n, d.All(), q.All(), r.All(), sr, done, carry);
    ShiftPair(r, q, carry, r1, q1);
    SignMaskCompare(d.All(), r1.All());
  }

  lemma {:induction false} LoopStart(n: nat, d: nat, q: nat, r: nat, sr: nat)
    requires LoopEntry(n, d, q, r, sr)
    ensures LoopInv(n, d, q, r, sr, 0, 0)
  {
  }

  /** The loop at the end of __udivmoddi4. */
  method ShiftSubtract(n: nat, d: Dwords, q0: Dwords, r0: Dwords, sr0: nat) returns (quotient: nat, rem: nat)
    requires d.Valid() && q0.Valid() && r0.Valid()
    requires LoopEntry(n, d.All(), q0.All(), r0.All(), sr0)
    ensures quotient == n / d.All() && rem == n % d.All()
  {
    hide And, Or, Shl, Shr, Pow2, S64, U64, Sar63, LoopInv, LoopEntry, Dwords.All;
    LoopStart(n, d.All(), q0.All(), r0.All(), sr0);
    var q, r, sr, carry := q0, r0, sr0, 0;
    ghost var done := 0;
    while sr > 0
      invariant q.Valid() && r.Valid()
      invariant LoopInv(n, d.All(), q.All(), r.All(), sr, done, carry)
      decreases sr
    {
      ghost var q0, r0, c0 := q, r, carry;
      r := r.(high := Or(Shl(r.high, 1, 32), Shr(r.low, 31)));
      r := r.(low := Or(Shl(r.low, 1, 32), Shr(q.high, 31)));
      q := q.(high := Or(Shl(q.high, 1, 32), Shr(q.low, 31)));
      q := q.(low := Or(Shl(q.low, 1, 32), carry));
      ghost var r1 := r;
      var s := Sar63(S64(U64(d.All() - r.All() - 1)));
      carry := And(U64(s), 1);
      r := Dwords.Of(U64(r.All() - And(d.All(), U64(s))));
      LoopTurn(n, d, q0, r0, sr, done, c0, q, r1, s, carry, r);
      done := 2 * done + c0;
      sr := sr - 1;
    }
    LoopExit(n, d.All(), q.All(), r.All(), done, carry);
    quotient := Or(Shl(q.All(), 1, 64), carry);
    rem := r.All();
  }

  lemma {:induction false} LoopExit(n: nat, d: nat, q: nat, r: nat, done: nat, carry: nat)
    requires LoopInv(n, d, q, r, 0, done, carry)
    ensures Or(Shl(q, 1, 64), carry) == n / d && r == n % d
  {
    assert Pow2(0) == 1 && Pow2(1) == 2;
    assert n % 1 == 0 && q == done;
    assert Pow2(63) == HALF64 && Pow2(64) == W64 by { Pow2Values(); }
    hide Or, Pow2;
    DivModUnique(n, d, 2 * done + carry, r);
    assert Shl(q, 1, 64) == 2 * done;
    OrDisjoint(done, 1, carry);
  }

  // ----- setting up the loop --------------------------------------------------------------------

  /** c is the number of zeros above the top set bit of a 64-bit value. */
  ghost predicate LeadingZeros64(x: nat, c: nat) {
    c <= 63 && Pow2(63 - c) <= x < Pow2(64 - c)
  }

  lemma {:induction false} LeadingZerosOfHigh(x: Dwords, c: nat)
    requires x.Valid() && LeadingZeros(x.high, c)
    ensures LeadingZeros64(x.All(), c)
  {
    Pow2Values();
    Pow2Add(31 - c, 32);
    Pow2Add(32 - c, 32);
    MulMono(Pow2(31 - c), x.high, W32);
    MulMono(x.high + 1, Pow2(32 - c), W32);
  }

  /** Aligning the top set bits of n and d leaves a remainder below d after one more shift. */
  lemma {:induction false} AlignedEntry(n: nat, d: nat, cn: nat, cd: nat)
    requires LeadingZeros64(n, cn) && LeadingZeros64(d, cd) && cd >= cn
    ensures n < W64 && d < W64
    ensures n / Pow2(1 + cd - cn) < d
    ensures d >= HALF64 ==> 1 + cd - cn == 1 && n >= HALF64
  {
    Pow2Values();
    Pow2Mono(64 - cn, 64);
    Pow2Mono(64 - cd, 64);
    Pow2Add(63 - cd, 1 + cd - cn);
    DivLess(n, Pow2(1 + cd - cn), Pow2(63 - cd));
    if cd > 0 {
      Pow2Mono(64 - cd, 63);
    }
  }

  /** Fewer leading zeros means a larger value. */
  lemma {:induction false} FewerZerosIsLarger(n: nat, d: nat, cn: nat, cd: nat)
    requires LeadingZeros64(n, cn) && LeadingZeros64(d, cd) && cd < cn
    ensures n < d
  {
    Pow2Mono(64 - cn, 63 - cd);
  }

  /** The two halves of a word cut at bit s, as the double-word shifts recombine them. */
  lemma {:induction false} FunnelShift(hi: nat, lo: nat, s: nat)
    requires hi < W32 && lo < W32 && 1 <= s <= 31
    ensures Pow2(s) * Pow2(32 - s) == W32
    ensures Shl(lo, 32 - s, 32) == lo % Pow2(s) * Pow2(32 - s) < W32
    ensures lo / Pow2(s) < Pow2(32 - s) && hi / Pow2(s) < W32
    ensures Or(Shl(hi, 32 - s, 32), Shr(lo, s)) == hi % Pow2(s) * Pow2(32 - s) + lo / Pow2(s) < W32
  {
    hide Or, Shl, Pow2;
    ShlKeepsLow(lo, s);
    ShlKeepsLow(hi, s);
    CutWord(hi, lo, Pow2(s), Pow2(32 - s));
    OrDisjoint(hi % Pow2(s), 32 - s, lo / Pow2(s));
  }

  lemma {:induction false} CutWord(hi: nat, lo: nat, p: nat, q: nat)
    requires p > 0 && p * q == W32 && hi < W32 && lo < W32
    ensures lo / p < q && hi / p < W32 && hi % p * q + lo / p < W32
  {
    DivLess(lo, p, q);
    QuotientBound(hi, p);
    MulMono(hi % p + 1, p, q);
    Distribute(hi % p, 1, q);
  }

  lemma {:induction false} ShlKeepsLow(x: nat, s: nat)
    requires x < W32 && 1 <= s <= 31
    ensures Pow2(s) * Pow2(32 - s) == W32
    ensures Shl(x, 32 - s, 32) == x % Pow2(s) * Pow2(32 - s) < W32
  {
    assert Pow2(32) == W32 by { Pow2Values(); }
    Pow2Add(s, 32 - s);
    hide Pow2;
    MulModProduct(x, Pow2(s), Pow2(32 - s), W32);
  }

  /** Multiplying by q modulo p * q keeps the residue modulo p. */
  lemma {:induction false} MulModProduct(x: nat, p: nat, q: nat, w: nat)
    requires p > 0 && q > 0 && p * q == w
    ensures x * q % w == x % p * q < w
  {
    MulMono(x % p + 1, p, q);
    Distribute(x % p, 1, q);
    DivisionParts(x, p, q);
    DivModUnique(x * q, w, x / p, x % p * q);
  }

  lemma {:induction false} DivisionParts(x: nat, p: nat, q: nat)
    requires p > 0
    ensures x * q == x / p * (p * q) + x % p * q
  {
    var m := x / p;
    assert x == m * p + x % p;
    Distribute(m * p, x % p, q);
    assert m * p * q == m * (p * q);
  }

  /** `all >> sr` and `all << (64 - sr)` for 1 <= sr <= 31. */
  lemma {:induction false} ShortShift(n: Dwords, sr: nat, q: Dwords, r: Dwords)
    requires n.Valid() && 1 <= sr <= 31
    requires q.low == 0 && q.high == Shl(n.low, 32 - sr, 32)
    requires r.high == Shr(n.high, sr) && r.low == Or(Shl(n.high, 32 - sr, 32), Shr(n.low, sr))
    ensures q.Valid() && r.Valid()
    ensures r.All() == n.All() / Pow2(sr) && n.All() % Pow2(sr) == n.low % Pow2(sr)
    ensures q.All() == n.All() % Pow2(sr) * Pow2(64 - sr)
  {
    hide Or, Shl, Pow2;
    FunnelShift(n.high, n.low, sr);
    var p, t := Pow2(sr), Pow2(32 - sr);
    assert Pow2(64 - sr) == W32 * t by {
      Pow2Values();
      Pow2Add(32, 32 - sr);
    }
    ShortShiftParts(n.high, n.low, p, t);
    assert n.low % p * (W32 * t) == n.low % p * t * W32;
  }

  lemma {:induction false} ShortShiftParts(hi: nat, lo: nat, p: nat, t: nat)
    requires p > 0 && p * t == W32
    ensures (hi * W32 + lo) / p == hi / p * W32 + (hi % p * t + lo / p)
    ensures (hi * W32 + lo) % p == lo % p
  {
    DivisionParts(hi, p, t);
    var m := hi / p * W32 + (hi % p * t + lo / p);
    assert hi * W32 == hi * t * p;
    assert hi * t == hi / p * W32 + hi % p * t;
    assert hi * W32 + lo == m * p + lo % p by {
      assert (hi * t) * p + lo / p * p == (hi * t + lo / p) * p;
    }
    DivModUnique(hi * W32 + lo, p, m, lo % p);
  }

  /** The same for 33 <= sr <= 63. */
  lemma {:induction false} LongShift(n: Dwords, sr: nat, q: Dwords, r: Dwords)
    requires n.Valid() && 33 <= sr <= 63
    requires q.low == Shl(n.low, 64 - sr, 32)
    requires q.high == Or(Shl(n.high, 64 - sr, 32), Shr(n.low, sr - 32))
    requires r.high == 0 && r.low == Shr(n.high, sr - 32)
    ensures q.Valid() && r.Valid()
    ensures r.All() == n.All() / Pow2(sr)
    ensures q.All() == n.All() % Pow2(sr) * Pow2(64 - sr)
  {
    hide Or, Shl, Pow2;
    var s := sr - 32;
    FunnelShift(n.high, n.low, s);
    var p, t := Pow2(s), Pow2(32 - s);
    assert Pow2(sr) == W32 * p by {
      Pow2Values();
      Pow2Add(32, s);
    }
    DivDiv(n.All(), W32, p);
    DivModUnique(n.All(), W32, n.high, n.low);
    DivisionParts(n.low, p, t);
    assert (n.high % p * W32 + n.low) * t == n.high % p * t * W32 + n.low * t;
  }

  /** The same for sr == 32. */
  lemma {:induction false} WordShift(n: Dwords)
    requires n.Valid()
    ensures n.high == n.All() / Pow2(32)
    ensures n.low * W32 == n.All() % Pow2(32) * Pow2(32)
  {
    Pow2Values();
    DivModUnique(n.All(), W32, n.high, n.low);
  }

  lemma {:induction false} WordShiftParts(n: Dwords)
    requires n.Valid()
    ensures Dwords(0, n.low).All() == n.low * W32 && Dwords(n.high, 0).All() == n.high
    ensures 0 < n.All() ==> n.All() < W64
  {
  }

  /** A divisor whose low word is 0 divides the high word and leaves the low one. */
  lemma {:induction false} HighWordDivision(n: Dwords, d: Dwords)
    requires n.Valid() && d.Valid() && d.low == 0 && d.high > 0
    ensures d.All() > 0
    ensures n.All() / d.All() == n.high / d.high
    ensures n.All() % d.All() == Dwords(n.low, n.high % d.high).All()
  {
    DivModUnique(n.All(), W32, n.high, n.low);
    DivDiv(n.All(), W32, d.high);
  }

  /** A dividend that fits the low word. */
  lemma {:induction false} LowWordDividend(n: Dwords, d: Dwords)
    requires n.Valid() && d.Valid() && n.high == 0 && d.All() > 0
    ensures n.All() == n.low
    ensures d.high == 0 ==> d.All() == d.low
    ensures d.high != 0 ==> n.All() / d.All() == 0 && n.All() % d.All() == n.low
  {
    if d.high != 0 {
      DivModUnique(n.All(), d.All(), 0, n.low);
    }
  }

  lemma {:induction false} SmallerDividend(n: nat, d: nat)
    requires n < d
    ensures n / d == 0 && n % d == n
  {
    DivModUnique(n, d, 0, n);
  }

  lemma {:induction false} NonZero(d: Dwords)
    requires d.Valid() && (d.high != 0 || d.low != 0)
    ensures d.All() > 0
  {
  }

  lemma {:induction false} PowerOfTwoWord(d: nat, k: nat)
    requires 0 < d < W32 && TrailingZeros(d, k) && And(d, d - 1) == 0
    ensures d == Pow2(k)
    ensures forall x: nat :: Shr(x, k) == x / d && And(x, d - 1) == x % d
  {
    PowerOfTwoTest(d, k);
    forall x: nat ensures And(x, d - 1) == x % d {
      AndMask(x, k);
    }
  }

  /** 64-bit unsigned division with remainder.  The out-pointer `rem` of the source is the second
      result; its three groups of special cases are methods of their own. */
  method Udivmoddi4(a: nat, b: nat) returns (quotient: nat, rem: nat)
    requires a < W64 && 0 < b < W64
    ensures quotient == a / b && rem == a % b
  {
    var n, d := Dwords.Of(a), Dwords.Of(b);
    assert d.high == 0 ==> d.low != 0;
    hide Dwords.All, Dwords.Of;
    if n.high == 0 {
      LowWordDividend(n, d);
      if d.high == 0 {
        return n.low / d.low, n.low % d.low;
      }
      return 0, n.low;
    }
    if d.low == 0 {
      HighWordDivision(n, d);
      if n.low == 0 {
        return n.high / d.high, Dwords(0, n.high % d.high).All();
      }
      quotient, rem := DivideByHighWord(n, d);
    } else if d.high == 0 {
      quotient, rem := DivideByLowWord(n, d);
    } else {
      quotient, rem := DivideByDwords(n, d);
    }
  }

  /** The tests `sr > 30` and `sr > 31` on the wrapped difference catch exactly the dividends
      below the divisor. */
  lemma {:induction false} ShiftOutOfRange(n: Dwords, d: Dwords, cn: nat, cd: nat)
    requires n.Valid() && d.Valid() && LeadingZeros(n.high, cn) && LeadingZeros(d.high, cd)
    requires cd < cn
    ensures d.All() > 0 && n.All() / d.All() == 0 && n.All() % d.All() == n.All()
  {
    LeadingZerosOfHigh(n, cn);
    LeadingZerosOfHigh(d, cd);
    hide Dwords.All;
    FewerZerosIsLarger(n.All(), d.All(), cn, cd);
    SmallerDividend(n.All(), d.All());
  }

  lemma {:induction false} NoShiftOf31(d: nat, cd: nat)
    requires LeadingZeros(d, cd) && And(d, d - 1) != 0
    ensures cd <= 30
  {
    assert Pow2(0) == 1 && Pow2(1) == 2 && And(1, 0) == 0;
  }

  /** Shifts by at most 32 set up the loop when both words of the divisor count. */
  lemma {:induction false} ShortEntry(n: Dwords, d: Dwords, cn: nat, cd: nat, sr: nat, q: Dwords, r: Dwords)
    requires n.Valid() && d.Valid() && LeadingZeros(n.high, cn) && LeadingZeros(d.high, cd)
    requires cd >= cn && sr == 1 + cd - cn
    requires sr <= 31 ==> q == Dwords(0, Shl(n.low, 32 - sr, 32))
    requires sr <= 31 ==> r == Dwords(Or(Shl(n.high, 32 - sr, 32), Shr(n.low, sr)), Shr(n.high, sr))
    requires sr == 32 ==> q == Dwords(0, n.low) && r == Dwords(n.high, 0)
    ensures q.Valid() && r.Valid() && LoopEntry(n.All(), d.All(), q.All(), r.All(), sr)
  {
    LeadingZerosOfHigh(n, cn);
    LeadingZerosOfHigh(d, cd);
    assert cd <= 31;
    hide Or, Shl, Shr, Pow2, LeadingZeros, LeadingZeros64, Dwords.All;
    AlignedEntry(n.All(), d.All(), cn, cd);
    if sr <= 31 {
      ShortShift(n, sr, q, r);
    } else {
      WordShift(n);
      WordShiftParts(n);
    }
  }

  /** K K over K 0. */
  method DivideByHighWord(n: Dwords, d: Dwords) returns (quotient: nat, rem: nat)
    requires n.Valid() && d.Valid() && n.high != 0 && d.high != 0 && d.low == 0
    ensures d.All() > 0 && quotient == n.All() / d.All() && rem == n.All() % d.All()
  {
    NonZero(d);
    hide And, Or, Shl, Shr, Pow2, LeadingZeros, TrailingZeros, LoopEntry, Dwords.All;
    if And(d.high, d.high - 1) == 0 {
      var k := Ctzsi2(d.high);
      PowerOfTwoWord(d.high, k);
      HighWordDivision(n, d);
      return Shr(n.high, k), Dwords(n.low, And(n.high, d.high - 1)).All();
    }
    var cd := Clzsi2(d.high);
    var cn := Clzsi2(n.high);
    var sr := (cd - cn) % W32;
    WrappedDifference(n.high, d.high, cn, cd);
    NoShiftOf31(d.high, cd);
    if sr > 30 {
      ShiftOutOfRange(n, d, cn, cd);
      return 0, n.All();
    }
    sr := sr + 1;
    var q := Dwords(0, Shl(n.low, 32 - sr, 32));
    var r := Dwords(Or(Shl(n.high, 32 - sr, 32), Shr(n.low, sr)), Shr(n.high, sr));
    ShortEntry(n, d, cn, cd, sr, q, r);
    quotient, rem := ShiftSubtract(n.All(), d, q, r, sr);
  }

  /** K X over 0 K. */
  method DivideByLowWord(n: Dwords, d: Dwords) returns (quotient: nat, rem: nat)
    requires n.Valid() && d.Valid() && n.high != 0 && d.high == 0 && d.low != 0
    ensures d.All() > 0 && quotient == n.All() / d.All() && rem == n.All() % d.All()
  {
    NonZero(d);
    OneDivides(n, d);
    hide And, Or, Shl, Shr, Pow2, LeadingZeros, TrailingZeros, LoopEntry, Dwords.All;
    if And(d.low, d.low - 1) == 0 {
      rem := And(n.low, d.low - 1);
      if d.low == 1 {
        AndZero(n.low);
        return n.All(), rem;
      }
      var k := Ctzsi2(d.low);
      PowerOfTwoDivisor(n, d, k);
      quotient := Dwords(Or(Shl(n.high, 32 - k, 32), Shr(n.low, k)), Shr(n.high, k)).All();
      return;
    }
    var q, r, sr := AlignToLowWord(n, d);
    quotient, rem := ShiftSubtract(n.All(), d, q, r, sr);
  }

  method AlignToLowWord(n: Dwords, d: Dwords) returns (q: Dwords, r: Dwords, sr: nat)
    requires n.Valid() && d.Valid() && n.high != 0 && d.high == 0 && d.low != 0 && And(d.low, d.low - 1) != 0
    ensures q.Valid() && r.Valid() && LoopEntry(n.All(), d.All(), q.All(), r.All(), sr)
  {
    hide And, Or, Shl, Shr, LeadingZeros, LoopEntry, Dwords.All;
    var cd := Clzsi2(d.low);
    var cn := Clzsi2(n.high);
    sr := (1 + 32 + cd - cn) % W32;
    LowWordShiftRange(n.high, d.low, cn, cd);
    if sr == 32 {
      q, r := Dwords(0, n.low), Dwords(n.high, 0);
    } else if sr < 32 {
      q := Dwords(0, Shl(n.low, 32 - sr, 32));
      r := Dwords(Or(Shl(n.high, 32 - sr, 32), Shr(n.low, sr)), Shr(n.high, sr));
    } else {
      q := Dwords(Shl(n.low, 64 - sr, 32), Or(Shl(n.high, 64 - sr, 32), Shr(n.low, sr - 32)));
      r := Dwords(Shr(n.high, sr - 32), 0);
    }
    LowWordEntry(n, d, cn, cd, sr, q, r);
  }

  lemma {:induction false} OneDivides(n: Dwords, d: Dwords)
    requires n.Valid() && d.Valid() && d.high == 0 && d.low != 0
    ensures d.low == 1 ==> d.All() == 1 && n.All() / d.All() == n.All() && n.All() % d.All() == 0
  {
  }

  lemma {:induction false} PowerOfTwoDivisor(n: Dwords, d: Dwords, k: nat)
    requires n.Valid() && d.Valid() && d.high == 0 && d.low > 1
    requires TrailingZeros(d.low, k) && And(d.low, d.low - 1) == 0
    ensures 1 <= k <= 31 && d.All() > 0
    ensures var q := Dwords(Or(Shl(n.high, 32 - k, 32), Shr(n.low, k)), Shr(n.high, k));
      q.All() == n.All() / d.All()
    ensures And(n.low, d.low - 1) == n.All() % d.All()
  {
    hide And, Or, Shl;
    PowerOfTwoWord(d.low, k);
    assert k != 0 by { assert Pow2(0) == 1; }
    ShortShift(n, k, Dwords(0, Shl(n.low, 32 - k, 32)),
               Dwords(Or(Shl(n.high, 32 - k, 32), Shr(n.low, k)), Shr(n.high, k)));
  }

  lemma {:induction false} LowWordShiftRange(nh: nat, d: nat, cn: nat, cd: nat)
    requires LeadingZeros(nh, cn) && LeadingZeros(d, cd) && And(d, d - 1) != 0
    ensures 2 <= 33 + cd - cn <= 63
  {
    NoShiftOf31(d, cd);
  }

  lemma {:induction false} LowWordEntry(n: Dwords, d: Dwords, cn: nat, cd: nat, sr: nat, q: Dwords, r: Dwords)
    requires n.Valid() && d.Valid() && d.high == 0 && LeadingZeros(n.high, cn) && LeadingZeros(d.low, cd)
    requires sr == 33 + cd - cn && 2 <= sr <= 63
    requires sr < 32 ==> q == Dwords(0, Shl(n.low, 32 - sr, 32))
    requires sr < 32 ==> r == Dwords(Or(Shl(n.high, 32 - sr, 32), Shr(n.low, sr)), Shr(n.high, sr))
    requires sr == 32 ==> q == Dwords(0, n.low) && r == Dwords(n.high, 0)
    requires sr > 32 ==> q == Dwords(Shl(n.low, 64 - sr, 32), Or(Shl(n.high, 64 - sr, 32), Shr(n.low, sr - 32)))
    requires sr > 32 ==> r == Dwords(Shr(n.high, sr - 32), 0)
    ensures q.Valid() && r.Valid() && LoopEntry(n.All(), d.All(), q.All(), r.All(), sr)
  {
    LeadingZerosOfHigh(n, cn);
    assert LeadingZeros64(d.All(), cd + 32);
    hide Or, Shl, Shr, Pow2, LeadingZeros, LeadingZeros64, Dwords.All;
    AlignedEntry(n.All(), d.All(), cn, cd + 32);
    if sr < 32 {
      ShortShift(n, sr, q, r);
    } else if sr == 32 {
      WordShift(n);
      WordShiftParts(n);
    } else {
      LongShift(n, sr, q, r);
    }
  }

  /** K X over K K. */
  method DivideByDwords(n: Dwords, d: Dwords) returns (quotient: nat, rem: nat)
    requires n.Valid() && d.Valid() && n.high != 0 && d.high != 0
    ensures d.All() > 0 && quotient == n.All() / d.All() && rem == n.All() % d.All()
  {
    NonZero(d);
    hide And, Or, Shl, Shr, Pow2, LeadingZeros, TrailingZeros, LoopEntry, Dwords.All;
    var cd := Clzsi2(d.high);
    var cn := Clzsi2(n.high);
    var sr := (cd - cn) % W32;
    WrappedDifference(n.high, d.high, cn, cd);
    if sr > 31 {
      ShiftOutOfRange(n, d, cn, cd);
      return 0, n.All();
    }
    sr := sr + 1;
    var q, r;
    if sr == 32 {
      q, r := Dwords(0, n.low), Dwords(n.high, 0);
    } else {
      q := Dwords(0, Shl(n.low, 32 - sr, 32));
      r := Dwords(Or(Shl(n.high, 32 - sr, 32), Shr(n.low, sr)), Shr(n.high, sr));
    }
    ShortEntry(n, d, cn, cd, sr, q, r);
    quotient, rem := ShiftSubtract(n.All(), d, q, r, sr);
  }

  /** The unsigned difference of two zero counts is large exactly when the true one is negative. */
  lemma {:induction false} WrappedDifference(x: nat, y: nat, cx: nat, cy: nat)
    requires LeadingZeros(x, cx) && LeadingZeros(y, cy)
    ensures cx <= 31 && cy <= 31
    ensures (cy - cx) % W32 == if cy >= cx then cy - cx else cy - cx + W32
  {
    if cy < cx {
      DivModUnique(cy - cx, W32, -1, cy - cx + W32);
    }
  }

  // ----- the signed and unsigned wrappers ---------------------------------------------------------

  /** The exclusive or of two signed 64-bit values. */
  function XorS(a: int, b: int): int {
    S64(Xor(U64(a), U64(b)))
  }

  ghost predicate IsInt64(x: int) {
    -HALF64 <= x < HALF64
  }

  /** `(a ^ s) - s` negates a when s is -1, modulo 2^64. */
  lemma {:induction false} ConditionalNegate(a: int, s: int)
    requires IsInt64(a) && (s == 0 || s == -1)
    ensures XorS(a, s) - s == if s == 0 then a else -a
  {
    SignedWraps(a);
    SignedWraps(s);
    Pow2Values();
    if s == 0 {
      assert Xor(U64(a), 0) == U64(a);
    } else {
      XorOnes(U64(a), 64);
      SignedWraps(-1 - a);
    }
  }

  /** The sign mask of a, and what the wrappers pass on: the magnitude, even of -2^63. */
  lemma {:induction false} SignAndMagnitude(a: int)
    requires IsInt64(a)
    ensures Sar63(a) == if a < 0 then -1 else 0
    ensures U64(XorS(a, Sar63(a)) - Sar63(a)) == Abs(a) <= HALF64
  {
    ConditionalNegate(a, if a < 0 then -1 else 0);
    hide XorS;
  }

  lemma {:induction false} SignProduct(s: int, t: int)
    requires (s == 0 || s == -1) && (t == 0 || t == -1)
    ensures XorS(s, t) == if s == t then 0 else -1
  {
    ConditionalNegate(s, t);
  }

  /** A magnitude given a sign; only +2^63 does not fit. */
  lemma {:induction false} ApplySign(q: nat, s: int)
    requires q <= HALF64 && (s == 0 || s == -1)
    ensures S64(U64(XorS(S64(q), s) - s)) == (if q == HALF64 then -1 else if s == 0 then 1 else -1) * q
  {
    Pow2Values();
    var x := S64(q);
    ConditionalNegate(x, s);
    hide XorS, Pow2;
    if q < HALF64 {
      SignedWraps(if s == 0 then x else -x);
    } else {
      SignedWraps(-HALF64);
      assert U64(HALF64) == HALF64;
    }
  }

  lemma {:induction false} QuotientOfMagnitudes(a: nat, b: nat)
    requires a <= HALF64 && b > 0
    ensures a / b <= HALF64
    ensures a / b == HALF64 <==> a == HALF64 && b == 1
  {
    QuotientBound(a, b);
    if b > 1 {
      DivisionBounds(a, b);
      MulMono(2, b, a / b);
    }
  }

  /** Signed division wraps only for -2^63 over -1. */
  method Divdi3(a: int, b: int) returns (r: int)
    requires IsInt64(a) && IsInt64(b) && b != 0
    ensures r == if a == -HALF64 && b == -1 then -HALF64 else TruncDiv(a, b)
  {
    hide XorS, S64, U64, Sar63;
    SignAndMagnitude(a);
    SignAndMagnitude(b);
    var sa, sb := Sar63(a), Sar63(b);
    var ua, ub := U64(XorS(a, sa) - sa), U64(XorS(b, sb) - sb);
    SignProduct(sa, sb);
    sa := XorS(sa, sb);
    var q, rem := Udivmoddi4(ua, ub);
    QuotientOfMagnitudes(ua, ub);
    ApplySign(q, sa);
    r := S64(U64(XorS(S64(q), sa) - sa));
  }

  method Moddi3(a: int, b: int) returns (r: int)
    requires IsInt64(a) && IsInt64(b) && b != 0
    ensures r == TruncMod(a, b)
  {
    hide XorS, S64, U64, Sar63;
    SignAndMagnitude(b);
    SignAndMagnitude(a);
    var s := Sar63(b);
    var ub := U64(XorS(b, s) - s);
    s := Sar63(a);
    var ua := U64(XorS(a, s) - s);
    var q, rem := Udivmoddi4(ua, ub);
    ApplySign(rem, s);
    r := S64(U64(XorS(S64(rem), s) - s));
  }

  /** Quotient and remainder together: the remainder is recomputed from the quotient, with wrap. */
  method Divmoddi4(a: int, b: int) returns (d: int, rem: int)
    requires IsInt64(a) && IsInt64(b) && b != 0
    ensures d == if a == -HALF64 && b == -1 then -HALF64 else TruncDiv(a, b)
    ensures rem == TruncMod(a, b)
  {
    d := Divdi3(a, b);
    rem := S64(U64(a - S64(U64(d * b))));
    RemainderFromQuotient(a, b, d);
  }

  lemma {:induction false} RemainderFromQuotient(a: int, b: int, d: int)
    requires IsInt64(a) && IsInt64(b) && b != 0
    requires d == if a == -HALF64 && b == -1 then -HALF64 else TruncDiv(a, b)
    ensures S64(U64(a - S64(U64(d * b)))) == TruncMod(a, b)
  {
    if a == -HALF64 && b == -1 {
      assert d * b == HALF64;
      assert S64(U64(HALF64)) == -HALF64 by { Pow2Values(); }
      assert Abs(b) == 1;
      SignedWraps(0);
    } else {
      TruncDivMod(a, b);
      hide TruncDiv;
      assert -HALF64 <= TruncMod(a, b) <= HALF64 - 1 && IsInt64(d * b);
      SignedWraps(d * b);
      SignedWraps(TruncMod(a, b));
    }
  }

  /** Truncating division: a == q * b + r with |r| < |b|, r taking the sign of a. */
  lemma {:induction false} TruncDivMod(a: int, b: int)
    requires b != 0
    ensures a == TruncDiv(a, b) * b + TruncMod(a, b)
    ensures Abs(TruncMod(a, b)) < Abs(b)
    ensures Abs(TruncDiv(a, b) * b) <= Abs(a)
    ensures a <= 0 ==> a <= TruncMod(a, b) <= 0
    ensures a >= 0 ==> 0 <= TruncMod(a, b) <= a
  {
    var p, m := Abs(a) / Abs(b) * Abs(b), Abs(a) % Abs(b);
    assert TruncMod(a, b) == if a < 0 then 0 - m else m;
    TruncProduct(a, b, Abs(a) / Abs(b));
    QuotientAndRemainder(Abs(a), Abs(b));
    hide TruncDiv, TruncMod;
  }

  lemma {:induction false} QuotientAndRemainder(x: nat, y: nat)
    requires y > 0
    ensures x == x / y * y + x % y && x % y < y && 0 <= x / y * y <= x
  {
  }

  lemma {:induction false} TruncProduct(a: int, b: int, q: int)
    requires b != 0 && q == Abs(a) / Abs(b)
    ensures TruncDiv(a, b) * b == if a < 0 then 0 - q * Abs(b) else q * Abs(b)
  {
    assert TruncDiv(a, b) == if (a < 0) == (b < 0) then q else 0 - q;
    hide TruncDiv;
    SignedProduct(q, b);
  }

  lemma {:induction false} SignedProduct(q: int, b: int)
    ensures (0 - q) * b == 0 - q * b == q * (0 - b)
  {
  }

  method Udivdi3(a: nat, b: nat) returns (r: nat)
    requires a < W64 && 0 < b < W64
    ensures r == a / b
  {
    var rem;
    r, rem := Udivmoddi4(a, b);
  }

  method Umoddi3(a: nat, b: nat) returns (r: nat)
    requires a < W64 && 0 < b < W64
    ensures r == a % b
  {
    var q;
    q, r := Udivmoddi4(a, b);
  }
}
