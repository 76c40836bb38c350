/** The 64-bit arithmetic runtime for 32-bit kernels.  Unsigned words are natural numbers below 2^64, signed
    words are integers; every operation that can wrap around is written with its modulus. */
module Arith64 {
  import opened Bits

  const TWO32: nat := 0x1_0000_0000
  const TWO63: nat := 0x8000_0000_0000_0000
  const TWO64: nat := 0x1_0000_0000_0000_0000
  const MIN63: int := -0x8000_0000_0000_0000
  const ONES: nat := 0xFFFF_FFFF_FFFF_FFFF

  lemma {:induction false} Pow2Words()
    ensures Pow2(32) == TWO32 && Pow2(63) == TWO63 && Pow2(64) == TWO64
  {
    Pow2Values();
    Pow2Add(16, 16);
    Pow2Add(32, 32);
    assert Pow2(64) == 2 * Pow2(63);
  }

  // ----- masks

  /** Masking with ones from bit `k` up to bit `n` clears the low `k` bits of a word of `n` bits. */
  lemma {:induction false} HighMask(x: nat, k: nat, n: nat)
    requires k <= n && x < Pow2(n)
    ensures Pow2(k) <= Pow2(n) && And(x, Pow2(n) - Pow2(k)) == x - Low(x, k)
    decreases n
  {
    hide And;
    Pow2Mono(k, n);
    if n == 0 {
      AndStep(0, 0);
    } else if k == 0 {
      HighMask(x / 2, 0, n - 1);
      assert (Pow2(n) - 1) / 2 == Pow2(n - 1) - 1 && (Pow2(n) - 1) % 2 == 1;
      AndStep(x, Pow2(n) - 1);
    } else {
      HighMask(x / 2, k - 1, n - 1);
      assert (Pow2(n) - Pow2(k)) / 2 == Pow2(n - 1) - Pow2(k - 1) && (Pow2(n) - Pow2(k)) % 2 == 0;
      AndStep(x, Pow2(n) - Pow2(k));
    }
  }

  lemma AndStep(x: nat, y: nat)
    ensures And(x, y) == (if x % 2 == 1 && y % 2 == 1 then 1 else 0) + 2 * And(x / 2, y / 2)
  {
  }

  /** A mask of leading ones tells whether a word is small. */
  lemma Leading(x: nat, k: nat, n: nat)
    requires k <= n && x < Pow2(n)
    ensures Pow2(k) <= Pow2(n) && (And(x, Pow2(n) - Pow2(k)) == 0 <==> x < Pow2(k))
  {
    HighMask(x, k, n);
    LowBound(x, k);
    if x < Pow2(k) { Join(x, 0, k); }
  }

  // ----- leading zeros

  /** Leading zeros of a word of `n` bits. */
  function LeadingZeros(x: nat, n: nat): nat {
    if n == 0 || Bit(x, n - 1) then 0 else 1 + LeadingZeros(x, n - 1)
  }

  lemma {:induction false} LeadingZerosIs(x: nat, n: nat, z: nat)
    requires z < n && Pow2(n - 1 - z) <= x < Pow2(n - z)
    ensures LeadingZeros(x, n) == z
    decreases z
  {
    if z == 0 {
      TopBitSet(x, n - 1);
    } else {
      Pow2Mono(n - z, n - 1);
      HighBits(x, n - z, n - 1);
      LeadingZerosIs(x, n - 1, z - 1);
    }
  }

  lemma {:induction false} TopBitSet(x: nat, n: nat)
    requires Pow2(n) <= x < Pow2(n + 1)
    ensures Bit(x, n)
  {
    if n > 0 { TopBitSet(x / 2, n - 1); }
  }

  /** The bits of `a` from bit `k` up are all zero: the test `!(a & mask)` with a mask of leading ones. */
  predicate TopClear(a: nat, k: nat)
    requires k <= 64
  {
    Pow2Words(); Pow2Mono(k, 64);
    And(a, TWO64 - Pow2(k)) == 0
  }

  /** `n` leading zeros of `a0` were counted and shifted out, and fewer than `left` more are there. */
  ghost predicate Counted(a0: nat, a: nat, n: nat, left: nat) {
    left <= 64 && a == Shl(a0, n) && Pow2(64 - left) <= a < TWO64
  }

  lemma TopClearIs(a: nat, k: nat)
    requires k <= 64 && a < TWO64
    ensures TopClear(a, k) <==> a < Pow2(k)
  {
    Pow2Words();
    Leading(a, k, 64);
  }

  lemma ShiftOut(a0: nat, a: nat, n: nat, left: nat, w: nat, b: nat)
    requires w <= left <= 2 * w && Counted(a0, a, n, left) && b == if TopClear(a, 64 - w) then w else 0
    ensures Counted(a0, Shl(a, b) % TWO64, n + b, w)
  {
    hide TopClear, Pow2, Shl;
    TopClearIs(a, 64 - w);
    Pow2Words();
    if a < Pow2(64 - w) {
      ShlBounds(a, 64 - left, 64 - w, w);
      Pow2Mono(64 - w, 64 - left + w);
      ShlShl(a0, n, w);
    } else {
      ShlZero(a);
    }
  }

  lemma ShlShl(a: nat, n: nat, w: nat)
    ensures Shl(Shl(a, n), w) == Shl(a, n + w)
  {
    hide Pow2;
    Pow2Add(n, w);
    assert a * (Pow2(n) * Pow2(w)) == a * Pow2(n) * Pow2(w);
  }

  lemma ShlBounds(a: nat, l: nat, k: nat, w: nat)
    requires Pow2(l) <= a < Pow2(k)
    ensures Pow2(l + w) <= Shl(a, w) < Pow2(k + w)
  {
    hide Pow2;
    Pow2Add(l, w);
    Pow2Add(k, w);
    Scale(Pow2(l), a, Pow2(w));
    StrictScale(a, Pow2(k), Pow2(w));
  }

  lemma ShlZero(a: nat)
    ensures Shl(a, 0) == a
  {
  }

  lemma ClzStart(a: nat)
    requires 0 < a < TWO64
    ensures Counted(a, a, 0, 64)
  {
    ShlZero(a);
  }

  lemma ClzEnd(a0: nat, a: nat, n: nat)
    requires Counted(a0, a, n, 1)
    ensures n < 64 && n == LeadingZeros(a0, 64) && Pow2(63 - n) <= a0 < Pow2(64 - n)
  {
    hide Pow2, LeadingZeros;
    Pow2Words();
    assert a0 > 0 by { if a0 == 0 { ZeroShl(n); } }
    if n >= 64 {
      Pow2Mono(64, n);
      Scale(1, a0, Pow2(n));
    }
    Pow2Add(63 - n, n);
    Pow2Add(64 - n, n);
    if a0 < Pow2(63 - n) { StrictScale(a0, Pow2(63 - n), Pow2(n)); }
    if a0 >= Pow2(64 - n) { Scale(Pow2(64 - n), a0, Pow2(n)); }
    LeadingZerosIs(a0, 64, n);
  }

  lemma ZeroShl(n: nat)
    ensures Shl(0, n) == 0 && Pow2(63) > 0
  {
  }

  /** `__clzdi2`: the number of leading zeros of a nonzero word. */
  method Clz64(word: nat) returns (r: nat)
    requires word < TWO64
    ensures word > 0 ==> r < 64 && r == LeadingZeros(word, 64) && Pow2(63 - r) <= word < Pow2(64 - r)
  {
    hide TopClear, Pow2, LeadingZeros, Shl, Counted;
    var a, n, b := word, 0, 0;
    if word > 0 { ClzStart(word); }
    b := if TopClear(a, 32) then 32 else 0;
    if word > 0 { ShiftOut(word, a, n, 64, 32, b); }
    n, a := n + b, Shl(a, b) % TWO64;
    b := if TopClear(a, 48) then 16 else 0;
    if word > 0 { ShiftOut(word, a, n, 32, 16, b); }
    n, a := n + b, Shl(a, b) % TWO64;
    b := if TopClear(a, 56) then 8 else 0;
    if word > 0 { ShiftOut(word, a, n, 16, 8, b); }
    n, a := n + b, Shl(a, b) % TWO64;
    b := if TopClear(a, 60) then 4 else 0;
    if word > 0 { ShiftOut(word, a, n, 8, 4, b); }
    n, a := n + b, Shl(a, b) % TWO64;
    b := if TopClear(a, 62) then 2 else 0;
    if word > 0 { ShiftOut(word, a, n, 4, 2, b); }
    n, a := n + b, Shl(a, b) % TWO64;
    b := if TopClear(a, 63) then 1 else 0;
    if word > 0 {
      ShiftOut(word, a, n, 2, 1, b);
      ClzEnd(word, Shl(a, b) % TWO64, n + b);
    }
    return n + b;
  }

  // ----- unsigned division

  /** `x >> 63` of a signed word, as an unsigned word: the sign bit in every bit. */
  function SignFill(x: nat): nat {
    if x >= TWO63 then ONES else 0
  }

  lemma AndFill(b: nat)
    requires b < TWO64
    ensures And(b, ONES) == b && And(b, 0) == 0 && And(ONES, 1) == 1 && And(0, 1) == 0
  {
    Pow2Words();
    HighMask(b, 0, 64);
    AndStep(ONES, 1);
  }

  /** Shifting a word left by one: the top bit goes out, a new low bit comes in. */
  lemma ShiftIn(a: nat, low: nat)
    requires a < TWO64 && low < 2
    ensures Shr(a, 63) < 2 && a == TWO63 * Shr(a, 63) + a % TWO63
    ensures Or(low, Shl(a, 1) % TWO64) == 2 * (a % TWO63) + low
  {
    hide Pow2, Shr, Or, Low;
    Pow2Words();
    LowShr(a, 63);
    DoubleWraps(a);
    OrAdd(low, a % TWO63, 1);
  }

  lemma DoubleWraps(a: nat)
    requires a < TWO64
    ensures Shl(a, 1) % TWO64 == Shl(a % TWO63, 1) == 2 * (a % TWO63) && Pow2(1) == 2
  {
    assert Pow2(1) == 2;
    assert a == TWO63 * (a / TWO63) + a % TWO63 && a / TWO63 < 2;
    if a >= TWO63 {
      assert a % TWO63 == a - TWO63;
    }
  }

  /** Before the turn with `k` bits to go: the part of the numerator above bit `k` is `q * b + rem`; the word
      `a` holds the `k` bits to go on top and the quotient but for its last bit below, which is in `wrap`. */
  ghost predicate Dividing(num: nat, b: nat, n: nat, k: nat, rem: nat, a: nat, wrap: nat, q: nat) {
    && 0 < b <= num < TWO64 && k <= n && 1 <= n <= 63 && (b >= TWO63 ==> n == 1)
    && Shr(num, k) == q * b + rem && rem < b
    && q < Pow2(n - k) && a == Shl(Low(num, k), 64 - k) + q / 2
    && wrap == if q % 2 == 1 then ONES else 0
  }

  /** The next bit of the numerator is on top of `a`. */
  lemma NextBit(num: nat, n: nat, k: nat, a: nat, q: nat)
    requires 1 <= k <= n <= 63 && q < Pow2(n - k) && a == Shl(Low(num, k), 64 - k) + q / 2
    ensures a < TWO64 && Shr(a, 63) == Shr(num, k - 1) % 2
    ensures 2 * (a % TWO63) + q % 2 == Shl(Low(num, k - 1), 65 - k) + q
    ensures Shr(num, k - 1) == 2 * Shr(num, k) + Shr(num, k - 1) % 2
  {
    hide Low, Shr, Pow2;
    Pow2Words();
    var bit, low, p := Shr(num, k - 1) % 2, Low(num, k - 1), Pow2(64 - k);
    ShrStep(num, k - 1);
    LowTop(num, k);
    LowBound(num, k - 1);
    Pow2Add(k - 1, 64 - k);
    Pow2Mono(n - k, 64 - k);
    assert Pow2(65 - k) == 2 * p by { Pow2Add(1, 64 - k); Pow2Values(); }
    NextSum(Pow2(k - 1), bit, low, p, q, a);
  }

  lemma NextSum(half: nat, bit: nat, low: nat, p: nat, q: nat, a: nat)
    requires half * p == TWO63 && bit < 2 && low < half && q / 2 < p && a == (half * bit + low) * p + q / 2
    ensures a < TWO64 && Shr(a, 63) == bit && 2 * (a % TWO63) + q % 2 == low * (2 * p) + q
  {
    hide Shr;
    WithTop(half, bit, low, p, q / 2);
    TopIs(a, bit, low * p + q / 2);
  }

  lemma WithTop(half: nat, bit: nat, low: nat, p: nat, r: nat)
    requires half * p == TWO63 && bit < 2 && low < half && r < p
    ensures (half * bit + low) * p == TWO63 * bit + low * p && low * p + r < TWO63 && low * (2 * p) == 2 * (low * p)
  {
    if bit == 1 { assert (half + low) * p == half * p + low * p; }
    Scale(low + 1, half, p);
    assert (low + 1) * p == low * p + p;
    assert low * (2 * p) == 2 * (low * p);
  }

  lemma TopIs(a: nat, bit: nat, rest: nat)
    requires bit < 2 && rest < TWO63 && a == TWO63 * bit + rest
    ensures a < TWO64 && Shr(a, 63) == bit && a % TWO63 == rest
  {
    hide Pow2, Shr;
    Pow2Words();
    LowShr(a, 63);
  }

  lemma {:induction false} LowTop(x: nat, n: nat)
    requires n > 0
    ensures Low(x, n) == Pow2(n - 1) * (Shr(x, n - 1) % 2) + Low(x, n - 1)
  {
    if n > 1 {
      LowTop(x / 2, n - 1);
      Twofold(Pow2(n - 2), Shr(x, n - 1) % 2);
    }
  }

  /** The sign of `b - rem - 1` is the test `b <= rem`, and doubling the remainder does not overflow. */
  lemma SignTrick(num: nat, b: nat, n: nat, k: nat, rem: nat, a: nat, wrap: nat, q: nat, next: nat)
    requires Dividing(num, b, n, k, rem, a, wrap, q) && k > 0 && next == 2 * rem + Shr(num, k - 1) % 2
    ensures next < TWO64 && next < 2 * b
    ensures SignFill((b - next - 1) % TWO64) == if b > next then 0 else ONES
  {
    hide Shr, Low, Shl, Pow2;
    if b >= TWO63 {
      assert n == 1 && k == 1;
      NoBits(num);
      assert Pow2(0) == 1 by { Pow2Values(); }
      assert q == 0;
      ShrStep(num, 0);
      assert next == num;
    }
    if b > next {
      assert (b - next - 1) % TWO64 == b - next - 1;
    } else {
      assert (b - next - 1) % TWO64 == TWO64 + b - next - 1;
    }
  }

  /** The remainder, the word and the flag computed in one turn. */
  lemma DivideTurn(num: nat, b: nat, n: nat, k: nat, rem: nat, a: nat, wrap: nat, q: nat)
    requires Dividing(num, b, n, k, rem, a, wrap, q) && k > 0
    ensures a < TWO64
    ensures var rem1 := Or(Shr(a, 63), Shl(rem, 1) % TWO64);
            && rem1 == 2 * rem + Shr(num, k - 1) % 2 < 2 * b
            && Or(And(wrap, 1), Shl(a, 1) % TWO64) == Shl(Low(num, k - 1), 65 - k) + q
            && SignFill((b - rem1 - 1) % TWO64) == if b > rem1 then 0 else ONES
  {
    hide Shr, Low, Pow2, Or, And, SignFill, Shl;
    var bit := Shr(num, k - 1) % 2;
    NextBit(num, n, k, a, q);
    AndFill(0);
    ShiftIn(a, And(wrap, 1));
    SignTrick(num, b, n, k, rem, a, wrap, q, 2 * rem + bit);
    Doubled(rem, bit);
  }

  lemma QuotientStep(q: nat, b: nat, rem: nat, bit: nat)
    requires 2 * rem + bit < 2 * b
    ensures var rem1 := 2 * rem + bit;
            2 * (q * b + rem) + bit == if b > rem1 then (2 * q) * b + rem1 else (2 * q + 1) * b + (rem1 - b)
  {
    assert (2 * q) * b == 2 * (q * b);
    assert (2 * q + 1) * b == (2 * q) * b + b;
  }

  /** One turn of the division loop. */
  lemma DivideStep(num: nat, b: nat, n: nat, k: nat, rem: nat, a: nat, wrap: nat, q: nat)
    requires Dividing(num, b, n, k, rem, a, wrap, q) && k > 0
    ensures a < TWO64
    ensures var rem1 := Or(Shr(a, 63), Shl(rem, 1) % TWO64);
            var a1 := Or(And(wrap, 1), Shl(a, 1) % TWO64);
            var wrap1 := SignFill((b - rem1 - 1) % TWO64);
            && And(b, wrap1) <= rem1
            && Dividing(num, b, n, k - 1, rem1 - And(b, wrap1), a1, wrap1, 2 * q + if b > rem1 then 0 else 1)
  {
    hide Shr, Low, Pow2, Or, And, SignFill, Shl;
    var bit := Shr(num, k - 1) % 2;
    DivideTurn(num, b, n, k, rem, a, wrap, q);
    AndFill(b);
    NextBit(num, n, k, a, q);
    QuotientStep(q, b, rem, bit);
    assert Pow2(n - (k - 1)) == 2 * Pow2(n - k) by { Pow2Add(1, n - k); Pow2Values(); }
  }

  lemma Doubled(rem: nat, bit: nat)
    requires bit < 2 && 2 * rem + bit < TWO64
    ensures Or(bit, Shl(rem, 1) % TWO64) == 2 * rem + bit
  {
    hide Or;
    Pow2Values();
    assert Shl(rem, 1) % TWO64 == Shl(rem, 1);
    OrAdd(bit, rem, 1);
  }

  lemma DivideStart(num: nat, b: nat, ca: nat, cb: nat)
    requires 2 <= b <= num < TWO64 && ca < 64 && cb < 64
    requires Pow2(63 - ca) <= num < Pow2(64 - ca) && Pow2(63 - cb) <= b < Pow2(64 - cb)
    ensures var n := cb - ca + 1;
            1 <= n <= 63 && Dividing(num, b, n, n, Shr(num, n), Shl(num, 64 - n) % TWO64, 0, 0)
  {
    hide Shr, Low, Pow2;
    Pow2Words();
    if cb < ca { Pow2Mono(64 - ca, 63 - cb); }
    assert cb <= 62 by {
      Pow2Values();
      assert cb == 63 ==> 64 - cb == 1;
    }
    var n := cb - ca + 1;
    assert Shr(num, n) < b by {
      Split(num, n);
      Pow2Add(63 - cb, n);
      if Shr(num, n) >= Pow2(63 - cb) { Scale(Pow2(63 - cb), Shr(num, n), Pow2(n)); }
    }
    assert b >= TWO63 ==> cb == 0 by {
      if b >= TWO63 && cb > 0 { Pow2Mono(64 - cb, 63); }
    }
    ShiftUp(num, n);
    assert Pow2(0) == 1 by { Pow2Values(); }
  }

  /** Shifting left by `64 - n` keeps the low `n` bits. */
  lemma ShiftUp(x: nat, n: nat)
    requires n <= 64
    ensures Shl(x, 64 - n) % TWO64 == Shl(Low(x, n), 64 - n)
  {
    hide Shr, Low, Pow2;
    Pow2Words();
    Split(x, n);
    LowBound(x, n);
    Pow2Add(n, 64 - n);
    var p, m, l, h := Pow2(n), Pow2(64 - n), Low(x, n), Shr(x, n);
    assert x * m == l * m + TWO64 * h by {
      assert (l + p * h) * m == l * m + p * h * m;
      assert p * h * m == p * m * h;
    }
    StrictScale(l, p, m);
    DivUnique(x * m, TWO64, h, l * m);
  }

  lemma DivideEnd(num: nat, b: nat, n: nat, rem: nat, a: nat, wrap: nat, q: nat)
    requires Dividing(num, b, n, 0, rem, a, wrap, q)
    ensures IsQuotient(num, b, q, rem) && a < TWO64
    ensures Or(And(wrap, 1), Shl(a, 1) % TWO64) == q
  {
    hide Or, And, Pow2;
    NoBits(num);
    AndFill(0);
    Pow2Mono(n, 63);
    Pow2Words();
    assert 0 * Pow2(64) == 0;
    ShiftIn(a, And(wrap, 1));
  }

  /** A division either traps or gives a quotient and a remainder. */
  datatype Division = Trap | Divided(q: nat, rem: nat)

  /** The long division: one quotient bit a turn. */
  method LongDivide(num: nat, b: nat) returns (quot: nat, rem: nat)
    requires 2 <= b <= num < TWO64
    ensures IsQuotient(num, b, quot, rem)
  {
    hide Shr, Low, Shl, Pow2, Or, And, Dividing, SignFill, IsQuotient, LeadingZeros;
    var cb := Clz64(b);
    var ca := Clz64(num);
    DivideStart(num, b, ca, cb);
    var bits: nat := cb - ca + 1;
    ghost var n, q: nat := bits, 0;
    rem := Shr(num, bits);
    var a: nat, wrap: nat := Shl(num, 64 - bits) % TWO64, 0;
    while bits > 0
      invariant Dividing(num, b, n, bits, rem, a, wrap, q)
    {
      DivideStep(num, b, n, bits, rem, a, wrap, q);
      rem := Or(Shr(a, 63), Shl(rem, 1) % TWO64);
      q := 2 * q + if b > rem then 0 else 1;
      a := Or(And(wrap, 1), Shl(a, 1) % TWO64);
      wrap := SignFill((b - rem - 1) % TWO64);
      rem := rem - And(b, wrap);
      bits := bits - 1;
    }
    DivideEnd(num, b, n, rem, a, wrap, q);
    quot := Or(And(wrap, 1), Shl(a, 1) % TWO64);
  }

  predicate IsQuotient(num: nat, b: nat, q: nat, rem: nat) {
    num == q * b + rem && rem < b
  }

  /** `__divmoddi4`. */
  method DivMod64(num: nat, b: nat) returns (r: Division)
    requires num < TWO64 && b < TWO64
    ensures b == 0 ==> r == Trap
    ensures b > 0 ==> r.Divided? && IsQuotient(num, b, r.q, r.rem) && r.q < TWO64
  {
    hide IsQuotient;
    EasyQuotients(num, b);
    if b > num {
      return Divided(0, num);
    }
    if b < TWO32 {
      if b == 0 {
        return Trap;
      }
      if b == 1 {
        return Divided(num, 0);
      }
      if num < TWO32 {
        return Divided(num / b, num % b);
      }
    }
    var q, rem := LongDivide(num, b);
    QuotientBound(num, b, q, rem);
    return Divided(q, rem);
  }

  lemma EasyQuotients(num: nat, b: nat)
    ensures b > num ==> IsQuotient(num, b, 0, num)
    ensures b == 1 ==> IsQuotient(num, b, num, 0)
    ensures b > 0 ==> 0 <= num % b && 0 <= num / b <= num && IsQuotient(num, b, num / b, num % b)
  {
    if b > 0 {
      assert num == num / b * b + num % b;
      Scale(1, b, num / b);
    }
  }

  lemma QuotientBound(num: nat, b: nat, q: nat, rem: nat)
    requires b > 0 && IsQuotient(num, b, q, rem)
    ensures q <= num
  {
    Scale(1, b, q);
  }

  // ----- signed division

  predicate Signed(x: int) {
    MIN63 <= x < TWO63
  }

  /** The unsigned word with the bits of `x`. */
  function Word(x: int): (w: nat)
    requires Signed(x)
    ensures w < TWO64
  {
    if x < 0 then x + TWO64 else x
  }

  /** The signed word with the bits of `w`. */
  function FromWord(w: nat): (x: int)
    requires w < TWO64
    ensures Signed(x)
  {
    if w < TWO63 then w else w - TWO64
  }

  /** The macro `arith64_neg`: invert the bits of `w` and add one, if `negative`. */
  function Neg(w: nat, negative: bool): (r: nat)
    requires w < TWO64
    ensures r < TWO64
  {
    if negative then (ONES - w + 1) % TWO64 else w
  }

  function Abs(x: int): nat {
    if x < 0 then -x else x
  }

  /** The macro `arith64_abs`, read as an unsigned word, is the absolute value, also of the most negative word. */
  lemma NegIsAbs(x: int)
    requires Signed(x)
    ensures Neg(Word(x), x < 0) == Abs(x) <= TWO63
  {
  }

  /** The quotient rounded toward zero and the remainder with the sign of the numerator. */
  ghost predicate Truncated(a: int, b: int, q: int, r: int) {
    && a == q * b + r && Abs(r) < Abs(b)
    && (r != 0 ==> (r < 0 <==> a < 0)) && (q != 0 ==> (q < 0 <==> ((a < 0) != (b < 0))))
  }

  lemma SignedFromUnsigned(a: int, b: int, q: int, r: int)
    requires b != 0 && q >= 0 && r >= 0 && IsQuotient(Abs(a), Abs(b), q, r)
    ensures Truncated(a, b, if (a < 0) != (b < 0) then -q else q, if a < 0 then -r else r)
  {
    var x, y := Abs(a), Abs(b);
    assert q * y + r == x;
    assert (-q) * b == -(q * b) && q * (-b) == -(q * b) && (-q) * (-b) == q * b;
  }

  /** There is only one such pair. */
  lemma TruncatedUnique(a: int, b: int, q: int, r: int, q': int, r': int)
    requires b != 0 && Truncated(a, b, q, r) && Truncated(a, b, q', r')
    ensures q == q' && r == r'
  {
    assert (q - q') * b == r' - r;
    if q != q' { AbsProduct(q - q', b); }
  }

  lemma AbsProduct(d: int, b: int)
    requires d != 0
    ensures Abs(d * b) >= Abs(b)
  {
    var x, y := Abs(d), Abs(b);
    Scale(1, x, y);
    assert Abs(d * b) == x * y;
  }

  datatype SignedResult = SignedTrap | Value(value: int)

  /** `__divdi3`: for every numerator and every nonzero denominator the truncated quotient; where that is 2^63,
      the one case that does not fit, it wraps to -2^63. */
  method SDiv64(a: int, b: int) returns (r: SignedResult)
    requires Signed(a) && Signed(b)
    ensures b == 0 ==> r == SignedTrap
    ensures b != 0 ==> r.Value? && Signed(r.value)
    ensures b != 0 && !(a == MIN63 && b == -1) ==> exists rem :: Truncated(a, b, r.value, rem)
    ensures a == MIN63 && b == -1 ==> r.value == MIN63
  {
    hide IsQuotient, Truncated;
    NegIsAbs(a);
    NegIsAbs(b);
    var d := DivMod64(Neg(Word(a), a < 0), Neg(Word(b), b < 0));
    if d.Trap? {
      return SignedTrap;
    }
    SignedFromUnsigned(a, b, d.q, d.rem);
    QuotientFits(a, b, d.q, d.rem);
    r := Value(FromWord(Neg(d.q, (a < 0) != (b < 0))));
  }

  /** `__moddi3`: for every numerator and every nonzero denominator the remainder of truncated division. */
  method SMod64(a: int, b: int) returns (r: SignedResult)
    requires Signed(a) && Signed(b)
    ensures b == 0 ==> r == SignedTrap
    ensures b != 0 ==> r.Value? && Signed(r.value) && exists q :: Truncated(a, b, q, r.value)
  {
    hide IsQuotient, Truncated;
    NegIsAbs(a);
    NegIsAbs(b);
    var d := DivMod64(Neg(Word(a), a < 0), Neg(Word(b), b < 0));
    if d.Trap? {
      return SignedTrap;
    }
    SignedFromUnsigned(a, b, d.q, d.rem);
    QuotientFits(a, b, d.q, d.rem);
    r := Value(FromWord(Neg(d.rem, a < 0)));
  }

  lemma QuotientFits(a: int, b: int, q: nat, r: nat)
    requires Signed(a) && Signed(b) && b != 0 && IsQuotient(Abs(a), Abs(b), q, r)
    ensures q <= TWO63 && r < TWO63
    ensures q == TWO63 <==> a == MIN63 && Abs(b) == 1
  {
    QuotientBound(Abs(a), Abs(b), q, r);
    if Abs(b) >= 2 { Scale(2, Abs(b), q); }
  }
}
