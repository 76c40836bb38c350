/** Bit counting and the shifts split over 32-bit halves of the 64-bit arithmetic runtime. */
module Arith64Bits {
  import opened Bits
  import opened Arith64

  // ----- trailing zeros

  function TrailingZeros(x: nat, n: nat): nat {
    if n == 0 || x % 2 == 1 then 0 else 1 + TrailingZeros(x / 2, n - 1)
  }

  lemma {:induction false} TrailingZerosIs(y: nat, z: nat, n: nat)
    requires z < n && y % 2 == 1
    ensures TrailingZeros(Shl(y, z), n) == z
    decreases z
  {
    if z > 0 {
      assert Shl(y, z) == 2 * Shl(y, z - 1) by { assert y * (2 * Pow2(z - 1)) == 2 * (y * Pow2(z - 1)); }
      TrailingZerosIs(y, z - 1, n - 1);
    } else {
      assert Pow2(0) == 1;
    }
  }

  lemma {:induction false} LowMask(x: nat, k: nat)
    ensures And(x, Pow2(k) - 1) == Low(x, k)
  {
    if k > 0 {
      LowMask(x / 2, k - 1);
      assert (Pow2(k) - 1) / 2 == Pow2(k - 1) - 1 && (Pow2(k) - 1) % 2 == 1;
      AndStep(x, Pow2(k) - 1);
    }
  }

  /** `n` trailing zeros of `a0` were counted and shifted out, and fewer than `left` more are there. */
  ghost predicate Dropped(a0: nat, a: nat, n: nat, left: nat) {
    a0 == Shl(a, n) && Low(a, left) != 0 && n + left <= 64
  }

  /** One stage of the count: `w` bits at once. */
  method DropZeros(a: nat, n: nat, w: nat, mask: nat, ghost a0: nat) returns (a': nat, n': nat)
    requires mask == Pow2(w) - 1 && Dropped(a0, a, n, 2 * w)
    ensures Dropped(a0, a', n', w)
  {
    hide And, Low, Shr, Pow2;
    LowMask(a, w);
    var b := if And(a, mask) == 0 then w else 0;
    n' := n + b;
    a' := Shr(a, b);
    NoBits(a);
    if b == w {
      Split(a, w);
      Pow2Add(w, n);
      LowSplit(a, w, w);
      assert w + w == 2 * w;
      assert Shr(a, w) * (Pow2(w) * Pow2(n)) == (Pow2(w) * Shr(a, w)) * Pow2(n);
      assert w + n == n + w;
    }
  }

  /** The low `a` bits, and the `b` bits above them. */
  lemma {:induction false} LowSplit(x: nat, a: nat, b: nat)
    ensures Low(x, a + b) == Low(x, a) + Pow2(a) * Low(Shr(x, a), b)
    decreases a
  {
    if a > 0 {
      LowSplit(x / 2, a - 1, b);
      Twofold(Pow2(a - 1), Low(Shr(x / 2, a - 1), b));
    }
  }

  /** `__ctzdi2`. */
  method Ctz64(word: nat) returns (r: nat)
    requires 0 < word < TWO64
    ensures r == TrailingZeros(word, 64) < 64
  {
    hide Low, Shr, And, Pow2, Shl;
    Pow2Words();
    Pow2Values();
    CtzStart(word);
    var a, n := DropZeros(word, 0, 32, 0xFFFF_FFFF, word);
    a, n := DropZeros(a, n, 16, 0xFFFF, word);
    a, n := DropZeros(a, n, 8, 0xFF, word);
    a, n := DropZeros(a, n, 4, 0xF, word);
    a, n := DropZeros(a, n, 2, 0x3, word);
    CtzEnd(word, a, n);
    r := n + if And(a, 1) == 0 then 1 else 0;
  }

  lemma CtzStart(word: nat)
    requires 0 < word < TWO64
    ensures Dropped(word, word, 0, 64)
  {
    Pow2Words();
    Join(word, 0, 64);
    assert Pow2(0) == 1;
  }

  lemma CtzEnd(word: nat, a: nat, n: nat)
    requires Dropped(word, a, n, 2)
    ensures n + (if And(a, 1) == 0 then 1 else 0) == TrailingZeros(word, 64) < 64
  {
    assert And(a, 1) == a % 2 by { LowMask(a, 1); assert Pow2(1) == 2; assert Low(a / 2, 0) == 0; }
    assert Low(a, 2) == a % 2 + 2 * (a / 2 % 2) by { assert Low(a / 2, 1) == a / 2 % 2 + 2 * Low(a / 4, 0); }
    if a % 2 == 1 {
      TrailingZerosIs(a, n, 64);
    } else {
      assert Shl(a, n) == Shl(a / 2, n + 1) by { assert a / 2 * (2 * Pow2(n)) == a / 2 * 2 * Pow2(n); }
      TrailingZerosIs(a / 2, n + 1, 64);
    }
  }

  // ----- shifts

  /** A double word in two halves, and what a shift by less than 32 bits takes apart: `p = 2^b`, `q = 2^(32 - b)`. */
  lemma LeftParts(lo: nat, hi: nat, b: nat)
    requires lo < TWO32 && hi < TWO32 && 0 < b < 32
    ensures var l1, h0 := Shr(lo, 32 - b), Low(hi, 32 - b);
            && l1 < Pow2(b) && Shl(lo, b) % TWO32 == Low(lo, 32 - b) * Pow2(b) && Shl(hi, b) % TWO32 == h0 * Pow2(b)
            && Low(lo, 32 - b) * Pow2(b) < TWO32 && l1 + h0 * Pow2(b) < TWO32
            && Shl(lo + TWO32 * hi, b) == Low(lo, 32 - b) * Pow2(b) + TWO32 * (l1 + h0 * Pow2(b)) + TWO64 * Shr(hi, 32 - b)
  {
    hide Low, Shr, Pow2, Shl;
    HalfLeft(lo, b);
    HalfLeft(hi, b);
    ShlSum(lo, hi, b);
  }

  lemma ShlSum(lo: nat, hi: nat, b: nat)
    ensures Shl(lo + TWO32 * hi, b) == Shl(lo, b) + TWO32 * Shl(hi, b)
  {
    hide Pow2;
    assert (TWO32 * hi) * Pow2(b) == TWO32 * (hi * Pow2(b));
  }

  /** One half shifted to the left: the bits that stay, and those that leave it. */
  lemma HalfLeft(x: nat, b: nat)
    requires x < TWO32 && 0 <= b <= 32
    ensures Shl(x, b) == Low(x, 32 - b) * Pow2(b) + TWO32 * Shr(x, 32 - b) && Shr(x, 32 - b) < Pow2(b)
    ensures Low(x, 32 - b) * Pow2(b) + Pow2(b) <= TWO32 && Shl(x, b) % TWO32 == Low(x, 32 - b) * Pow2(b)
  {
    hide Low, Shr, Pow2;
    var p, q, x0, x1 := Pow2(b), Pow2(32 - b), Low(x, 32 - b), Shr(x, 32 - b);
    Pow2Words();
    Pow2Add(b, 32 - b);
    JoinShr(x, 0, 32, 32 - b);
    Split(x, 32 - b);
    LowBound(x, 32 - b);
    Over(x0, x1, p, q);
    Scale(x0 + 1, q, p);
    assert (x0 + 1) * p == x0 * p + p;
    DivUnique(x * p, TWO32, x1, x0 * p);
  }

  lemma Over(x0: nat, x1: nat, p: nat, q: nat)
    requires x0 < q && p > 0
    ensures (x0 + q * x1) * p == x0 * p + (p * q) * x1 && x0 * p < p * q
  {
    StrictScale(x0, q, p);
    assert (q * x1) * p == (p * q) * x1;
  }

  /** `__ashldi3`: the shift of the whole word, whatever the shift count. */
  method ShiftLeft(a: nat, count: int) returns (r: nat)
    requires a < TWO64
    ensures r == Shl(a, count % 64) % TWO64
  {
    hide Low, Shr, Pow2, Or, Shl;
    var lo, hi := a % TWO32, a / TWO32;
    var b := count % 64;
    if b >= 32 {
      LeftFar(lo, hi, b - 32);
      hi := Shl(lo, b - 32) % TWO32;
      lo := 0;
    } else if b != 0 {
      LeftParts(lo, hi, b);
      OrAdd(Shr(lo, 32 - b), Low(hi, 32 - b), b);
      DivUnique(Shl(a, b), TWO64, Shr(hi, 32 - b), Low(lo, 32 - b) * Pow2(b) + TWO32 * (Shr(lo, 32 - b) + Low(hi, 32 - b) * Pow2(b)));
      hi := Or(Shr(lo, 32 - b), Shl(hi, b) % TWO32);
      lo := Shl(lo, b) % TWO32;
    } else {
      ShlZero(a);
    }
    r := lo + TWO32 * hi;
  }

  lemma LeftFar(lo: nat, hi: nat, c: nat)
    requires lo < TWO32 && hi < TWO32 && c < 32
    ensures Shl(lo + TWO32 * hi, c + 32) % TWO64 == TWO32 * (Shl(lo, c) % TWO32)
  {
    hide Pow2;
    Pow2Words();
    Pow2Add(c, 32);
    var x, y := lo * Pow2(c), hi * Pow2(c);
    assert (lo + TWO32 * hi) * (Pow2(c) * TWO32) == TWO32 * x + TWO64 * y;
    assert x == x % TWO32 + TWO32 * (x / TWO32);
    DivUnique(TWO32 * x + TWO64 * y, TWO64, x / TWO32 + y, TWO32 * (x % TWO32));
  }

  /** What a shift to the right by less than 32 bits takes apart. */
  lemma RightParts(lo: nat, hi: nat, b: nat)
    requires lo < TWO32 && hi < TWO32 && 0 < b < 32
    ensures var l1, h0 := Shr(lo, b), Low(hi, b);
            && l1 < Pow2(32 - b) && Shl(hi, 32 - b) % TWO32 == h0 * Pow2(32 - b) && l1 + h0 * Pow2(32 - b) < TWO32
            && lo + TWO32 * h0 == Low(lo, b) + Pow2(b) * (l1 + h0 * Pow2(32 - b))
            && hi == h0 + Pow2(b) * Shr(hi, b) && Low(lo, b) < Pow2(b)
  {
    hide Low, Shr, Pow2, Shl;
    HalfLeft(hi, 32 - b);
    assert 32 - (32 - b) == b;
    Split(lo, b);
    Split(hi, b);
    LowBound(lo, b);
    Pow2Words();
    JoinShr(lo, 0, 32, b);
    Pow2Add(b, 32 - b);
    Grouped(Pow2(b), Pow2(32 - b), Shr(lo, b), Low(hi, b));
  }

  lemma Grouped(p: nat, q: nat, l: nat, h: nat)
    ensures p * (l + h * q) == p * l + (p * q) * h
  {
    assert p * (h * q) == (p * q) * h;
  }

  /** `__lshrdi3`. */
  method ShiftRight(a: nat, count: int) returns (r: nat)
    requires a < TWO64
    ensures r == Shr(a, count % 64)
  {
    hide Low, Shr, Pow2, Or, Shl;
    var lo, hi := a % TWO32, a / TWO32;
    var b := count % 64;
    NoBits(a);
    if b >= 32 {
      Pow2Words();
      Join(lo, hi, 32);
      ShrShr(a, 32, b - 32);
      lo := Shr(hi, b - 32);
      hi := 0;
    } else if b != 0 {
      RightParts(lo, hi, b);
      OrAdd(Shr(lo, b), Low(hi, b), 32 - b);
      RightSum(lo, hi, b);
      lo := Or(Shr(lo, b), Shl(hi, 32 - b) % TWO32);
      hi := Shr(hi, b);
    }
    r := lo + TWO32 * hi;
  }

  lemma RightSum(lo: nat, hi: nat, b: nat)
    requires lo < TWO32 && hi < TWO32 && 0 < b < 32
    ensures Shr(lo + TWO32 * hi, b) == Shr(lo, b) + Low(hi, b) * Pow2(32 - b) + TWO32 * Shr(hi, b)
  {
    hide Low, Shr, Pow2;
    RightParts(lo, hi, b);
    var p, y, h1 := Pow2(b), Shr(lo, b) + Low(hi, b) * Pow2(32 - b), Shr(hi, b);
    assert TWO32 * (p * h1) == p * (TWO32 * h1);
    assert p * (y + TWO32 * h1) == p * y + p * (TWO32 * h1);
    Join(Low(lo, b), y + TWO32 * h1, b);
  }

  /** The signed 32-bit word with the bits of `w`, and back. */
  function FromHalf(w: nat): int
    requires w < TWO32
  {
    if w < 0x8000_0000 then w else w - TWO32
  }

  /** Arithmetic shift of a signed 32-bit word: division that rounds down. */
  function HalfShift(w: nat, n: nat): (r: nat)
    requires w < TWO32
    ensures r < TWO32
  {
    FromHalf(w) / Pow2(n) % TWO32
  }

  lemma HalfShiftIs(w: nat, n: nat)
    requires w < TWO32
    ensures FromHalf(HalfShift(w, n)) == FromHalf(w) / Pow2(n)
    ensures -0x8000_0000 <= FromHalf(w) / Pow2(n) < 0x8000_0000
  {
    hide Pow2;
    var x, p := FromHalf(w), Pow2(n);
    var d := x / p;
    assert x == p * d + x % p;
    if x >= 0 {
      assert d >= 0;
      Scale(1, p, d);
    } else {
      assert d <= -1;
      Scale(1, p, -d);
      assert p * d == -(p * -d);
      Floor(x, p, d);
    }
  }

  lemma Floor(x: int, p: nat, d: int)
    requires p > 0 && -0x8000_0000 <= x < 0 && d == x / p
    ensures d >= -0x8000_0000
  {
  }

  lemma SignedParts(lo: nat, hi: nat)
    requires lo < TWO32 && hi < TWO32
    ensures lo + TWO32 * hi < TWO64 && FromWord(lo + TWO32 * hi) == lo + TWO32 * FromHalf(hi)
  {
  }

  /** The low bits of a signed half are those of its word. */
  lemma SignedLow(hi: nat, b: nat)
    requires hi < TWO32 && b <= 32
    ensures FromHalf(hi) == Low(hi, b) + Pow2(b) * (FromHalf(hi) / Pow2(b))
  {
    hide Low, Shr, Pow2;
    var p, q := Pow2(b), Pow2(32 - b);
    Pow2Words();
    Pow2Add(b, 32 - b);
    Split(hi, b);
    LowBound(hi, b);
    if hi < 0x8000_0000 {
      DivUnique(hi, p, Shr(hi, b), Low(hi, b));
    } else {
      assert p * (Shr(hi, b) - q) == p * Shr(hi, b) - TWO32;
      DivUnique(hi - TWO32, p, Shr(hi, b) - q, Low(hi, b));
    }
  }

  /** `__ashrdi3`: division of the signed word by a power of two, rounding down. */
  method ShiftRightSigned(a: nat, count: int) returns (r: nat)
    requires a < TWO64
    ensures r < TWO64 && FromWord(r) == FromWord(a) / Pow2(count % 64)
  {
    hide Low, Shr, Pow2, Or, Shl, HalfShift, FromHalf, FromWord;
    var lo, hi := a % TWO32, a / TWO32;
    var b := count % 64;
    SignedParts(lo, hi);
    if b >= 32 {
      SignedFar(lo, hi, b - 32);
      lo := HalfShift(hi, b - 32);
      hi := HalfShift(hi, 31);
    } else if b != 0 {
      RightParts(lo, hi, b);
      OrAdd(Shr(lo, b), Low(hi, b), 32 - b);
      SignedNear(lo, hi, b);
      lo := Or(Shr(lo, b), Shl(hi, 32 - b) % TWO32);
      hi := HalfShift(hi, b);
    } else {
      DivideByOne(FromWord(a));
    }
    r := lo + TWO32 * hi;
  }

  lemma DivideByOne(x: int)
    ensures x / Pow2(0) == x
  {
  }

  lemma SignedNear(lo: nat, hi: nat, b: nat)
    requires lo < TWO32 && hi < TWO32 && 0 < b < 32
    ensures var y := Shr(lo, b) + Low(hi, b) * Pow2(32 - b);
            y + TWO32 * HalfShift(hi, b) < TWO64 && FromWord(y + TWO32 * HalfShift(hi, b)) == FromWord(lo + TWO32 * hi) / Pow2(b)
  {
    hide Low, Shr, Pow2, HalfShift, FromHalf, FromWord;
    RightParts(lo, hi, b);
    SignedLow(hi, b);
    HalfShiftIs(hi, b);
    var p, y, d := Pow2(b), Shr(lo, b) + Low(hi, b) * Pow2(32 - b), FromHalf(hi) / Pow2(b);
    SignedParts(lo, hi);
    SignedParts(y, HalfShift(hi, b));
    NearSum(lo, Low(hi, b), FromHalf(hi), p, d, Low(lo, b), y);
    DivUnique(lo + TWO32 * FromHalf(hi), p, y + TWO32 * d, Low(lo, b));
  }

  lemma NearSum(lo: int, h0: int, h: int, p: int, d: int, l0: int, y: int)
    requires lo + TWO32 * h0 == l0 + p * y && h == h0 + p * d
    ensures lo + TWO32 * h == l0 + p * (y + TWO32 * d)
  {
    assert p * (y + TWO32 * d) == p * y + TWO32 * (p * d);
  }

  lemma SignedFar(lo: nat, hi: nat, c: nat)
    requires lo < TWO32 && hi < TWO32 && c < 32
    ensures var r := HalfShift(hi, c) + TWO32 * HalfShift(hi, 31);
            r < TWO64 && FromWord(r) == FromWord(lo + TWO32 * hi) / Pow2(c + 32)
  {
    hide Pow2, HalfShift, FromHalf, FromWord;
    SignedParts(lo, hi);
    SignedParts(HalfShift(hi, c), HalfShift(hi, 31));
    HalfShiftIs(hi, c);
    Pow2Words();
    Pow2Add(c, 32);
    var p, h := Pow2(c), FromHalf(hi);
    var d := h / p;
    var m := h - p * d;
    assert 0 <= m < p by { assert h == p * d + h % p; }
    Scale(m, p - 1, TWO32);
    assert (p - 1) * TWO32 == p * TWO32 - TWO32;
    assert (p * TWO32) * d == TWO32 * (p * d);
    DivUnique(lo + TWO32 * h, p * TWO32, d, m * TWO32 + lo);
    SignFills(hi, c);
  }

  /** The upper half gets the sign in every bit. */
  lemma SignFills(hi: nat, c: nat)
    requires hi < TWO32 && c < 32
    ensures HalfShift(hi, c) + TWO32 * FromHalf(HalfShift(hi, 31)) == FromHalf(hi) / Pow2(c)
  {
    hide Pow2;
    HalfShiftIs(hi, c);
    HalfShiftIs(hi, 31);
    assert Pow2(31) == 0x8000_0000 by { Pow2Words(); Pow2Halves(); }
    var h, p := FromHalf(hi), Pow2(c);
    var d := h / p;
    assert h == p * d + h % p;
    if h < 0 {
      assert h / 0x8000_0000 == -1;
      assert d < 0 by { assert d >= 0 ==> p * d >= 0; }
    } else {
      assert h / 0x8000_0000 == 0;
      assert d >= 0 by { assert d <= -1 ==> p * d <= p * -1; }
    }
  }

  lemma Pow2Halves()
    ensures Pow2(32) == 2 * Pow2(31)
  {
  }

  // ----- counting bits

  /** The bits set in the low `n` bits of `x`. */
  function PopCount(x: nat, n: nat): nat {
    if n == 0 then 0 else x % 2 + PopCount(x / 2, n - 1)
  }

  /** The masks 0x5555..., 0x3333... and 0x0F0F..., of `k` groups. */
  function Mask4(k: nat): nat {
    if k == 0 then 0 else 1 + 4 * Mask4(k - 1)
  }

  function Mask16(k: nat): nat {
    if k == 0 then 0 else 3 + 16 * Mask16(k - 1)
  }

  function Mask256(k: nat): nat {
    if k == 0 then 0 else 15 + 256 * Mask256(k - 1)
  }

  lemma Masks()
    ensures Mask4(32) == 0x5555_5555_5555_5555 && Mask16(16) == 0x3333_3333_3333_3333 && Mask256(8) == 0x0F0F_0F0F_0F0F_0F0F
  {
    assert Mask4(8) == 0x5555;
    assert Mask4(16) == 0x5555_5555;
    assert Mask4(24) == 0x5555_5555_5555;
    assert Mask16(8) == 0x3333_3333;
  }

  lemma And4(x: nat, m: nat)
    ensures And(x, 1 + 4 * m) == x % 2 + 4 * And(x / 4, m)
  {
    hide And;
    AndStep(x, 1 + 4 * m);
    AndStep(x / 2, 2 * m);
    DivDiv(x, 2, 2);
  }

  lemma AndPair(x: nat, n: nat)
    ensures And(x, 3 + 4 * n) == x % 4 + 4 * And(x / 4, n)
  {
    hide And;
    AndStep(x, 3 + 4 * n);
    AndStep(x / 2, 1 + 2 * n);
    DivDiv(x, 2, 2);
    Digits(x, 2, 2);
  }

  lemma AndGap(x: nat, n: nat)
    ensures And(x, 4 * n) == 4 * And(x / 4, n)
  {
    hide And;
    AndStep(x, 4 * n);
    AndStep(x / 2, 2 * n);
    DivDiv(x, 2, 2);
  }

  lemma And16(x: nat, m: nat)
    ensures And(x, 3 + 16 * m) == x % 4 + 16 * And(x / 16, m)
  {
    hide And;
    AndPair(x, 4 * m);
    AndGap(x / 4, m);
    DivDiv(x, 4, 4);
  }

  lemma And256(x: nat, m: nat)
    ensures And(x, 15 + 256 * m) == x % 16 + 256 * And(x / 256, m)
  {
    hide And;
    AndPair(x, 3 + 64 * m);
    AndPair(x / 4, 16 * m);
    AndGap(x / 4 / 4, 4 * m);
    AndGap(x / 4 / 4 / 4, m);
    DivDiv(x, 4, 4);
    DivDiv(x, 16, 4);
    DivDiv(x, 64, 4);
    Digits(x, 4, 4);
  }

  /** Two digits at once. */
  lemma Digits(x: nat, a: nat, b: nat)
    requires a > 0 && b > 0
    ensures a * b > 0 && x % (a * b) == x % a + a * (x / a % b)
  {
    var q := x / a;
    TwoSteps(x, a, b, q, x % a, q / b, q % b);
    DivUnique(x, a * b, q / b, x % a + (q % b) * a);
  }

  lemma DivDiv(x: nat, a: nat, b: nat)
    requires a > 0 && b > 0
    ensures a * b > 0 && x / a / b == x / (a * b)
  {
    var q := x / a;
    TwoSteps(x, a, b, q, x % a, q / b, q % b);
    DivUnique(x, a * b, q / b, x % a + (q % b) * a);
  }

  lemma TwoSteps(x: nat, a: nat, b: nat, q: nat, r: nat, t: nat, u: nat)
    requires x == r + a * q && q == u + b * t && r < a && u < b
    ensures x == (r + u * a) + (a * b) * t && r + u * a < a * b && a * b > 0
  {
    Scale(u + 1, b, a);
    assert (u + 1) * a == u * a + a;
    assert a * (u + b * t) == u * a + (a * b) * t;
  }

  /** Every group of two bits of `x` is the number of bits set in that group of `a`. */
  ghost predicate Counted2(x: nat, a: nat, k: nat) {
    if k == 0 then x == 0 else x % 4 == a % 2 + a / 2 % 2 && Counted2(x / 4, a / 4, k - 1)
  }

  ghost predicate Counted4(x: nat, a: nat, k: nat) {
    if k == 0 then x == 0 else x % 16 == PopCount(a, 4) && Counted4(x / 16, a / 16, k - 1)
  }

  ghost predicate Counted8(x: nat, a: nat, k: nat) {
    if k == 0 then x == 0 else x % 256 == PopCount(a, 8) && Counted8(x / 256, a / 256, k - 1)
  }

  lemma {:induction false} CountPairs(a: nat, k: nat)
    requires a < Pow2(2 * k)
    ensures And(a / 2, Mask4(k)) <= a && Counted2(a - And(a / 2, Mask4(k)), a, k)
    decreases k
  {
    hide And;
    if k == 0 {
      AndStep(0, 0);
    } else {
      assert Pow2(2 * k) == 4 * Pow2(2 * (k - 1));
      CountPairs(a / 4, k - 1);
      And4(a / 2, Mask4(k - 1));
      DivDiv(a, 2, 4);
      DivDiv(a, 4, 2);
      var x := a / 4 - And(a / 4 / 2, Mask4(k - 1));
      PairIs(a);
      DivUnique(a - And(a / 2, Mask4(k)), 4, x, a % 2 + a / 2 % 2);
    }
  }

  lemma PairIs(a: nat)
    ensures a - a / 2 % 2 == a % 2 + a / 2 % 2 + 4 * (a / 4)
  {
    DivDiv(a, 2, 2);
  }

  lemma Pop4(a: nat)
    ensures PopCount(a, 4) == a % 2 + a / 2 % 2 + a / 4 % 2 + a / 8 % 2
  {
    assert PopCount(a / 8, 1) == a / 8 % 2;
    assert PopCount(a / 4, 2) == a / 4 % 2 + PopCount(a / 8, 1) by { assert a / 4 / 2 == a / 8; }
    assert PopCount(a / 2, 3) == a / 2 % 2 + PopCount(a / 4, 2) by { assert a / 2 / 2 == a / 4; }
  }

  lemma Pairs(x: nat, a: nat, k: nat)
    requires k > 0 && Counted2(x, a, k)
    ensures x % 4 == a % 2 + a / 2 % 2 && Counted2(x / 4, a / 4, k - 1)
  {
  }

  lemma {:induction false} CountNibbles(x: nat, a: nat, k: nat)
    requires Counted2(x, a, 2 * k)
    ensures Counted4(And(x / 4, Mask16(k)) + And(x, Mask16(k)), a, k)
    decreases k
  {
    hide And, PopCount, Counted2;
    if k == 0 {
      NoPairs(x, a);
    } else {
      Pairs(x, a, 2 * k);
      Pairs(x / 4, a / 4, 2 * k - 1);
      DivDiv(x, 4, 4);
      DivDiv(a, 4, 4);
      DivDiv(a, 4, 2);
      CountNibbles(x / 16, a / 16, k - 1);
      And16(x, Mask16(k - 1));
      And16(x / 4, Mask16(k - 1));
      DivDiv(x, 4, 16);
      DivDiv(x, 16, 4);
      Pop4(a);
      var y := And(x / 16 / 4, Mask16(k - 1)) + And(x / 16, Mask16(k - 1));
      DivUnique(And(x / 4, Mask16(k)) + And(x, Mask16(k)), 16, y, x / 4 % 4 + x % 4);
    }
  }

  lemma NoPairs(x: nat, a: nat)
    requires Counted2(x, a, 0)
    ensures x == 0 && And(0, 0) == 0
  {
  }

  lemma Pop8(a: nat)
    ensures PopCount(a, 8) == PopCount(a, 4) + PopCount(a / 16, 4) && PopCount(a, 4) <= 4
  {
    hide PopCount, Shr;
    Pop4(a);
    PopSplit(a, 4, 4);
    LowShr(a, 4);
    Pow2Values();
  }

  /** Nibbles of at most 4 add up without carry. */
  lemma NoCarry(y: nat)
    requires y % 16 <= 4 && y / 16 % 16 <= 4 && y / 256 % 16 <= 4
    ensures (y + y / 16) % 16 == y % 16 + y / 16 % 16
    ensures (y + y / 16) / 256 == y / 256 + y / 256 / 16
  {
    DivDiv(y, 16, 16);
    DivDiv(y, 256, 16);
    NoCarryParts(y, y / 16, y / 256, y % 16, y / 16 % 16, y / 256 % 16, y / 256 / 16);
  }

  lemma NoCarryParts(y: nat, y1: nat, y2: nat, n0: nat, n1: nat, n2: nat, r: nat)
    requires y == n0 + 16 * y1 && y1 == n1 + 16 * y2 && y2 == n2 + 16 * r && n0 <= 4 && n1 <= 4 && n2 <= 4
    ensures (y + y1) % 16 == n0 + n1 && (y + y1) / 256 == y2 + r
  {
    DivUnique(y + y1, 16, y1 + y2, n0 + n1);
    DivUnique(y + y1, 256, y2 + r, n0 + n1 + 16 * (n1 + n2));
  }

  lemma FirstNibble(y: nat, a: nat, k: nat)
    requires k > 0 && Counted4(y, a, k)
    ensures y % 16 == PopCount(a, 4) && Counted4(y / 16, a / 16, k - 1)
  {
  }

  lemma SmallNibble(y: nat, a: nat, k: nat)
    requires Counted4(y, a, k)
    ensures y % 16 <= 4
  {
    hide PopCount;
    Pop8(a);
  }

  lemma Nibbles(y: nat, a: nat, y1: nat, a1: nat, n: nat)
    requires n >= 2 && Counted4(y, a, n) && y1 == y / 16 && a1 == a / 16
    ensures y % 16 == PopCount(a, 4) && y1 % 16 == PopCount(a1, 4) && Counted4(y1 / 16, a1 / 16, n - 2)
  {
    hide PopCount, Counted4;
    FirstNibble(y, a, n);
    FirstNibble(y1, a1, n - 1);
  }

  lemma {:induction false} CountBytes(y: nat, a: nat, k: nat)
    requires Counted4(y, a, 2 * k)
    ensures Counted8(And(y + y / 16, Mask256(k)), a, k)
    decreases k
  {
    hide And, PopCount, Counted4;
    if k == 0 {
      NoNibbles(y, a);
    } else {
      Nibbles(y, a, y / 16, a / 16, 2 * k);
      DivDiv(y, 16, 16);
      DivDiv(a, 16, 16);
      Pop8(a / 16);
      SmallNibble(y / 256, a / 256, 2 * (k - 1));
      CountBytes(y / 256, a / 256, k - 1);
      Pop8(a);
      NoCarry(y);
      And256(y + y / 16, Mask256(k - 1));
      var z := And(y / 256 + y / 256 / 16, Mask256(k - 1));
      DivUnique(And(y + y / 16, Mask256(k)), 256, z, y % 16 + y / 16 % 16);
    }
  }

  lemma NoNibbles(y: nat, a: nat)
    requires Counted4(y, a, 0)
    ensures y == 0 && And(0, 0) == 0
  {
  }

  /** The bytes of `z` added up, and whether all are at most 8. */
  function ByteSum(z: nat, k: nat): nat {
    if k == 0 then 0 else z % 256 + ByteSum(z / 256, k - 1)
  }

  predicate SmallBytes(z: nat, k: nat) {
    if k == 0 then z == 0 else z % 256 <= 8 && SmallBytes(z / 256, k - 1)
  }

  lemma {:induction false} PopSplit(a: nat, n: nat, m: nat)
    ensures PopCount(a, n + m) == PopCount(a, n) + PopCount(Shr(a, n), m)
    decreases n
  {
    if n > 0 { PopSplit(a / 2, n - 1, m); }
  }

  lemma {:induction false} ByteSumIs(z: nat, a: nat, k: nat)
    requires Counted8(z, a, k)
    ensures ByteSum(z, k) == PopCount(a, 8 * k) && SmallBytes(z, k)
    decreases k
  {
    hide PopCount, Shr;
    if k > 0 {
      ByteSumIs(z / 256, a / 256, k - 1);
      PopSplit(a, 8, 8 * (k - 1));
      LowShr(a, 8);
      Pow2Values();
      Pop8(a);
      Pop8(a / 16);
      assert 8 + 8 * (k - 1) == 8 * k;
    } else {
      assert PopCount(a, 0) == 0 by { NoPop(a); }
    }
  }

  lemma NoPop(a: nat)
    ensures PopCount(a, 0) == 0
  {
  }

  lemma UnrollByte(z: nat, k: nat)
    requires k > 0 && SmallBytes(z, k)
    ensures z == z % 256 + 256 * (z / 256) && z % 256 <= 8 && SmallBytes(z / 256, k - 1) && ByteSum(z, k) == z % 256 + ByteSum(z / 256, k - 1)
  {
  }

  /** Four bytes, and the rest. */
  lemma UnrollWord(z: nat, k: nat) returns (b0: nat, b1: nat, b2: nat, b3: nat, y: nat)
    requires k >= 4 && SmallBytes(z, k)
    ensures b0 <= 8 && b1 <= 8 && b2 <= 8 && b3 <= 8 && SmallBytes(y, k - 4)
    ensures z == b0 + 256 * b1 + 0x1_0000 * b2 + 0x100_0000 * b3 + TWO32 * y
    ensures ByteSum(z, k) == b0 + b1 + b2 + b3 + ByteSum(y, k - 4)
  {
    hide SmallBytes, ByteSum;
    UnrollByte(z, k);
    UnrollByte(z / 256, k - 1);
    UnrollByte(z / 256 / 256, k - 2);
    UnrollByte(z / 256 / 256 / 256, k - 3);
    b0, b1, b2, b3, y := z % 256, z / 256 % 256, z / 256 / 256 % 256, z / 256 / 256 / 256 % 256, z / 256 / 256 / 256 / 256;
  }

  lemma NoBytes(z: nat)
    requires SmallBytes(z, 0)
    ensures z == 0 && ByteSum(z, 0) == 0
  {
  }

  /** Folding eight bytes of at most 8 onto each other. */
  lemma Fold(z: nat)
    requires SmallBytes(z, 8)
    ensures var z4 := z + z / TWO32; var z5 := z4 + z4 / 0x1_0000; (z5 + z5 / 256) % 128 == ByteSum(z, 8)
  {
    hide SmallBytes, ByteSum;
    var b0, b1, b2, b3, h := UnrollWord(z, 8);
    var b4, b5, b6, b7, none := UnrollWord(h, 4);
    NoBytes(none);
    var l := b0 + 256 * b1 + 0x1_0000 * b2 + 0x100_0000 * b3;
    DivUnique(z, TWO32, h, l);
    var c0, c1, c2, c3 := b0 + b4, b1 + b5, b2 + b6, b3 + b7;
    FoldHalf(z + h, c0, c1, c2, c3, h);
  }

  lemma FoldHalf(z4: nat, c0: nat, c1: nat, c2: nat, c3: nat, h: nat)
    requires c0 <= 16 && c1 <= 16 && c2 <= 16 && c3 <= 16
    requires z4 == c0 + 256 * c1 + 0x1_0000 * c2 + 0x100_0000 * c3 + TWO32 * h
    ensures var z5 := z4 + z4 / 0x1_0000; (z5 + z5 / 256) % 128 == c0 + c1 + c2 + c3
  {
    var u := c2 + 256 * c3 + 0x1_0000 * h;
    DivUnique(z4, 0x1_0000, u, c0 + 256 * c1);
    FoldQuarter(z4 + u, c0 + c2, c1 + c3, u + h);
  }

  lemma FoldQuarter(z5: nat, d0: nat, d1: nat, w: nat)
    requires d0 <= 32 && d1 <= 32 && z5 == d0 + 256 * d1 + 0x1_0000 * w
    ensures (z5 + z5 / 256) % 128 == d0 + d1
  {
    DivUnique(z5, 256, d1 + 256 * w, d0);
    DivUnique(z5 + z5 / 256, 128, 2 * d1 + 514 * w, d0 + d1);
  }

  /** `__popcountdi2`: the number of bits set. */
  method PopCount64(word: nat) returns (r: nat)
    requires word < TWO64
    ensures r == PopCount(word, 64)
  {
    hide And, PopCount, Mask4, Mask16, Mask256, Pow2, Counted2, Counted4, Counted8, ByteSum, SmallBytes;
    Pow2Words();
    Masks();
    var a := word;
    CountPairs(word, 32);
    a := a - And(a / 2, 0x5555_5555_5555_5555);
    CountNibbles(a, word, 16);
    a := And(a / 4, 0x3333_3333_3333_3333) + And(a, 0x3333_3333_3333_3333);
    CountBytes(a, word, 8);
    a := And(a + a / 16, 0x0F0F_0F0F_0F0F_0F0F);
    ByteSumIs(a, word, 8);
    Fold(a);
    a := a + a / TWO32;
    a := a + a / 0x1_0000;
    r := (a + a / 256) % 128;
  }
}
