/** Unsigned words as natural numbers.

    A word, and also a whole bit stream read least significant bit first, is a
    natural number.  `x / Pow2(n)` is the C shift `x >> n`, `x % Pow2(n)` is the
    C mask `x & ((1 << n) - 1)`.  `Low` and `Shr` are the same two operations
    written by recursion on the number of bits, which is the form the proofs use.
  */
module Bits {

  type Byte = b: int | 0 <= b < 256

  function Pow2(n: nat): (r: nat)
    ensures r > 0
  {
    if n == 0 then 1 else 2 * Pow2(n - 1)
  }

  /** The low `n` bits of `x`. */
  function Low(x: nat, n: nat): nat {
    if n == 0 then 0 else x % 2 + 2 * Low(x / 2, n - 1)
  }

  /** `x` without its low `n` bits. */
  function Shr(x: nat, n: nat): nat {
    if n == 0 then x else Shr(x / 2, n - 1)
  }

  function Shl(x: nat, n: nat): nat {
    x * Pow2(n)
  }

  predicate Bit(x: nat, i: nat) {
    if i == 0 then x % 2 == 1 else Bit(x / 2, i - 1)
  }

  /** The first `n` bits of the stream `x`, read as a number whose first bit is the
      most significant one.  On words of `n` bits this is bit reversal. */
  function Top(x: nat, n: nat): nat {
    if n == 0 then 0 else 2 * Top(x, n - 1) + Shr(x, n - 1) % 2
  }

  /** Bitwise conjunction. */
  function And(x: nat, y: nat): nat {
    if x == 0 || y == 0 then 0 else (if x % 2 == 1 && y % 2 == 1 then 1 else 0) + 2 * And(x / 2, y / 2)
  }

  /** Bitwise disjunction. */
  function Or(x: nat, y: nat): nat {
    if x == 0 then y else if y == 0 then x
    else (if x % 2 == 1 || y % 2 == 1 then 1 else 0) + 2 * Or(x / 2, y / 2)
  }

  /** The bits `b`, then the stream `rest`. */
  function Cat(b: seq<bool>, rest: nat): nat {
    if b == [] then rest else (if b[0] then 1 else 0) + 2 * Cat(b[1..], rest)
  }

  /** A code of `n` bits, most significant bit first (section 3.1.1 of RFC 1951). */
  function CodeBits(c: nat, n: nat): (b: seq<bool>)
    ensures |b| == n
  {
    if n == 0 then [] else CodeBits(c / 2, n - 1) + [c % 2 == 1]
  }

  /** A data element of `n` bits, least significant bit first (section 3.1.1 of RFC 1951). */
  function DataBits(x: nat, n: nat): (b: seq<bool>)
    ensures |b| == n
  {
    if n == 0 then [] else [x % 2 == 1] + DataBits(x / 2, n - 1)
  }

  // ----- bytes

  /** The bytes as one stream, each least significant bit first. */
  function BytesValue(bytes: seq<Byte>): nat {
    if bytes == [] then 0 else bytes[0] + 256 * BytesValue(bytes[1..])
  }

  /** A read at `p`; behind the end of the input it gives 0 and does not move. */
  function ByteAt(bytes: seq<Byte>, p: nat): Byte {
    if p < |bytes| then bytes[p] else 0
  }

  function NextPos(bytes: seq<Byte>, p: nat): (r: nat)
    requires p <= |bytes|
    ensures p <= r <= |bytes|
  {
    if p < |bytes| then p + 1 else p
  }

  // ----- products

  lemma Twofold(p: int, q: int)
    ensures (2 * p) * q == 2 * (p * q) && p * (2 * q) == 2 * (p * q)
  {
  }

  lemma Scale(a: nat, b: nat, p: nat)
    requires a <= b
    ensures a * p <= b * p
  {
  }

  lemma StrictScale(a: nat, b: nat, p: nat)
    requires a < b && 0 < p
    ensures a * p < b * p
  {
    assert (a + 1) * p == a * p + p;
    Scale(a + 1, b, p);
  }

  // ----- powers of two

  lemma {:induction false} Pow2Add(a: nat, b: nat)
    ensures Pow2(a + b) == Pow2(a) * Pow2(b)
  {
    if a > 0 {
      Pow2Add(a - 1, b);
      Twofold(Pow2(a - 1), Pow2(b));
    }
  }

  lemma {:induction false} Pow2Mono(a: nat, b: nat)
    requires a <= b
    ensures Pow2(a) <= Pow2(b)
  {
    if a < b { Pow2Mono(a, b - 1); }
  }

  lemma Pow2Values()
    ensures Pow2(0) == 1 && Pow2(1) == 2 && Pow2(2) == 4 && Pow2(3) == 8
    ensures Pow2(4) == 16 && Pow2(5) == 32 && Pow2(6) == 64 && Pow2(7) == 128
    ensures Pow2(8) == 0x100 && Pow2(9) == 0x200 && Pow2(10) == 0x400 && Pow2(11) == 0x800
    ensures Pow2(12) == 0x1000 && Pow2(13) == 0x2000 && Pow2(14) == 0x4000 && Pow2(15) == 0x8000
    ensures Pow2(16) == 0x1_0000
  {
    assert Pow2(4) == 16;
    assert Pow2(8) == 0x100;
    assert Pow2(12) == 0x1000;
    assert Pow2(16) == 0x1_0000;
  }

  // ----- Low and Shr

  lemma {:induction false} LowBound(x: nat, n: nat)
    ensures Low(x, n) < Pow2(n)
  {
    if n > 0 { LowBound(x / 2, n - 1); }
  }

  lemma {:induction false} Split(x: nat, n: nat)
    ensures x == Low(x, n) + Pow2(n) * Shr(x, n)
  {
    if n > 0 {
      Split(x / 2, n - 1);
      Twofold(Pow2(n - 1), Shr(x / 2, n - 1));
    }
  }

  lemma NoBits(x: nat)
    ensures Low(x, 0) == 0 && Shr(x, 0) == x
  {
  }

  /** The two descriptions of masking and shifting agree. */
  lemma LowShr(x: nat, n: nat)
    ensures Low(x, n) == x % Pow2(n)
    ensures Shr(x, n) == x / Pow2(n)
  {
    Split(x, n);
    LowBound(x, n);
    DivUnique(x, Pow2(n), Shr(x, n), Low(x, n));
  }

  lemma DivUnique(x: int, d: nat, q: int, r: nat)
    requires r < d && x == r + d * q
    ensures x / d == q && x % d == r
  {
    var e := x / d - q;
    assert d * e == r - x % d by { assert d * e == d * (x / d) - d * q; }
    assert e >= 1 ==> d * e >= d;
    assert e <= -1 ==> d * e <= d * -1;
  }

  lemma ModStep(i: nat, d: nat)
    requires 1 <= d <= i
    ensures (i - d) % d == i % d
  {
    var q := i / d;
    assert d * (q - 1) == d * q - d;
    assert q >= 1 by { assert q < 1 ==> d * q <= 0; }
    DivUnique(i - d, d, q - 1, i % d);
  }

  lemma {:induction false} ShrShr(x: nat, a: nat, b: nat)
    ensures Shr(Shr(x, a), b) == Shr(x, a + b)
  {
    if a > 0 { ShrShr(x / 2, a - 1, b); }
  }

  lemma {:induction false} ShrStep(x: nat, n: nat)
    ensures Shr(x, n + 1) == Shr(x, n) / 2
  {
    if n > 0 { ShrStep(x / 2, n - 1); }
  }

  /** A word `lo` of `n` bits with a stream `hi` above it. */
  lemma {:induction false} Join(lo: nat, hi: nat, n: nat)
    requires lo < Pow2(n)
    ensures Low(lo + Pow2(n) * hi, n) == lo
    ensures Shr(lo + Pow2(n) * hi, n) == hi
  {
    LowShr(lo + Pow2(n) * hi, n);
    DivUnique(lo + Pow2(n) * hi, Pow2(n), hi, lo);
  }

  lemma {:induction false} LowLow(x: nat, a: nat, b: nat)
    requires a <= b
    ensures Low(Low(x, b), a) == Low(x, a)
  {
    if a > 0 {
      LowLow(x / 2, a - 1, b - 1);
      assert Low(x, b) / 2 == Low(x / 2, b - 1);
    }
  }

  lemma HalfSum(lo: nat, rest: nat)
    ensures (lo + 2 * rest) / 2 == lo / 2 + rest && (lo + 2 * rest) % 2 == lo % 2
  {
  }

  /** Taking `n` of the `m` low bits away leaves the word and the stream above it in place. */
  lemma {:induction false} JoinShr(lo: nat, hi: nat, m: nat, n: nat)
    requires n <= m && lo < Pow2(m)
    ensures Low(lo + Pow2(m) * hi, n) == Low(lo, n)
    ensures Shr(lo, n) < Pow2(m - n)
    ensures Shr(lo + Pow2(m) * hi, n) == Shr(lo, n) + Pow2(m - n) * hi
  {
    if n > 0 {
      Twofold(Pow2(m - 1), hi);
      HalfSum(lo, Pow2(m - 1) * hi);
      JoinShr(lo / 2, hi, m - 1, n - 1);
    }
  }

  // ----- Cat

  lemma {:induction false} CatCat(a: seq<bool>, b: seq<bool>, rest: nat)
    ensures Cat(a + b, rest) == Cat(a, Cat(b, rest))
  {
    if a == [] {
      assert a + b == b;
    } else {
      assert (a + b)[1..] == a[1..] + b;
      CatCat(a[1..], b, rest);
    }
  }

  lemma {:induction false} CatShr(b: seq<bool>, rest: nat)
    ensures Shr(Cat(b, rest), |b|) == rest
  {
    if b != [] { CatShr(b[1..], rest); }
  }

  lemma {:induction false} CatData(x: nat, n: nat, rest: nat)
    requires x < Pow2(n)
    ensures Low(Cat(DataBits(x, n), rest), n) == x
    ensures Shr(Cat(DataBits(x, n), rest), n) == rest
  {
    if n > 0 {
      CatData(x / 2, n - 1, rest);
      assert DataBits(x, n)[1..] == DataBits(x / 2, n - 1);
    }
  }

  lemma CatInjective(b: seq<bool>, x: nat, y: nat)
    requires Cat(b, x) == Cat(b, y)
    ensures x == y
  {
    CatShr(b, x);
    CatShr(b, y);
  }

  lemma {:induction false} CatSame(a: seq<bool>, x: nat, b: seq<bool>, y: nat)
    requires |a| == |b| && Cat(a, x) == Cat(b, y)
    ensures a == b && x == y
  {
    if a != [] {
      CatSame(a[1..], x, b[1..], y);
      assert a == [a[0]] + a[1..] && b == [b[0]] + b[1..];
    }
  }

  /** Every stream starts with its own low bits. */
  lemma {:induction false} DataCat(x: nat, n: nat)
    ensures Cat(DataBits(Low(x, n), n), Shr(x, n)) == x
  {
    if n > 0 {
      DataCat(x / 2, n - 1);
      assert Low(x, n) / 2 == Low(x / 2, n - 1);
      assert DataBits(Low(x, n), n)[1..] == DataBits(Low(x / 2, n - 1), n - 1);
    }
  }

  lemma {:induction false} ShrLess(x: nat, n: nat)
    ensures Shr(x, n) <= x && (x > 0 && n > 0 ==> Shr(x, n) < x)
  {
    if n > 0 { ShrLess(x / 2, n - 1); }
  }

  // ----- Top

  lemma {:induction false} TopBound(x: nat, n: nat)
    ensures Top(x, n) < Pow2(n)
  {
    if n > 0 { TopBound(x, n - 1); }
  }

  /** The first bit of the stream is the most significant one. */
  lemma {:induction false} TopHead(x: nat, n: nat)
    ensures Top(x, n + 1) == Pow2(n) * (x % 2) + Top(x / 2, n)
  {
    if n > 0 {
      TopHead(x, n - 1);
      Twofold(Pow2(n - 1), x % 2);
    }
  }

  lemma {:induction false} TopLow(x: nat, y: nat, n: nat)
    ensures Top(x, n) == Top(y, n) <==> Low(x, n) == Low(y, n)
  {
    if n > 0 {
      TopLow(x / 2, y / 2, n - 1);
      TopHead(x, n - 1);
      TopHead(y, n - 1);
      TopBound(x / 2, n - 1);
      TopBound(y / 2, n - 1);
      HeadUnique(Pow2(n - 1), x % 2, Top(x / 2, n - 1), y % 2, Top(y / 2, n - 1));
    }
  }

  lemma HeadUnique(p: nat, a: nat, s: nat, b: nat, t: nat)
    requires a < 2 && b < 2 && s < p && t < p
    ensures p * a + s == p * b + t <==> a == b && s == t
  {
    assert p * a == if a == 1 then p else 0;
    assert p * b == if b == 1 then p else 0;
  }

  lemma DoubleInterval(t: nat, p: nat, x: nat, bit: nat)
    requires t * p <= x < (t + 1) * p && bit < 2
    ensures t * (2 * p) <= 2 * x + bit < (t + 1) * (2 * p)
  {
    Twofold(t, p);
    Twofold(t + 1, p);
  }

  /** A shorter prefix is the top part of a longer one. */
  lemma {:induction false} TopPrefix(x: nat, s: nat, n: nat)
    requires s <= n
    ensures Shr(Top(x, n), n - s) == Top(x, s)
    ensures Top(x, s) * Pow2(n - s) <= Top(x, n) < (Top(x, s) + 1) * Pow2(n - s)
    decreases n
  {
    if s < n {
      TopPrefix(x, s, n - 1);
      assert Top(x, n) / 2 == Top(x, n - 1);
      DoubleInterval(Top(x, s), Pow2(n - 1 - s), Top(x, n - 1), Shr(x, n - 1) % 2);
      assert n - s - 1 == n - 1 - s;
    }
  }

  /** The first `a` bits, then the next `b`. */
  lemma {:induction false} TopSplit(x: nat, a: nat, b: nat)
    ensures Top(x, a + b) == Top(x, a) * Pow2(b) + Top(Shr(x, a), b)
  {
    if b > 0 {
      TopSplit(x, a, b - 1);
      ShrShr(x, a, b - 1);
      Twofold(Top(x, a), Pow2(b - 1));
    }
  }

  lemma {:induction false} TopZero(n: nat)
    ensures Top(0, n) == 0 && Shr(0, n) == 0
  {
    if n > 0 { TopZero(n - 1); }
  }

  lemma ShrSmall(x: nat, n: nat)
    requires x < Pow2(n)
    ensures Shr(x, n) == 0
  {
    Split(x, n);
    assert Shr(x, n) >= 1 ==> Pow2(n) * Shr(x, n) >= Pow2(n);
  }

  /** A word of `n` bits is followed by zeros. */
  lemma TopShort(x: nat, n: nat, m: nat)
    requires x < Pow2(n)
    ensures Top(x, n + m) == Top(x, n) * Pow2(m)
  {
    TopSplit(x, n, m);
    ShrSmall(x, n);
    TopZero(m);
  }

  /** Dropping `s` bits of a stream of at most `n` bits is a shift to the left of its first bits. */
  lemma TopShift(x: nat, n: nat, s: nat)
    requires x < Pow2(n)
    ensures Low(Shl(Top(x, n), s), n) == Top(Shr(x, s), n)
  {
    hide Low, Top, Shr;
    TopShort(x, n, s);
    assert s + n == n + s;
    TopSplit(x, s, n);
    TopBound(Shr(x, s), n);
    Join(Top(Shr(x, s), n), Top(x, s), n);
    assert Top(x, s) * Pow2(n) == Pow2(n) * Top(x, s);
  }

  lemma ShrHigh(c: nat, n: nat)
    requires c < Pow2(n + 1)
    ensures Shr(c, n) < 2
  {
    Split(c, n);
    assert Shr(c, n) >= 2 ==> Pow2(n) * Shr(c, n) >= Pow2(n) * 2;
  }

  lemma TopTopStep(t: nat, b: nat, n: nat)
    requires b < 2
    ensures Top(2 * t + b, n + 1) == Pow2(n) * b + Top(t, n)
  {
    TopHead(2 * t + b, n);
  }

  /** Reversing a code gives the stream word it is written as. */
  lemma {:induction false} TopTop(c: nat, n: nat)
    requires c < Pow2(n)
    ensures Top(Top(c, n), n) == c
    decreases n
  {
    if n > 0 {
      var b, c' := Shr(c, n - 1), Low(c, n - 1);
      assert c' < Pow2(n - 1) by { LowBound(c, n - 1); }
      assert b < 2 by { ShrHigh(c, n - 1); }
      assert Top(c, n - 1) == Top(c', n - 1) by { LowLow(c, n - 1, n - 1); TopLow(c, c', n - 1); }
      assert Top(c, n) == 2 * Top(c', n - 1) + b;
      calc {
        Top(Top(c, n), n);
        { TopTopStep(Top(c', n - 1), b, n - 1); }
        Pow2(n - 1) * b + Top(Top(c', n - 1), n - 1);
        { TopTop(c', n - 1); }
        Pow2(n - 1) * b + c';
        { Split(c, n - 1); }
        c;
      }
    }
  }

  /** A code written most significant bit first is read back by `Top`. */
  lemma {:induction false} CatCode(c: nat, n: nat, rest: nat)
    requires c < Pow2(n)
    ensures Top(Cat(CodeBits(c, n), rest), n) == c
    ensures Shr(Cat(CodeBits(c, n), rest), n) == rest
  {
    if n > 0 {
      var bit := [c % 2 == 1];
      CatCat(CodeBits(c / 2, n - 1), bit, rest);
      CatCode(c / 2, n - 1, Cat(bit, rest));
      CatShr(CodeBits(c, n), rest);
      assert Cat(bit, rest) % 2 == c % 2 by { assert Cat(bit[1..], rest) == rest; }
    }
  }

  /** Every stream starts with the code made of its first bits. */
  lemma {:induction false} TopCat(x: nat, n: nat)
    ensures Cat(CodeBits(Top(x, n), n), Shr(x, n)) == x
  {
    if n > 0 {
      var bit := [Top(x, n) % 2 == 1];
      TopCat(x, n - 1);
      assert Top(x, n) / 2 == Top(x, n - 1);
      CatCat(CodeBits(Top(x, n - 1), n - 1), bit, Shr(x, n));
      ShrStep(x, n - 1);
      assert Cat(bit, Shr(x, n)) == Shr(x, n - 1) by { assert Cat(bit[1..], Shr(x, n)) == Shr(x, n); }
    }
  }

  // ----- bitwise operators

  lemma {:induction false} AndBit(x: nat, y: nat, i: nat)
    ensures Bit(And(x, y), i) == (Bit(x, i) && Bit(y, i))
  {
    if x == 0 || y == 0 {
      ZeroBit(i);
    } else if i > 0 {
      AndBit(x / 2, y / 2, i - 1);
    }
  }

  lemma {:induction false} OrBit(x: nat, y: nat, i: nat)
    ensures Bit(Or(x, y), i) == (Bit(x, i) || Bit(y, i))
  {
    if x == 0 || y == 0 {
      ZeroBit(i);
    } else if i > 0 {
      OrBit(x / 2, y / 2, i - 1);
    }
  }

  lemma {:induction false} ZeroBit(i: nat)
    ensures !Bit(0, i)
  {
    if i > 0 { ZeroBit(i - 1); }
  }

  lemma {:induction false} ShrBit(x: nat, n: nat, i: nat)
    ensures Bit(Shr(x, n), i) == Bit(x, i + n)
  {
    if n > 0 { ShrBit(x / 2, n - 1, i); }
  }

  lemma {:induction false} LowBit(x: nat, n: nat, i: nat)
    ensures Bit(Low(x, n), i) == (i < n && Bit(x, i))
    decreases n
  {
    if n == 0 {
      ZeroBit(i);
    } else if i > 0 {
      assert Low(x, n) / 2 == Low(x / 2, n - 1);
      LowBit(x / 2, n - 1, i - 1);
    }
  }

  lemma {:induction false} ShlBit(x: nat, n: nat, i: nat)
    ensures Bit(x * Pow2(n), i) == (i >= n && Bit(x, i - n))
    decreases n
  {
    if n > 0 {
      Twofold(x, Pow2(n - 1));
      if i > 0 { ShlBit(x, n - 1, i - 1); }
    }
  }

  /** Words of `n` bits with the same bits are equal. */
  lemma {:induction false} SameBits(x: nat, y: nat, n: nat)
    requires x < Pow2(n) && y < Pow2(n)
    requires forall i: nat | i < n :: Bit(x, i) == Bit(y, i)
    ensures x == y
  {
    if n > 0 {
      assert Bit(x, 0) == Bit(y, 0);
      forall i: nat | i < n - 1 ensures Bit(x / 2, i) == Bit(y / 2, i) {
        assert Bit(x, i + 1) == Bit(y, i + 1);
      }
      SameBits(x / 2, y / 2, n - 1);
    }
  }

  lemma {:induction false} HighBits(x: nat, n: nat, i: nat)
    requires x < Pow2(n) && n <= i
    ensures !Bit(x, i)
  {
    if n == 0 { ZeroBit(i); } else { HighBits(x / 2, n - 1, i - 1); }
  }

  lemma {:induction false} BoundedBits(x: nat, n: nat)
    requires forall i: nat | n <= i :: !Bit(x, i)
    ensures x < Pow2(n)
    decreases n + x
  {
    if n == 0 {
      if x > 0 {
        assert !Bit(x, 0);
        forall i: nat ensures !Bit(x / 2, i) { assert !Bit(x, i + 1); }
        BoundedBits(x / 2, 0);
      }
    } else {
      forall i: nat | n - 1 <= i ensures !Bit(x / 2, i) { assert !Bit(x, i + 1); }
      BoundedBits(x / 2, n - 1);
    }
  }

  /** Words that overlap in no bit: or is addition. */
  lemma {:induction false} OrAdd(lo: nat, hi: nat, n: nat)
    requires lo < Pow2(n)
    ensures Or(lo, hi * Pow2(n)) == lo + hi * Pow2(n)
  {
    if lo == 0 || hi * Pow2(n) == 0 {
    } else {
      Twofold(hi, Pow2(n - 1));
      OrAdd(lo / 2, hi, n - 1);
    }
  }

  /** A byte put on top of a word of `num_bits` bits. */
  lemma Absorb(code_buffer: nat, num_bits: nat, b: nat, rest: nat)
    requires code_buffer < Pow2(num_bits) && b < 256
    ensures Or(code_buffer, Shl(b, num_bits)) == code_buffer + b * Pow2(num_bits) < Pow2(num_bits + 8)
    ensures code_buffer + b * Pow2(num_bits) + Pow2(num_bits + 8) * rest == code_buffer + Pow2(num_bits) * (b + 256 * rest)
  {
    hide Or, Pow2;
    OrAdd(code_buffer, b, num_bits);
    Pow2Add(num_bits, 8);
    Pow2Values();
    AbsorbProduct(code_buffer, Pow2(num_bits), b, rest);
  }

  lemma AbsorbProduct(c: nat, p: nat, b: nat, rest: nat)
    requires c < p && b < 256
    ensures c + b * p < p * 256 && c + b * p + (p * 256) * rest == c + p * (b + 256 * rest)
  {
    Scale(b, 255, p);
    assert (p * 256) * rest == p * (256 * rest);
    assert p * (b + 256 * rest) == p * b + p * (256 * rest);
  }

  lemma {:induction false} TopBit(x: nat, n: nat, i: nat)
    requires i < n
    ensures Bit(Top(x, n), i) == Bit(x, n - 1 - i)
  {
    if i == 0 {
      ShrBit(x, n - 1, 0);
    } else {
      TopBit(x, n - 1, i - 1);
      assert Top(x, n) / 2 == Top(x, n - 1);
    }
  }

  // ----- stbi__bitreverse16

  /** One stage: exchange neighbouring groups of `w` bits. */
  function SwapGroups(n: nat, high: nat, low: nat, w: nat): nat {
    Or(Shr(And(n, high), w), Shl(And(n, low), w))
  }

  function BitReverse16(n: nat): nat {
    var n1 := SwapGroups(n, 0xAAAA, 0x5555, 1);
    var n2 := SwapGroups(n1, 0xCCCC, 0x3333, 2);
    var n4 := SwapGroups(n2, 0xF0F0, 0x0F0F, 4);
    SwapGroups(n4, 0xFF00, 0x00FF, 8)
  }

  function BitReverse(v: nat, bits: nat): nat
    requires bits <= 16
  {
    Shr(BitReverse16(v), 16 - bits)
  }

  lemma SwapBit(n: nat, high: nat, low: nat, w: nat, i: nat)
    ensures Bit(SwapGroups(n, high, low, w), i)
         == ((Bit(n, i + w) && Bit(high, i + w)) || (i >= w && Bit(n, i - w) && Bit(low, i - w)))
  {
    OrBit(Shr(And(n, high), w), Shl(And(n, low), w), i);
    ShrBit(And(n, high), w, i);
    ShlBit(And(n, low), w, i);
    AndBit(n, high, i + w);
    if i >= w { AndBit(n, low, i - w); }
  }

  /** A mask of 16 bits made of alternating groups of `w` ones and zeros. */
  ghost predicate Alternates(m: nat, w: nat, phase: nat)
    requires w > 0
  {
    forall i: nat :: Bit(m, i) == (i < 16 && i / w % 2 == phase)
  }

  lemma {:induction false} MaskBits(m: nat, w: nat, phase: nat)
    requires w > 0 && m < 0x1_0000
    requires forall i: nat | i < 16 :: (m / TWO_TO[i] % 2 == 1) == (i / w % 2 == phase)
    ensures Alternates(m, w, phase)
  {
    forall i: nat ensures Bit(m, i) == (i < 16 && i / w % 2 == phase) {
      Pow2Values();
      if i < 16 {
        LowShr(m, i);
        ShrBit(m, i, 0);
        assert Pow2(i) == TWO_TO[i];
      } else {
        HighBits(m, 16, i);
      }
    }
  }

  const TWO_TO: seq<nat> :=
    [1, 2, 4, 8, 16, 32, 64, 128, 256, 512, 1024, 2048, 4096, 8192, 16384, 32768]

  lemma SwapStage(n: nat, high: nat, low: nat, w: nat, i: nat)
    requires w in {1, 2, 4, 8} && Alternates(high, w, 1) && Alternates(low, w, 0)
    ensures Bit(SwapGroups(n, high, low, w), i)
         == (i < 16 && Bit(n, Partner(i, w)))
  {
    hide Bit, SwapGroups, Pow2, And, Or, Shr, Shl;
    SwapBit(n, high, low, w, i);
    GroupParity(i, w);
  }

  lemma GroupParity(i: nat, w: nat)
    requires w in {1, 2, 4, 8}
    ensures (i + w) / w == i / w + 1
    ensures i >= w ==> (i - w) / w == i / w - 1
    ensures i / w % 2 == 1 ==> i >= w
    ensures i / w % 2 == 0 ==> (i < 16 <==> i + w < 16)
    ensures i / w % 2 == 1 ==> (i < 16 <==> i - w < 16)
  {
    if w == 8 {
      assert i / 8 < 2 <==> i < 16;
    } else if w == 4 {
      assert i / 4 < 4 <==> i < 16;
    } else if w == 2 {
      assert i / 2 < 8 <==> i < 16;
    }
  }

  lemma MaskAAAA() ensures Alternates(0xAAAA, 1, 1) { MaskBits(0xAAAA, 1, 1); }
  lemma Mask5555() ensures Alternates(0x5555, 1, 0) { MaskBits(0x5555, 1, 0); }
  lemma MaskCCCC() ensures Alternates(0xCCCC, 2, 1) { MaskBits(0xCCCC, 2, 1); }
  lemma Mask3333() ensures Alternates(0x3333, 2, 0) { MaskBits(0x3333, 2, 0); }
  lemma MaskF0F0() ensures Alternates(0xF0F0, 4, 1) { MaskBits(0xF0F0, 4, 1); }
  lemma Mask0F0F() ensures Alternates(0x0F0F, 4, 0) { MaskBits(0x0F0F, 4, 0); }
  lemma MaskFF00() ensures Alternates(0xFF00, 8, 1) { MaskBits(0xFF00, 8, 1); }
  lemma Mask00FF() ensures Alternates(0x00FF, 8, 0) { MaskBits(0x00FF, 8, 0); }

  /** Where bit `i` comes from when neighbouring groups of `w` bits change places. */
  function Partner(i: nat, w: nat): nat
    requires w > 0
  {
    if i / w % 2 == 0 then i + w else i - w
  }

  lemma BitReverse16Bit(n: nat, i: nat)
    ensures Bit(BitReverse16(n), i) == (i < 16 && Bit(n, 15 - i))
  {
    MaskAAAA(); Mask5555(); MaskCCCC(); Mask3333(); MaskF0F0(); Mask0F0F(); MaskFF00(); Mask00FF();
    var n1 := SwapGroups(n, 0xAAAA, 0x5555, 1);
    var n2 := SwapGroups(n1, 0xCCCC, 0x3333, 2);
    var n4 := SwapGroups(n2, 0xF0F0, 0x0F0F, 4);
    SwapStage(n4, 0xFF00, 0x00FF, 8, i);
    if i < 16 {
      SwapStage(n2, 0xF0F0, 0x0F0F, 4, Partner(i, 8));
      SwapStage(n1, 0xCCCC, 0x3333, 2, Partner(Partner(i, 8), 4));
      SwapStage(n, 0xAAAA, 0x5555, 1, Partner(Partner(Partner(i, 8), 4), 2));
      Partners(i);
    }
  }

  lemma Partners(i: nat)
    requires i < 16
    ensures Partner(Partner(Partner(Partner(i, 8), 4), 2), 1) == 15 - i
    ensures Partner(i, 8) < 16 && Partner(Partner(i, 8), 4) < 16 && Partner(Partner(Partner(i, 8), 4), 2) < 16
  {
  }

  /** The four-stage exchange reverses the low 16 bits of any word. */
  lemma BitReverse16Correct(n: nat)
    ensures BitReverse16(n) == Top(n, 16)
  {
    forall i: nat ensures Bit(BitReverse16(n), i) == (i < 16 && Bit(n, 15 - i)) {
      BitReverse16Bit(n, i);
    }
    BoundedBits(BitReverse16(n), 16);
    TopBound(n, 16);
    forall i: nat | i < 16 ensures Bit(BitReverse16(n), i) == Bit(Top(n, 16), i) {
      TopBit(n, 16, i);
    }
    SameBits(BitReverse16(n), Top(n, 16), 16);
  }

  /** `stbi__bit_reverse` reverses the low `bits` bits of `v`, and ignores the others. */
  lemma BitReverseCorrect(v: nat, bits: nat)
    requires bits <= 16
    ensures BitReverse(v, bits) == Top(v, bits)
  {
    BitReverse16Correct(v);
    TopPrefix(v, bits, 16);
  }
}
