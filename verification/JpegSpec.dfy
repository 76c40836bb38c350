/** Huffman tables and decoding of ITU-T T.81: Annex C, and sections F.2.2.1 and F.2.2.3. */
module JpegSpec {
  import opened Bits
  import opened Canonical

  // ----- HUFFSIZE, Figure C.1

  predicate Counts(count: seq<nat>) {
    |count| == 16
  }

  /** Symbols with codes of at most `j` bits. */
  function Upto(count: seq<nat>, j: nat): nat
    requires Counts(count) && j <= 16
  {
    if j == 0 then 0 else Upto(count, j - 1) + count[j - 1]
  }

  /** The size table: `count[0]` ones, `count[1]` twos and so on. */
  function HuffSize(count: seq<nat>, j: nat): (ls: seq<nat>)
    requires Counts(count) && j <= 16
    ensures |ls| == Upto(count, j)
  {
    if j == 0 then [] else HuffSize(count, j - 1) + seq(count[j - 1], _ => j)
  }

  function Sizes(count: seq<nat>): seq<nat>
    requires Counts(count)
  {
    HuffSize(count, 16)
  }

  lemma {:induction false} UptoMono(count: seq<nat>, i: nat, j: nat)
    requires Counts(count) && i <= j <= 16
    ensures Upto(count, i) <= Upto(count, j)
  {
    if i < j { UptoMono(count, i, j - 1); }
  }

  /** The symbols of length `l` are those numbered from Upto(l - 1) to Upto(l). */
  lemma {:induction false} SizeAt(count: seq<nat>, j: nat, k: nat, l: nat)
    requires Counts(count) && j <= 16 && k < Upto(count, j) && 1 <= l <= 16
    ensures HuffSize(count, j)[k] == l <==> Upto(count, l - 1) <= k < Upto(count, l)
    ensures 1 <= HuffSize(count, j)[k] <= j
    decreases j
  {
    if k < Upto(count, j - 1) {
      SizeAt(count, j - 1, k, l);
      if l >= j { UptoMono(count, j - 1, l - 1); }
    } else {
      assert HuffSize(count, j)[k] == j;
      if l < j { UptoMono(count, l, j - 1); }
      if l > j { UptoMono(count, j, l - 1); }
    }
  }

  /** Symbols of length `l` among the first `n`. */
  lemma {:induction false} CountSorted(count: seq<nat>, n: nat, l: nat)
    requires Counts(count) && n <= Upto(count, 16) && 1 <= l <= 16
    ensures Count(Sizes(count), n, l)
         == if n <= Upto(count, l - 1) then 0 else if n >= Upto(count, l) then count[l - 1] else n - Upto(count, l - 1)
  {
    if n > 0 {
      CountSorted(count, n - 1, l);
      SizeAt(count, 16, n - 1, l);
    }
  }

  lemma TotalIs(count: seq<nat>, l: nat)
    requires Counts(count) && 1 <= l <= 16
    ensures Total(Sizes(count), l) == count[l - 1]
  {
    hide HuffSize;
    UptoMono(count, l, 16);
    CountSorted(count, |Sizes(count)|, l);
  }

  lemma CodeIs(count: seq<nat>, k: nat, l: nat)
    requires Counts(count) && 1 <= l <= 16 && Upto(count, l - 1) <= k < Upto(count, l) <= Upto(count, 16)
    ensures Sizes(count)[k] == l && Code(Sizes(count), k) == First(Sizes(count), l) + (k - Upto(count, l - 1))
  {
    SizeAt(count, 16, k, l);
    CountSorted(count, k, l);
  }

  lemma SizesBounded(count: seq<nat>)
    requires Counts(count)
    ensures Bounded(Sizes(count)) && forall i | 0 <= i < |Sizes(count)| :: Sizes(count)[i] >= 1
  {
    hide HuffSize;
    forall i | 0 <= i < |Sizes(count)| ensures 1 <= Sizes(count)[i] <= 16 { SizeAt(count, 16, i, 1); }
  }

  // ----- HUFFCODE, Figure C.2

  /** Codes one after the other: add one, and append a zero for every bit the next size is longer. */
  function HuffCode(ls: seq<nat>, k: nat): nat
    requires k < |ls| && forall i | 0 < i < |ls| :: ls[i - 1] <= ls[i]
  {
    if k == 0 then 0 else Shl(HuffCode(ls, k - 1) + 1, ls[k] - ls[k - 1])
  }

  lemma {:induction false} FirstAfter(count: seq<nat>, l: nat, m: nat)
    requires Counts(count) && 1 <= l <= m <= 16 && Upto(count, l) == Upto(count, m - 1)
    ensures l < m ==> First(Sizes(count), m) == Shl(Past(Sizes(count), l), m - l)
  {
    if l < m - 1 {
      UptoMono(count, l, m - 2);
      UptoMono(count, m - 2, m - 1);
      FirstAfter(count, l, m - 1);
      TotalIs(count, m - 1);
      var x, p := Past(Sizes(count), l), Pow2(m - 1 - l);
      assert 2 * (x * p) == x * (2 * p);
      assert Pow2(m - l) == 2 * p;
    } else if l == m - 1 {
      assert Pow2(1) == 2;
    }
  }

  lemma Sorted(count: seq<nat>, i: nat)
    requires Counts(count) && 0 < i < |Sizes(count)|
    ensures Sizes(count)[i - 1] <= Sizes(count)[i]
  {
    var l, m := Sizes(count)[i - 1], Sizes(count)[i];
    SizeAt(count, 16, i - 1, 1);
    SizeAt(count, 16, i, 1);
    SizeAt(count, 16, i - 1, l);
    SizeAt(count, 16, i, m);
    if m < l { UptoMono(count, m, l - 1); }
  }

  lemma AllSorted(count: seq<nat>)
    requires Counts(count)
    ensures forall i | 0 < i < |Sizes(count)| :: Sizes(count)[i - 1] <= Sizes(count)[i]
  {
    hide HuffSize;
    forall i | 0 < i < |Sizes(count)| ensures Sizes(count)[i - 1] <= Sizes(count)[i] { Sorted(count, i); }
  }

  lemma {:induction false} FirstZero(count: seq<nat>, l: nat)
    requires Counts(count) && 1 <= l <= 16 && Upto(count, l - 1) == 0
    ensures First(Sizes(count), l) == 0
  {
    if l > 1 {
      FirstZero(count, l - 1);
      TotalIs(count, l - 1);
    }
  }

  /** The codes of Figure C.2 are the canonical codes of the size table. */
  lemma {:induction false} HuffCodeIsCode(count: seq<nat>, k: nat)
    requires Counts(count) && k < |Sizes(count)|
    requires forall i | 0 < i < |Sizes(count)| :: Sizes(count)[i - 1] <= Sizes(count)[i]
    ensures HuffCode(Sizes(count), k) == Code(Sizes(count), k)
  {
    hide HuffSize, First;
    var ls := Sizes(count);
    SizeAt(count, 16, k, 1);
    var m := ls[k];
    SizeAt(count, 16, k, m);
    UptoMono(count, m, 16);
    CodeIs(count, k, m);
    if k == 0 {
      FirstZero(count, m);
    } else {
      HuffCodeIsCode(count, k - 1);
      SizeAt(count, 16, k - 1, 1);
      var l := ls[k - 1];
      SizeAt(count, 16, k - 1, l);
      UptoMono(count, l, 16);
      CodeIs(count, k - 1, l);
      if l == m {
        assert Pow2(0) == 1;
      } else {
        UptoMono(count, l, m - 1);
        FirstAfter(count, l, m);
        TotalIs(count, l);
      }
    }
  }

  // ----- DECODE, Figure F.16

  ghost predicate FitsWords(ls: seq<nat>) {
    forall l | 1 <= l <= 16 :: Past(ls, l) <= Pow2(l)
  }

  /** The largest code of `i` bits, or -1. */
  function MaxCode(ls: seq<nat>, i: nat): int {
    if Total(ls, i) == 0 then -1 else Past(ls, i) - 1
  }

  /** Read one bit more until the code is at most the largest of its length; the symbol number, or -1. */
  function DecodeFrom(count: seq<nat>, stream: nat, i: nat): int
    requires Counts(count) && 1 <= i
    decreases 17 - i
  {
    if i > 16 then -1
    else if Top(stream, i) > MaxCode(Sizes(count), i) then DecodeFrom(count, stream, i + 1)
    else Upto(count, i - 1) + Top(stream, i) - First(Sizes(count), i)
  }

  function T81Decode(count: seq<nat>, stream: nat): int
    requires Counts(count)
  {
    DecodeFrom(count, stream, 1)
  }

  lemma {:induction false} DecodeFromMatches(count: seq<nat>, stream: nat, i: nat)
    requires Counts(count) && 1 <= i <= 17 && Edge(Sizes(count), i - 1) <= Top(stream, 16)
    ensures var r := DecodeFrom(count, stream, i);
            if r >= 0 then r < |Sizes(count)| && Matches(Sizes(count), r, stream)
            else r == -1 && forall k: nat | k < |Sizes(count)| :: !Matches(Sizes(count), k, stream)
    decreases 17 - i
  {
    hide HuffSize, First, Top, Edge;
    var ls := Sizes(count);
    SizesBounded(count);
    if i > 16 {
      MatchIff(ls, 16, stream);
    } else {
      AboveFirst(ls, stream, i);
      if Top(stream, i) > MaxCode(ls, i) {
        DecodeFromMatches(count, stream, i + 1);
      } else {
        var k := IntervalMatch(ls, i, stream);
        SizeAt(count, 16, k, i);
        CountSorted(count, k, i);
      }
    }
  }

  lemma AboveFirst(ls: seq<nat>, stream: nat, i: nat)
    requires 1 <= i <= 16 && Edge(ls, i - 1) <= Top(stream, 16)
    ensures First(ls, i) <= Top(stream, i)
    ensures Top(stream, i) > MaxCode(ls, i) <==> Edge(ls, i) <= Top(stream, 16)
  {
    hide First, Top;
    TopPrefix(stream, i, 16);
    FirstEdge(ls, i);
    var t, p := Top(stream, i), Pow2(16 - i);
    if t < First(ls, i) { Scale(t + 1, First(ls, i), p); }
    if t < Past(ls, i) { Scale(t + 1, Past(ls, i), p); } else { Scale(Past(ls, i), t, p); }
  }

  /** The bitwise procedure gives the symbol whose code starts the stream, or -1 if there is none. */
  lemma T81DecodeMatches(count: seq<nat>, stream: nat)
    requires Counts(count)
    ensures var r := T81Decode(count, stream);
            if r >= 0 then r < |Sizes(count)| && Matches(Sizes(count), r, stream)
            else r == -1 && forall k: nat | k < |Sizes(count)| :: !Matches(Sizes(count), k, stream)
  {
    DecodeFromMatches(count, stream, 1);
  }

  /** Whoever finds a symbol whose code starts the stream has found that of the procedure. */
  lemma T81DecodeIs(count: seq<nat>, stream: nat, k: nat)
    requires Counts(count) && k < |Sizes(count)| && Matches(Sizes(count), k, stream)
    ensures T81Decode(count, stream) == k
  {
    hide HuffSize, DecodeFrom, Matches;
    T81DecodeMatches(count, stream);
    SizesBounded(count);
    PrefixFree(Sizes(count), k, T81Decode(count, stream), stream);
  }

  // ----- RECEIVE and EXTEND, section F.2.2.1

  /** The next `t` bits as a number, first bit most significant. */
  function ReceiveBits(stream: nat, t: nat): nat {
    Top(stream, t)
  }

  /** Magnitudes whose first bit is zero stand for the negative values. */
  function ExtendSign(v: int, t: nat): int {
    if t > 0 && v < Pow2(t - 1) then v - Pow2(t) + 1 else v
  }

  // ----- one block, sections F.2.2.1 and F.2.2.2

  /** A Huffman table as the file gives it: codes per length, and the value of every symbol. */
  datatype HuffTable = HuffTable(count: seq<nat>, values: seq<nat>) {
    predicate Ok() {
      Counts(count) && |values| == 256 && Upto(count, 16) <= 256 && forall i | 0 <= i < 256 :: values[i] < 256
    }
  }

  /** What the next code stands for; `used` bits are consumed. */
  datatype AcStep = NoCode | EndOfBlock(used: nat) | SixteenZeros(used: nat) | Coefficient(run: nat, value: int, used: nat)

  function NextValue(h: HuffTable, stream: nat): (r: int)
    requires h.Ok()
    ensures -1 <= r < 256
  {
    if 0 <= T81Decode(h.count, stream) < 256 then h.values[T81Decode(h.count, stream)] else -1
  }

  function NextLen(h: HuffTable, stream: nat): nat
    requires h.Ok()
  {
    if 0 <= T81Decode(h.count, stream) < |Sizes(h.count)| then Sizes(h.count)[T81Decode(h.count, stream)] else 0
  }

  function NextAc(h: HuffTable, stream: nat): (a: AcStep)
    requires h.Ok()
    ensures a.Coefficient? ==> a.run <= 15
  {
    var rs, len := NextValue(h, stream), NextLen(h, stream);
    if rs < 0 then NoCode
    else if rs % 16 == 0 then if rs == 0xF0 then SixteenZeros(len) else EndOfBlock(len)
    else Coefficient(rs / 16, ExtendSign(ReceiveBits(Shr(stream, len), rs % 16), rs % 16), len + rs % 16)
  }

  const QUARTER_0: seq<nat> := [0, 1, 8, 16, 9, 2, 3, 10, 17, 24, 32, 25, 18, 11, 4, 5]
  const QUARTER_1: seq<nat> := [12, 19, 26, 33, 40, 48, 41, 34, 27, 20, 13, 6, 7, 14, 21, 28]
  const QUARTER_2: seq<nat> := [35, 42, 49, 56, 57, 50, 43, 36, 29, 22, 15, 23, 30, 37, 44, 51]
  const QUARTER_3: seq<nat> := [58, 59, 52, 45, 38, 31, 39, 46, 53, 60, 61, 54, 47, 55, 62, 63]
  const OVERRUN: seq<nat> := [63, 63, 63, 63, 63, 63, 63, 63, 63, 63, 63, 63, 63, 63, 63]

  const DEZIGZAG: seq<nat> := QUARTER_0 + QUARTER_1 + QUARTER_2 + QUARTER_3 + OVERRUN

  lemma Steps0(i: nat) requires i < 15 ensures QUARTER_0[i + 1] < 64 && QUARTER_0[i + 1] == ZigzagNext(QUARTER_0[i]) { }
  lemma Steps1(i: nat) requires i < 15 ensures QUARTER_1[i + 1] < 64 && QUARTER_1[i + 1] == ZigzagNext(QUARTER_1[i]) { }
  lemma Steps2(i: nat) requires i < 15 ensures QUARTER_2[i + 1] < 64 && QUARTER_2[i + 1] == ZigzagNext(QUARTER_2[i]) { }
  lemma Steps3(i: nat) requires i < 15 ensures QUARTER_3[i + 1] < 64 && QUARTER_3[i + 1] == ZigzagNext(QUARTER_3[i]) { }

  lemma Quarters()
    ensures |QUARTER_0| == 16 && |QUARTER_1| == 16 && |QUARTER_2| == 16 && |QUARTER_3| == 16 && |OVERRUN| == 15
    ensures QUARTER_0[0] == 0 && forall i | 0 <= i < 15 :: OVERRUN[i] == 63
    ensures QUARTER_1[0] < 64 && QUARTER_2[0] < 64 && QUARTER_3[0] < 64
    ensures QUARTER_1[0] == ZigzagNext(QUARTER_0[15]) && QUARTER_2[0] == ZigzagNext(QUARTER_1[15])
    ensures QUARTER_3[0] == ZigzagNext(QUARTER_2[15])
  {
  }

  lemma DezigzagAt(k: nat)
    requires k < 79 && |QUARTER_0| == 16 && |QUARTER_1| == 16 && |QUARTER_2| == 16 && |QUARTER_3| == 16 && |OVERRUN| == 15
    ensures DEZIGZAG[k] == if k < 16 then QUARTER_0[k] else if k < 32 then QUARTER_1[k - 16]
                           else if k < 48 then QUARTER_2[k - 32] else if k < 64 then QUARTER_3[k - 48] else OVERRUN[k - 64]
  {
    hide QUARTER_0, QUARTER_1, QUARTER_2, QUARTER_3, OVERRUN;
  }

  /** The order of Figure A.6, by its rule: along the anti-diagonals, turning at the border. */
  function Zigzag(k: nat): nat {
    if k == 0 then 0 else ZigzagNext(Zigzag(k - 1))
  }

  function ZigzagNext(p: nat): nat {
    if (p / 8 + p % 8) % 2 == 0
    then if p % 8 == 7 then p + 8 else if p / 8 == 0 then p + 1 else p - 7
    else if p / 8 == 7 then p + 1 else if p % 8 == 0 then p + 8 else p + 7
  }

  lemma DezigzagSteps(k: nat)
    requires k < 63
    ensures |DEZIGZAG| == 79 && DEZIGZAG[0] == 0 && DEZIGZAG[k + 1] < 64 && DEZIGZAG[k + 1] == ZigzagNext(DEZIGZAG[k])
  {
    hide QUARTER_0, QUARTER_1, QUARTER_2, QUARTER_3, OVERRUN, ZigzagNext;
    Quarters();
    DezigzagAt(0);
    DezigzagAt(k);
    DezigzagAt(k + 1);
    if k < 15 { Steps0(k); }
    if 16 <= k < 31 { Steps1(k - 16); }
    if 32 <= k < 47 { Steps2(k - 32); }
    if 48 <= k { Steps3(k - 48); }
  }

  /** The table is that order, and sends whatever lies past the end to the last place. */
  lemma {:induction false} DezigzagIsZigzag(k: nat)
    requires k < 79
    ensures |DEZIGZAG| == 79 && DEZIGZAG[k] == (if k < 64 then Zigzag(k) else 63) < 64
  {
    hide DEZIGZAG, QUARTER_0, QUARTER_1, QUARTER_2, QUARTER_3, OVERRUN, ZigzagNext;
    DezigzagSteps(0);
    if 0 < k < 64 {
      DezigzagIsZigzag(k - 1);
      DezigzagSteps(k - 1);
    } else if k >= 64 {
      Quarters();
      DezigzagAt(k);
    }
  }

  /** Conversion to a signed 16-bit word. */
  function Short(x: int): int {
    (x + 0x8000) % 0x1_0000 - 0x8000
  }

  datatype Block = Corrupt | Block(data: seq<int>, used: nat)

  /** The coefficients from position `k` of the zigzag order on (Figure F.13). */
  function AcBlock(h: HuffTable, dequant: seq<nat>, stream: nat, k: nat, data: seq<int>): Block
    requires h.Ok() && |dequant| == 64 && |data| == 64
    decreases 64 - k
  {
    if k >= 64 then Block(data, 0)
    else
      match NextAc(h, stream)
      case NoCode => Corrupt
      case EndOfBlock(used) => Block(data, used)
      case SixteenZeros(used) => After(used, AcBlock(h, dequant, Shr(stream, used), k + 16, data))
      case Coefficient(run, value, used) =>
        After(used, AcBlock(h, dequant, Shr(stream, used), k + run + 1, Placed(dequant, data, k + run, value)))
  }

  function Placed(dequant: seq<nat>, data: seq<int>, k: nat, value: int): (r: seq<int>)
    requires k < 79 && |dequant| == 64 && |data| == 64
    ensures |r| == 64
  {
    DezigzagIsZigzag(k);
    data[DEZIGZAG[k] := Short(value * dequant[DEZIGZAG[k]])]
  }

  function After(used: nat, b: Block): Block {
    if b.Corrupt? then Corrupt else b.(used := used + b.used)
  }

  /** The difference of the first coefficient (section F.2.2.1). */
  datatype Dc = BadDc | Dc(diff: int, used: nat)

  function NextDc(h: HuffTable, stream: nat): Dc
    requires h.Ok()
  {
    var t, len := NextValue(h, stream), NextLen(h, stream);
    if t < 0 || t > 15 then BadDc
    else Dc(ExtendSign(ReceiveBits(Shr(stream, len), t), t), len + t)
  }

  /** A whole block of a baseline scan. */
  function WholeBlock(dc: HuffTable, ac: HuffTable, dequant: seq<nat>, stream: nat, pred: int): Block
    requires dc.Ok() && ac.Ok() && |dequant| == 64
  {
    match NextDc(dc, stream)
    case BadDc => Corrupt
    case Dc(diff, used) => After(used, AcBlock(ac, dequant, Shr(stream, used), 1, Start(dequant, pred + diff)))
  }

  /** Only the first coefficient is known. */
  function Start(dequant: seq<nat>, dc: int): seq<int>
    requires |dequant| == 64
  {
    [Short(dc * dequant[0])] + seq(63, _ => 0)
  }
}
