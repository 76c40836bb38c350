/** How a block of quantised coefficients is written: sections F.1.2.1 and F.1.2.2 of ITU-T T.81.  Nothing here is used by the
    decoder; the last lemma says that decoding undoes it. */
module JpegEncode {
  import opened Bits
  import opened Canonical
  import opened JpegSpec

  // ----- magnitudes, Tables F.1 and F.2

  function BitLength(m: nat): nat {
    if m == 0 then 0 else 1 + BitLength(m / 2)
  }

  lemma {:induction false} BitLengthIs(m: nat)
    ensures m < Pow2(BitLength(m)) && (m == 0 ==> BitLength(m) == 0) && (m > 0 ==> BitLength(m) > 0 && Pow2(BitLength(m) - 1) <= m)
  {
    if m > 0 { BitLengthIs(m / 2); }
  }

  /** The category SSSS of a value: the bits of its magnitude. */
  function Category(v: int): nat {
    BitLength(if v < 0 then -v else v)
  }

  /** The additional bits: the value if it is positive, its ones' complement if it is negative. */
  function Magnitude(v: int): int {
    if v < 0 then Pow2(Category(v)) - 1 + v else v
  }

  lemma MagnitudeBack(v: int)
    ensures 0 <= Magnitude(v) < Pow2(Category(v)) && ExtendSign(Magnitude(v), Category(v)) == v
  {
    hide BitLength;
    var s := Category(v);
    BitLengthIs(if v < 0 then -v else v);
    assert s > 0 ==> Pow2(s) == 2 * Pow2(s - 1);
    assert s == 0 ==> Pow2(s) == 1;
  }

  // ----- Huffman codes

  /** Some symbol of the table has the value. */
  ghost predicate Has(h: HuffTable, v: int)
    requires h.Ok()
  {
    exists i: nat :: i < |Sizes(h.count)| && h.values[i] == v
  }

  /** The code of a symbol with that value; the codes are those of Figure C.2 (`JpegSpec.HuffCodeIsCode`). */
  ghost function CodeFor(h: HuffTable, v: int): seq<bool>
    requires h.Ok() && Has(h, v)
  {
    var i: nat :| i < |Sizes(h.count)| && h.values[i] == v;
    CodeBits(Code(Sizes(h.count), i), Sizes(h.count)[i])
  }

  lemma FewSymbols(h: HuffTable)
    requires h.Ok()
    ensures |Sizes(h.count)| <= 256
  {
  }

  lemma ReadCode(h: HuffTable, v: int, rest: nat)
    requires h.Ok() && FitsWords(Sizes(h.count)) && Has(h, v)
    ensures var w, n := Cat(CodeFor(h, v), rest), |CodeFor(h, v)|;
            NextValue(h, w) == v && NextLen(h, w) == n && Shr(w, n) == rest
  {
    hide Sizes, T81Decode, Cat, Code, CodeBits, Upto, Matches;
    var ls := Sizes(h.count);
    FewSymbols(h);
    var i: nat :| i < |ls| && h.values[i] == v && CodeFor(h, v) == CodeBits(Code(ls, i), ls[i]);
    SizesBounded(h.count);
    assert Past(ls, ls[i]) <= Pow2(ls[i]);
    EncodedMatches(ls, i, rest);
    T81DecodeIs(h.count, Cat(CodeFor(h, v), rest), i);
  }

  /** A code, the additional bits of a value, and what follows. */
  lemma ReadValue(h: HuffTable, rs: int, v: int, more: seq<bool>, rest: nat)
    requires h.Ok() && FitsWords(Sizes(h.count)) && Has(h, rs)
    requires Magnitude(v) >= 0
    ensures var code, s := CodeFor(h, rs), Category(v);
            var w := Cat(code + (CodeBits(Magnitude(v), s) + more), rest);
            && NextValue(h, w) == rs && NextLen(h, w) == |code|
            && ExtendSign(ReceiveBits(Shr(w, |code|), s), s) == v && Shr(w, |code| + s) == Cat(more, rest)
  {
    hide Cat, CodeBits, Sizes, HuffTable.Ok, CodeFor, Magnitude, Category, NextValue, NextLen, ExtendSign, Shr, Top;
    var code, s, m := CodeFor(h, rs), Category(v), Magnitude(v);
    var tail := CodeBits(m, s) + more;
    CatCat(code, tail, rest);
    CatCat(CodeBits(m, s), more, rest);
    ReadCode(h, rs, Cat(tail, rest));
    MagnitudeBack(v);
    CatCode(m, s, Cat(more, rest));
    ShrShr(Cat(code + tail, rest), |code|, s);
  }

  // ----- the coefficients but the first, Figure F.2

  /** The first coefficient from `k` on that is not zero, or 64. */
  ghost function NextNonzero(q: seq<int>, k: nat): (z: nat)
    requires |q| == 64 && k <= 64
    ensures k <= z <= 64 && (z < 64 ==> q[z] != 0) && forall m | k <= m < z :: q[m] == 0
    decreases 64 - k
  {
    if k == 64 || q[k] != 0 then k else NextNonzero(q, k + 1)
  }

  /** The table has codes for what is to be written from `k` on. */
  ghost predicate AcWritable(h: HuffTable, q: seq<int>, k: nat)
    requires h.Ok() && |q| == 64 && k <= 64
    decreases 64 - k
  {
    k == 64 ||
    var z := NextNonzero(q, k);
    if z == 64 then Has(h, 0x00)
    else if z - k >= 16 then Has(h, 0xF0) && AcWritable(h, q, k + 16)
    else Category(q[z]) <= 15 && Has(h, 16 * (z - k) + Category(q[z])) && AcWritable(h, q, z + 1)
  }

  /** The end of the block, a run of sixteen zeros, or a run of fewer and the value behind it. */
  ghost function AcBits(h: HuffTable, q: seq<int>, k: nat): seq<bool>
    requires h.Ok() && |q| == 64 && k <= 64 && AcWritable(h, q, k)
    decreases 64 - k
  {
    if k == 64 then []
    else
      var z := NextNonzero(q, k);
      if z == 64 then CodeFor(h, 0x00)
      else if z - k >= 16 then CodeFor(h, 0xF0) + AcBits(h, q, k + 16)
      else
        MagnitudeBack(q[z]);
        CodeFor(h, 16 * (z - k) + Category(q[z])) + (CodeBits(Magnitude(q[z]), Category(q[z])) + AcBits(h, q, z + 1))
  }

  /** The coefficients from `k` on in their places. */
  ghost function Filled(dequant: seq<nat>, q: seq<int>, k: nat, data: seq<int>): (r: seq<int>)
    requires |dequant| == 64 && |q| == 64 && |data| == 64 && k <= 64
    ensures |r| == 64
    decreases 64 - k
  {
    if k == 64 then data else Filled(dequant, q, k + 1, if q[k] == 0 then data else Placed(dequant, data, k, q[k]))
  }

  lemma {:induction false} FilledSkips(dequant: seq<nat>, q: seq<int>, k: nat, z: nat, data: seq<int>)
    requires |dequant| == 64 && |q| == 64 && |data| == 64 && k <= z <= 64 && forall m | k <= m < z :: q[m] == 0
    ensures Filled(dequant, q, k, data) == Filled(dequant, q, z, data)
    decreases z - k
  {
    hide Placed;
    if k < z { FilledSkips(dequant, q, k + 1, z, data); }
  }

  /** Decoding from `k` on reads them back. */
  ghost predicate AcRead(h: HuffTable, dequant: seq<nat>, q: seq<int>, k: nat, data: seq<int>, rest: nat)
    requires h.Ok() && |dequant| == 64 && |q| == 64 && |data| == 64 && k <= 64 && AcWritable(h, q, k)
  {
    AcBlock(h, dequant, Cat(AcBits(h, q, k), rest), k, data) == Block(Filled(dequant, q, k, data), |AcBits(h, q, k)|)
  }

  lemma {:induction false} AcBack(h: HuffTable, dequant: seq<nat>, q: seq<int>, k: nat, data: seq<int>, rest: nat)
    requires h.Ok() && FitsWords(Sizes(h.count)) && |dequant| == 64 && |q| == 64 && |data| == 64 && k <= 64 && AcWritable(h, q, k)
    ensures AcRead(h, dequant, q, k, data, rest)
    decreases 64 - k
  {
    hide Sizes, HuffTable.Ok, Has, FitsWords, Category, AcRead, Placed;
    var z := NextNonzero(q, k);
    if k == 64 {
      NothingRead(h, dequant, q, data, rest);
    } else if z == 64 {
      EndRead(h, dequant, q, k, data, rest);
    } else if z - k >= 16 {
      AcBack(h, dequant, q, k + 16, data, rest);
      ZerosRead(h, dequant, q, k, data, rest);
    } else {
      AcBack(h, dequant, q, z + 1, Placed(dequant, data, z, q[z]), rest);
      CoefficientRead(h, dequant, q, k, z, data, rest);
    }
  }

  lemma NothingRead(h: HuffTable, dequant: seq<nat>, q: seq<int>, data: seq<int>, rest: nat)
    requires h.Ok() && |dequant| == 64 && |q| == 64 && |data| == 64
    ensures AcWritable(h, q, 64) && AcRead(h, dequant, q, 64, data, rest)
  {
    hide HuffTable.Ok;
  }

  lemma EndRead(h: HuffTable, dequant: seq<nat>, q: seq<int>, k: nat, data: seq<int>, rest: nat)
    requires h.Ok() && FitsWords(Sizes(h.count)) && |dequant| == 64 && |q| == 64 && |data| == 64 && k < 64 && AcWritable(h, q, k)
    requires NextNonzero(q, k) == 64
    ensures AcRead(h, dequant, q, k, data, rest)
  {
    hide Cat, Sizes, HuffTable.Ok, CodeFor, Has, Placed, Category, NextValue, NextLen, NextAc, Shr, FitsWords;
    ReadCode(h, 0, rest);
    NoSize(h, Cat(CodeFor(h, 0), rest));
    FilledSkips(dequant, q, k, 64, data);
  }

  lemma ZerosRead(h: HuffTable, dequant: seq<nat>, q: seq<int>, k: nat, data: seq<int>, rest: nat)
    requires h.Ok() && FitsWords(Sizes(h.count)) && |dequant| == 64 && |q| == 64 && |data| == 64 && k < 64 && AcWritable(h, q, k)
    requires 16 <= NextNonzero(q, k) - k < 64 - k && AcWritable(h, q, k + 16) && AcRead(h, dequant, q, k + 16, data, rest)
    ensures AcRead(h, dequant, q, k, data, rest)
  {
    hide Cat, Sizes, HuffTable.Ok, CodeFor, Has, Placed, Category, NextValue, NextLen, NextAc, Shr, FitsWords;
    var later := AcBits(h, q, k + 16);
    CatCat(CodeFor(h, 0xF0), later, rest);
    ReadCode(h, 0xF0, Cat(later, rest));
    NoSize(h, Cat(AcBits(h, q, k), rest));
    FilledSkips(dequant, q, k, k + 16, data);
  }

  lemma CoefficientRead(h: HuffTable, dequant: seq<nat>, q: seq<int>, k: nat, z: nat, data: seq<int>, rest: nat)
    requires h.Ok() && FitsWords(Sizes(h.count)) && |dequant| == 64 && |q| == 64 && |data| == 64 && k < 64 && AcWritable(h, q, k)
    requires z == NextNonzero(q, k) && z < 64 && z - k < 16 && AcWritable(h, q, z + 1)
    requires AcRead(h, dequant, q, z + 1, Placed(dequant, data, z, q[z]), rest)
    ensures AcRead(h, dequant, q, k, data, rest)
  {
    hide Cat, Sizes, HuffTable.Ok, AcBits, AcWritable, Placed, NextAc, Shr, FitsWords;
    ReadCoefficient(h, q, k, z, rest);
    FilledSkips(dequant, q, k, z, data);
  }

  lemma ReadCoefficient(h: HuffTable, q: seq<int>, k: nat, z: nat, rest: nat)
    requires h.Ok() && FitsWords(Sizes(h.count)) && |q| == 64 && k < 64 && AcWritable(h, q, k) && z == NextNonzero(q, k) && z < 64 && z - k < 16
    requires AcWritable(h, q, z + 1)
    ensures var w, used := Cat(AcBits(h, q, k), rest), |AcBits(h, q, k)| - |AcBits(h, q, z + 1)|;
            used >= 0 && NextAc(h, w) == Coefficient(z - k, q[z], used) && Shr(w, used) == Cat(AcBits(h, q, z + 1), rest)
  {
    hide Cat, CodeBits, Sizes, HuffTable.Ok, CodeFor, Has, NextValue, NextLen, NextAc, ExtendSign, ReceiveBits, Shr, FitsWords, Magnitude, Category;
    MagnitudeBack(q[z]);
    NotZero(q[z]);
    ReadValue(h, 16 * (z - k) + Category(q[z]), q[z], AcBits(h, q, z + 1), rest);
    RunAndSize(h, Cat(AcBits(h, q, k), rest), z - k, Category(q[z]));
  }

  lemma NoSize(h: HuffTable, w: nat)
    requires h.Ok()
    ensures NextValue(h, w) == 0 ==> NextAc(h, w) == EndOfBlock(NextLen(h, w))
    ensures NextValue(h, w) == 0xF0 ==> NextAc(h, w) == SixteenZeros(NextLen(h, w))
  {
    hide HuffTable.Ok, NextValue, NextLen, ExtendSign, ReceiveBits, Shr;
  }

  /** The value of the code holds the run of zeros and the category. */
  lemma RunAndSize(h: HuffTable, w: nat, run: nat, size: nat)
    requires h.Ok() && run <= 15 && 1 <= size <= 15 && NextValue(h, w) == 16 * run + size
    ensures NextAc(h, w) == Coefficient(run, ExtendSign(ReceiveBits(Shr(w, NextLen(h, w)), size), size), NextLen(h, w) + size)
  {
    hide HuffTable.Ok, NextValue, NextLen, ExtendSign, ReceiveBits, Shr;
  }

  lemma NotZero(v: int)
    requires v != 0
    ensures Category(v) > 0
  {
  }

  // ----- places

  /** Places on the anti-diagonals before `d` of an eight by eight block. */
  function PlacesBefore(d: nat): nat {
    if d == 0 then 0 else PlacesBefore(d - 1) + if d <= 8 then d else if d <= 15 then 16 - d else 0
  }

  /** The number Figure A.6 writes there: even anti-diagonals are numbered upwards, odd ones downwards. */
  function Number(row: nat, column: nat): int {
    PlacesBefore(row + column) + (if (row + column) % 2 == 0 then column else row) - if row + column <= 7 then 0 else row + column - 7
  }

  function NumberAt(p: nat): int {
    Number(p / 8, p % 8)
  }

  lemma NumberAtIs(row: nat, column: nat)
    requires row < 8 && column < 8
    ensures NumberAt(8 * row + column) == Number(row, column)
  {
    hide Number;
    assert (8 * row + column) / 8 == row && (8 * row + column) % 8 == column;
  }

  /** The step from a place goes to the next number. */
  lemma NumberNext(p: nat)
    requires p < 63
    ensures ZigzagNext(p) < 64 && NumberAt(ZigzagNext(p)) == NumberAt(p) + 1
  {
    hide NumberAt, Number;
    var row, column := p / 8, p % 8;
    NumberAtIs(row, column);
    if (row + column) % 2 == 0 {
      UpNumber(row, column);
      if column == 7 { NumberAtIs(row + 1, column); } else if row == 0 { NumberAtIs(0, column + 1); } else { NumberAtIs(row - 1, column + 1); }
    } else {
      DownNumber(row, column);
      if row == 7 { NumberAtIs(row, column + 1); } else if column == 0 { NumberAtIs(row + 1, 0); } else { NumberAtIs(row + 1, column - 1); }
    }
  }

  lemma UpNumber(row: nat, column: nat)
    requires row < 8 && column < 8 && row + column < 14 && (row + column) % 2 == 0
    ensures if column == 7 then row < 7 && Number(row + 1, column) == Number(row, column) + 1
            else if row == 0 then Number(0, column + 1) == Number(row, column) + 1
            else Number(row - 1, column + 1) == Number(row, column) + 1
  {
    hide PlacesBefore;
    NextDiagonal(row + column);
    assert (row + column + 1) % 2 == 1;
  }

  lemma DownNumber(row: nat, column: nat)
    requires row < 8 && column < 8 && row + column < 14 && (row + column) % 2 == 1
    ensures if row == 7 then column < 7 && Number(row, column + 1) == Number(row, column) + 1
            else if column == 0 then Number(row + 1, 0) == Number(row, column) + 1
            else Number(row + 1, column - 1) == Number(row, column) + 1
  {
    hide PlacesBefore;
    NextDiagonal(row + column);
    assert (row + column + 1) % 2 == 0;
  }

  lemma NextDiagonal(d: nat)
    ensures PlacesBefore(d + 1) == PlacesBefore(d) + if d <= 7 then d + 1 else if d <= 14 then 15 - d else 0
  {
  }

  /** Coefficient `k` goes to the place with that number, so to no other's. */
  lemma {:induction false} ZigzagIs(k: nat)
    requires k < 64
    ensures Zigzag(k) < 64 && NumberAt(Zigzag(k)) == k
  {
    hide ZigzagNext, NumberAt;
    if k == 0 {
      assert NumberAt(0) == 0 by { FirstNumber(); }
    } else {
      ZigzagIs(k - 1);
      if Zigzag(k - 1) == 63 { LastNumber(); }
      NumberNext(Zigzag(k - 1));
    }
  }

  lemma FirstNumber()
    ensures NumberAt(0) == 0
  {
  }

  lemma LastNumber()
    ensures NumberAt(63) == 63
  {
    assert PlacesBefore(4) == 10;
    assert PlacesBefore(7) == 28;
    assert PlacesBefore(10) == 49;
    assert PlacesBefore(13) == 61;
  }

  /** `x` is the 16-bit word with the same low bits as `y`. */
  predicate IsWord(x: int, y: int) {
    -0x8000 <= x < 0x8000 && (x - y) % 0x1_0000 == 0
  }

  lemma ShortIs(y: int)
    ensures IsWord(Short(y), y)
  {
  }

  lemma PlacedAt(dequant: seq<nat>, data: seq<int>, k: nat, value: int, m: nat)
    requires k < 64 && m < 64 && |dequant| == 64 && |data| == 64
    ensures Zigzag(m) < 64 && Placed(dequant, data, k, value)[Zigzag(m)] == if m == k then Short(value * dequant[Zigzag(k)]) else data[Zigzag(m)]
  {
    hide DEZIGZAG, NumberAt, Zigzag, Short;
    ZigzagIs(k);
    ZigzagIs(m);
    DezigzagIsZigzag(k);
  }

  /** Afterwards coefficient `m` is in its place, multiplied, if it is one of those and not zero; else that place is as it was. */
  lemma {:induction false} FilledAt(dequant: seq<nat>, q: seq<int>, k: nat, data: seq<int>, m: nat)
    requires |dequant| == 64 && |q| == 64 && |data| == 64 && k <= 64 && m < 64
    ensures Zigzag(m) < 64
    ensures Filled(dequant, q, k, data)[Zigzag(m)] == if m >= k && q[m] != 0 then Short(q[m] * dequant[Zigzag(m)]) else data[Zigzag(m)]
    decreases 64 - k
  {
    hide Placed, Zigzag, Short, NumberAt;
    ZigzagIs(m);
    if k < 64 {
      FilledAt(dequant, q, k + 1, if q[k] == 0 then data else Placed(dequant, data, k, q[k]), m);
      PlacedAt(dequant, data, k, q[k], m);
    }
  }

  /** Reading on from any coefficient but the first never touches the place of the first. */
  lemma {:induction false} FirstKept(h: HuffTable, dequant: seq<nat>, stream: nat, k: nat, data: seq<int>)
    requires h.Ok() && |dequant| == 64 && |data| == 64 && k >= 1
    ensures var r := AcBlock(h, dequant, stream, k, data); r.Block? ==> |r.data| == 64 && r.data[0] == data[0]
    decreases 64 - k
  {
    hide HuffTable.Ok, NextAc, Placed, Shr, Short;
    if k < 64 {
      match NextAc(h, stream)
      case NoCode =>
      case EndOfBlock(used) =>
      case SixteenZeros(used) => FirstKept(h, dequant, Shr(stream, used), k + 16, data);
      case Coefficient(run, value, used) =>
        PlacedLater(dequant, data, k + run, value);
        FirstKept(h, dequant, Shr(stream, used), k + run + 1, Placed(dequant, data, k + run, value));
    }
  }

  lemma PlacedLater(dequant: seq<nat>, data: seq<int>, k: nat, value: int)
    requires 1 <= k < 79 && |dequant| == 64 && |data| == 64
    ensures Placed(dequant, data, k, value)[0] == data[0]
  {
    hide DEZIGZAG, NumberAt, Zigzag, Short;
    DezigzagIsZigzag(k);
    FirstNumber();
    if k < 64 { ZigzagIs(k); }
  }

  /** The first place of a block that can be read holds the sum of the prediction and the difference, dequantised. */
  lemma FirstIs(dc: HuffTable, ac: HuffTable, dequant: seq<nat>, stream: nat, pred: int)
    requires dc.Ok() && ac.Ok() && |dequant| == 64
    ensures var r, first := WholeBlock(dc, ac, dequant, stream, pred), NextDc(dc, stream);
            r.Block? ==> first.Dc? && |r.data| == 64 && IsWord(r.data[0], (pred + first.diff) * dequant[0])
  {
    hide HuffTable.Ok, NextDc, AcBlock, Shr, Short;
    match NextDc(dc, stream)
    case BadDc =>
    case Dc(diff, used) =>
      FirstKept(ac, dequant, Shr(stream, used), 1, Start(dequant, pred + diff));
      ShortIs((pred + diff) * dequant[0]);
  }

  // ----- the block

  ghost predicate BlockWritable(dc: HuffTable, ac: HuffTable, q: seq<int>, pred: int)
    requires dc.Ok() && ac.Ok()
  {
    |q| == 64 && Category(q[0] - pred) <= 15 && Has(dc, Category(q[0] - pred)) && AcWritable(ac, q, 1)
  }

  /** The difference to the prediction, then the other coefficients. */
  ghost function BlockBits(dc: HuffTable, ac: HuffTable, q: seq<int>, pred: int): seq<bool>
    requires dc.Ok() && ac.Ok() && BlockWritable(dc, ac, q, pred)
  {
    var diff := q[0] - pred;
    MagnitudeBack(diff);
    CodeFor(dc, Category(diff)) + (CodeBits(Magnitude(diff), Category(diff)) + AcBits(ac, q, 1))
  }

  /** Every coefficient, dequantised, is in its place of the block. */
  ghost predicate BlockIs(data: seq<int>, q: seq<int>, dequant: seq<nat>) {
    && |data| == |q| == |dequant| == 64
    && forall k: nat | k < 64 :: Zigzag(k) < 64 && IsWord(data[Zigzag(k)], q[k] * dequant[Zigzag(k)])
  }

  lemma ReadDc(dc: HuffTable, ac: HuffTable, q: seq<int>, pred: int, rest: nat)
    requires dc.Ok() && ac.Ok() && FitsWords(Sizes(dc.count)) && BlockWritable(dc, ac, q, pred)
    ensures var w, used := Cat(BlockBits(dc, ac, q, pred), rest), |BlockBits(dc, ac, q, pred)| - |AcBits(ac, q, 1)|;
            used >= 0 && NextDc(dc, w) == Dc(q[0] - pred, used) && Shr(w, used) == Cat(AcBits(ac, q, 1), rest)
  {
    hide Cat, CodeBits, Sizes, HuffTable.Ok, CodeFor, Has, NextValue, NextLen, NextDc, ExtendSign, ReceiveBits, Shr, FitsWords, Magnitude, Category, AcBits, AcWritable;
    MagnitudeBack(q[0] - pred);
    ReadValue(dc, Category(q[0] - pred), q[0] - pred, AcBits(ac, q, 1), rest);
    SizeOnly(dc, Cat(BlockBits(dc, ac, q, pred), rest), Category(q[0] - pred));
  }

  lemma SizeOnly(h: HuffTable, w: nat, size: nat)
    requires h.Ok() && size <= 15 && NextValue(h, w) == size
    ensures NextDc(h, w) == Dc(ExtendSign(ReceiveBits(Shr(w, NextLen(h, w)), size), size), NextLen(h, w) + size)
  {
    hide HuffTable.Ok, NextValue, NextLen, ExtendSign, ReceiveBits, Shr;
  }

  /** What is read from the written form of a block is the block. */
  lemma BlockBack(dc: HuffTable, ac: HuffTable, dequant: seq<nat>, q: seq<int>, pred: int, rest: nat) returns (data: seq<int>)
    requires dc.Ok() && ac.Ok() && FitsWords(Sizes(dc.count)) && FitsWords(Sizes(ac.count)) && |dequant| == 64
    requires |q| == 64 && BlockWritable(dc, ac, q, pred) && AcWritable(ac, q, 1)
    ensures WholeBlock(dc, ac, dequant, Cat(BlockBits(dc, ac, q, pred), rest), pred) == Block(data, |BlockBits(dc, ac, q, pred)|)
    ensures NextDc(dc, Cat(BlockBits(dc, ac, q, pred), rest)).Dc? && NextDc(dc, Cat(BlockBits(dc, ac, q, pred), rest)).diff == q[0] - pred
    ensures Shr(Cat(BlockBits(dc, ac, q, pred), rest), |BlockBits(dc, ac, q, pred)|) == rest
    ensures BlockIs(data, q, dequant)
  {
    hide Cat, Sizes, HuffTable.Ok, BlockWritable, BlockBits, AcBits, AcWritable, NextDc, AcBlock, FitsWords, Shr, IsWord, Zigzag, Short;
    var start := Start(dequant, q[0]);
    ReadDc(dc, ac, q, pred, rest);
    AcBack(ac, dequant, q, 1, start, rest);
    CatShr(BlockBits(dc, ac, q, pred), rest);
    data := Filled(dequant, q, 1, start);
    forall k: nat | k < 64 ensures Zigzag(k) < 64 && IsWord(data[Zigzag(k)], q[k] * dequant[Zigzag(k)]) {
      CoefficientIs(dequant, q, data, k);
    }
  }

  lemma CoefficientIs(dequant: seq<nat>, q: seq<int>, data: seq<int>, k: nat)
    requires |dequant| == 64 && |q| == 64 && k < 64 && data == Filled(dequant, q, 1, Start(dequant, q[0]))
    ensures |data| == 64 && Zigzag(k) < 64 && IsWord(data[Zigzag(k)], q[k] * dequant[Zigzag(k)])
  {
    hide Filled, Short, NumberAt, DEZIGZAG;
    ZigzagIs(k);
    ZigzagIs(0);
    FilledAt(dequant, q, 1, Start(dequant, q[0]), k);
    ShortIs(q[k] * dequant[Zigzag(k)]);
    ShortIs(0);
    assert Zigzag(0) == 0;
  }
}
