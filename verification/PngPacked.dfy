/** Interlaced images of one channel of 1, 2 or 4 bits: grey and indexed samples come back from the packed rows of their passes. */
module PngPacked {
  import opened Bits
  import opened PngAdam7
  import opened PngInterlaced
  import F = PngFilter
  import R = PngRows
  import U = PngUnpack

  /** An image of samples of less than 8 bits, in one channel as in section 11.2.2 of the PNG specification. */
  ghost predicate SamplesOk(image: seq<seq<nat>>, g: Png) {
    && g.Ok() && g.img_n == 1 && U.Packed(g.depth) && |image| == g.height
    && (forall y | 0 <= y < g.height :: |image[y]| == g.width)
    && forall y, x | 0 <= y < g.height && 0 <= x < g.width :: image[y][x] < Pow2(g.depth)
  }

  function SampleAt(image: seq<seq<nat>>, w: Place): nat
    requires w.p < 7
  {
    if Y(w) < |image| && X(w) < |image[Y(w)]| then image[Y(w)][X(w)] else 0
  }

  /** Bit `b` of group `i` of `d` bits of a row, counted from the high bit of its first byte. */
  predicate RowBit(row: F.Row, d: nat, i: nat, b: nat) {
    var t := i * d + b;
    t / 8 < |row| && Bit(row[t / 8], 7 - t % 8)
  }

  /** Sample `i` takes the `d` bits of the row from `i * d` on, high bit first (section 7.2). */
  ghost predicate Packs(row: F.Row, d: nat, i: nat, v: nat) {
    (i + 1) * d <= 8 * |row| && forall b: nat | b < d :: RowBit(row, d, i, b) == Bit(v, d - 1 - b)
  }

  /** Row `j` of pass `p` holds the samples of its grid. */
  ghost predicate RowPacks(row: F.Row, image: seq<seq<nat>>, g: Png, p: nat, j: nat)
    requires p < 7
  {
    |row| == g.PassHeader(p).WidthBytes() && forall i: nat | i < g.PassHeader(p).x :: Packs(row, g.depth, i, SampleAt(image, Place(p, i, j)))
  }

  ghost predicate RowsPack(rows: seq<seq<F.Row>>, image: seq<seq<nat>>, g: Png) {
    && |rows| == 7
    && forall p: nat | p < 7 && g.HasPass(p) ::
         |rows[p]| == g.PassHeader(p).y && forall j: nat | j < |rows[p]| :: RowPacks(rows[p][j], image, g, p, j)
  }

  /** The bits of a packed sample determine it. */
  lemma SampleBack(row: F.Row, d: nat, i: nat, v: nat)
    requires U.Packed(d) && v < Pow2(d) && Packs(row, d, i, v)
    ensures U.ByteOf(i, d) < |row| && U.Sample(row, d, i) == v
  {
    hide Bit, U.ByteOf, U.ShiftOf, U.Sample;
    U.FieldIs(i, d, 0);
    assert i * d / 8 < |row|;
    U.SampleBits(row, d, i, 0);
    forall k: nat | k < d ensures Bit(U.Sample(row, d, i), k) == Bit(v, k) {
      var b := d - 1 - k;
      U.SampleBits(row, d, i, b);
      assert RowBit(row, d, i, b) == Bit(v, d - 1 - b);
    }
    SameBits(U.Sample(row, d, i), v, d);
  }

  /** A grey sample is scaled from the range of `d` bits to that of a byte, an index is kept, and an added channel is 255. */
  ghost predicate Shade(pixel: Pixel, v: nat, g: Png) {
    && 1 <= |pixel| == g.out_n
    && (if g.color == 0 then pixel[0] * (Pow2(g.depth) - 1) == 255 * v else pixel[0] == v)
    && forall k | 1 <= k < |pixel| :: pixel[k] == 255
  }

  lemma PixelShade(image: seq<seq<nat>>, g: Png, data: F.Row, rows: seq<seq<F.Row>>, filters: seq<seq<nat>>, x: nat, y: nat, pixel: Pixel)
    requires SamplesOk(image, g) && RowsPack(rows, image, g) && AllStored(g, data, rows, filters) && x < g.width && y < g.height
    requires FromPass(pixel, g, data, x, y)
    ensures Shade(pixel, image[y][x], g)
  {
    hide PATTERN, PassSize, XORIG, YORIG, XSPC, YSPC, Source, PassGood, AllStored, RowsOf, R.Where, R.Header.WidthBytes, X, Y, Packs, U.Sample, U.ByteOf, U.DepthScale;
    var w := Source(x, y);
    EveryPixel(x, y, g.width, g.height);
    PassBack(g, data, rows, filters, w.p);
    var row := rows[w.p][w.j];
    assert RowPacks(row, image, g, w.p, w.j);
    SampleBack(row, g.depth, w.i, image[y][x]);
    FirstSample(w.i);
    ScaledShade(pixel, g, image[y][x]);
  }

  lemma FirstSample(i: nat)
    ensures R.Where(0, 1, i, 0) == i
  {
  }

  lemma ScaledShade(pixel: Pixel, g: Png, v: nat)
    requires g.Ok() && g.img_n == 1 && U.Packed(g.depth) && |pixel| == g.out_n && forall k | 1 <= k < |pixel| :: pixel[k] == 255
    requires pixel[0] == (if g.color == 0 then U.DepthScale(g.depth) else 1) * v
    ensures Shade(pixel, v, g)
  {
    U.ScaleIs(g.depth);
    var s, m := U.DepthScale(g.depth), Pow2(g.depth) - 1;
    assert (s * v) * m == (s * m) * v;
  }

  /** Decoding undoes packing, filtering and interlacing, for every image and every choice of filters. */
  method PackedRoundTrip(final: array2<Pixel>, data: F.Row, g: Png, ghost image: seq<seq<nat>>, ghost rows: seq<seq<F.Row>>, ghost filters: seq<seq<nat>>)
    returns (ok: bool)
    requires SamplesOk(image, g) && final.Length1 == g.width && final.Length0 == g.height
    requires RowsPack(rows, image, g) && AllStored(g, data, rows, filters)
    modifies final
    ensures ok
    ensures forall x: nat, y: nat | x < g.width && y < g.height :: Shade(final[y, x], image[y][x], g)
  {
    hide PassSize, XORIG, YORIG, XSPC, YSPC, AllStored, PassGood, FromPass, RowsPack, Shade;
    forall p: nat | p < 7 ensures PassGood(g, data, p) { PassBack(g, data, rows, filters, p); }
    ok := CreateImage(final, data, g);
    forall x: nat, y: nat | x < g.width && y < g.height ensures Shade(final[y, x], image[y][x], g) {
      PixelShade(image, g, data, rows, filters, x, y, final[y, x]);
    }
  }

  // ----- such rows

  /** Bit `t` of the row, from the samples. */
  predicate BitIn(image: seq<seq<nat>>, d: nat, p: nat, j: nat, t: nat)
    requires p < 7 && d > 0
  {
    Bit(SampleAt(image, Place(p, t / d, j)), d - 1 - t % d)
  }

  function Bits8(image: seq<seq<nat>>, d: nat, p: nat, j: nat, k: nat): (bits: seq<bool>)
    requires p < 7 && d > 0
    ensures |bits| == 8
  {
    seq(8, c requires 0 <= c < 8 => BitIn(image, d, p, j, 8 * k + c))
  }

  /** The byte with these bits, high bit first. */
  function Byte8(bits: seq<bool>): Byte
    requires |bits| == 8
  {
    TopBound(Cat(bits, 0), 8);
    Pow2Values();
    Top(Cat(bits, 0), 8)
  }

  lemma {:induction false} CatBit(bits: seq<bool>, i: nat)
    requires i < |bits|
    ensures Bit(Cat(bits, 0), i) == bits[i]
  {
    if i > 0 { CatBit(bits[1..], i - 1); }
  }

  function PackedRow(image: seq<seq<nat>>, d: nat, p: nat, j: nat, n: nat): (row: F.Row)
    requires p < 7 && d > 0
    ensures |row| == n
  {
    seq(n, k requires 0 <= k < n => Byte8(Bits8(image, d, p, j, k)))
  }

  lemma PackedBit(image: seq<seq<nat>>, d: nat, p: nat, j: nat, n: nat, i: nat, b: nat)
    requires p < 7 && b < d && i * d + b < 8 * n
    ensures RowBit(PackedRow(image, d, p, j, n), d, i, b) == Bit(SampleAt(image, Place(p, i, j)), d - 1 - b)
  {
    hide Bit, Cat, Top, SampleAt;
    var t := i * d + b;
    var k, c := t / 8, t % 8;
    DivUnique(t, d, i, b);
    var bits := Bits8(image, d, p, j, k);
    TopBit(Cat(bits, 0), 8, 7 - c);
    CatBit(bits, c);
    assert bits[c] == BitIn(image, d, p, j, 8 * k + c);
  }

  /** The rows of a pass, packed. */
  lemma PackedRowsOk(image: seq<seq<nat>>, g: Png, p: nat, j: nat)
    requires SamplesOk(image, g) && p < 7
    ensures RowPacks(PackedRow(image, g.depth, p, j, g.PassHeader(p).WidthBytes()), image, g, p, j)
  {
    hide Bit, PackedRow, SampleAt, PassSize;
    var h, d := g.PassHeader(p), g.depth;
    var row := PackedRow(image, d, p, j, h.WidthBytes());
    forall i: nat | i < h.x ensures Packs(row, d, i, SampleAt(image, Place(p, i, j))) {
      Scale(i + 1, h.x, d);
      forall b: nat | b < d ensures RowBit(row, d, i, b) == Bit(SampleAt(image, Place(p, i, j)), d - 1 - b) {
        assert (i + 1) * d == i * d + d;
        PackedBit(image, d, p, j, h.WidthBytes(), i, b);
      }
    }
  }
}
