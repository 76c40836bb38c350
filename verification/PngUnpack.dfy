/** The second part of `stbi__create_png_image_raw`: samples of 1, 2 or 4 bits are unpacked in place, and alpha is
    inserted in place. */
module PngUnpack {
  import opened Bits
  import opened PngFilter
  import opened PngRows

  predicate Packed(d: nat) {
    d in {1, 2, 4}
  }

  /** The factor that takes grey samples to the range from 0 to 255. */
  function DepthScale(d: nat): nat {
    if d == 1 then 0xFF else if d == 2 then 0x55 else if d == 4 then 0x11 else 1
  }

  /** Bytes that hold `n` samples of `d` bits. */
  function PackedBytes(n: nat, d: nat): nat {
    (n * d + 7) / 8
  }

  /** The byte that holds sample `s`, and how far to the left in it. */
  function ByteOf(s: nat, d: nat): nat
    requires Packed(d)
  {
    if d == 1 then s / 8 else if d == 2 then s / 4 else s / 2
  }

  function ShiftOf(s: nat, d: nat): nat
    requires Packed(d)
  {
    if d == 1 then 7 - s % 8 else if d == 2 then 6 - 2 * (s % 4) else 4 - 4 * (s % 2)
  }

  lemma ByteOfWithin(n: nat, d: nat, s: nat)
    requires Packed(d) && s < n
    ensures ByteOf(s, d) < PackedBytes(n, d)
  {
  }

  /** Sample `s` of a packed row, leftmost sample in the high bits (section 7.2 of the PNG specification). */
  function Sample(row: Row, d: nat, s: nat): nat
    requires Packed(d) && ByteOf(s, d) < |row|
  {
    Low(Shr(row[ByteOf(s, d)], ShiftOf(s, d)), d)
  }

  /** Section 7.2: the samples of a row are its bits in groups of `d`, with the high bit of every byte first. */
  lemma SampleBits(row: Row, d: nat, s: nat, i: nat)
    requires Packed(d) && ByteOf(s, d) < |row| && i < d
    ensures Sample(row, d, s) < Pow2(d) && (s * d + i) / 8 < |row|
    ensures Bit(Sample(row, d, s), d - 1 - i) == Bit(row[(s * d + i) / 8], 7 - (s * d + i) % 8)
  {
    hide Low, Shr, Bit;
    var x, j := row[ByteOf(s, d)], d - 1 - i;
    LowBound(Shr(x, ShiftOf(s, d)), d);
    LowBit(Shr(x, ShiftOf(s, d)), d, j);
    ShrBit(x, ShiftOf(s, d), j);
    FieldIs(s, d, i);
  }

  lemma FieldIs(s: nat, d: nat, i: nat)
    requires Packed(d) && i < d
    ensures (s * d + i) / 8 == ByteOf(s, d) && 7 - (s * d + i) % 8 == d - 1 - i + ShiftOf(s, d)
  {
  }

  /** The largest sample of `d` bits becomes 255. */
  lemma ScaleIs(d: nat)
    requires Packed(d)
    ensures DepthScale(d) * (Pow2(d) - 1) == 255
  {
    Pow2Values();
  }

  lemma SampleScaled(x: nat, d: nat, scale: nat)
    requires Packed(d) && (scale == 1 || scale == DepthScale(d))
    ensures 0 <= scale * Low(x, d) < 256
  {
    LowBound(x, d);
    Pow2Values();
  }

  /** From sample to sample: the next field of the byte, or the first one of the next byte. */
  lemma NextField(s: nat, d: nat)
    requires Packed(d)
    ensures ByteOf(s + 1, d) == if ShiftOf(s, d) == 0 then ByteOf(s, d) + 1 else ByteOf(s, d)
    ensures ShiftOf(s + 1, d) == if ShiftOf(s, d) == 0 then 8 - d else ShiftOf(s, d) - d
    ensures ByteOf(0, d) == 0 && ShiftOf(0, d) == 8 - d
  {
  }

  /** Sample `s` goes to the left of everything that is still to be read, when the packed bytes lie at the right
      end of the place for at least `n` samples. */
  lemma Ahead(n: nat, d: nat, off: nat, s: nat)
    requires Packed(d) && s + 1 < n <= off + PackedBytes(n, d)
    ensures s < off + ByteOf(s + 1, d)
  {
  }

  /** What unpacking into a fresh buffer gives. */
  ghost predicate Unpacked(out: seq<Byte>, base: int, n: nat, d: nat, scale: nat, row: Row) {
    && Packed(d) && 0 <= base && base + n <= |out| && |row| == PackedBytes(n, d)
    && forall s: nat | s < n :: ByteOf(s, d) < |row| && out[base + s] == scale * Sample(row, d, s)
  }

  /** Unpack a row in place, from left to right. */
  method UnpackRow(out: array<Byte>, base: int, off: nat, n: nat, d: nat, scale: nat, ghost row: Row)
    requires Packed(d) && |row| == PackedBytes(n, d) && n <= off + |row| && 0 <= base && base + off + |row| <= out.Length
    requires (scale == 1 || scale == DepthScale(d)) && forall b | 0 <= b < |row| :: out[base + off + b] == row[b]
    modifies out
    ensures Unpacked(out[..], base, n, d, scale, row) && SameOutside(old(out[..]), out[..], base, base + n)
  {
    hide Low, Shr, ByteOf, ShiftOf, PackedBytes, DepthScale;
    ghost var s0 := out[..];
    var s: nat, at, shift := 0, base + off, 8 - d;
    NextField(0, d);
    while s < n
      invariant s <= n && shift >= 0 && at == base + off + ByteOf(s, d) && shift == ShiftOf(s, d)
      invariant SameOutside(s0, out[..], base, base + n)
      invariant forall t: nat | t < s :: ByteOf(t, d) < |row| && out[base + t] == scale * Sample(row, d, t)
      invariant s < n ==> forall b | ByteOf(s, d) <= b < |row| :: out[base + off + b] == row[b]
    {
      ByteOfWithin(n, d, s);
      SampleScaled(Shr(out[at], shift), d, scale);
      assert out[at] == row[ByteOf(s, d)];
      NextField(s, d);
      if s + 1 < n { Ahead(n, d, off, s); }
      out[base + s] := scale * Low(Shr(out[at], shift), d);
      if shift == 0 {
        at, shift := at + 1, 8 - d;
      } else {
        shift := shift - d;
      }
      s := s + 1;
    }
  }

  /** The pixels of `img_n` channels, one after the other in `s`, are in `out` with a channel of 255 behind each. */
  ghost predicate Spread(s: seq<Byte>, out: seq<Byte>, base: int, img_n: nat, out_n: nat, x: nat) {
    forall q, c | 0 <= q < x && 0 <= c < out_n ::
      && 0 <= Where(base, out_n, q, c) < |out| && (c < img_n ==> 0 <= Where(base, img_n, q, c) < |s|)
      && out[Where(base, out_n, q, c)] == if c < img_n then s[Where(base, img_n, q, c)] else 255
  }

  /** Insert alpha behind every pixel of one channel, in place, from right to left. */
  method InsertAlpha1(out: array<Byte>, base: int, x: nat)
    requires 0 <= base && base + 2 * x <= out.Length
    modifies out
    ensures Spread(old(out[..]), out[..], base, 1, 2, x)
    ensures SameOutside(old(out[..]), out[..], base, base + 2 * x)
  {
    hide Spread;
    ghost var s0 := out[..];
    var q := x - 1;
    while q >= 0
      invariant -1 <= q < x && SameOutside(s0, out[..], base + 2 * (q + 1), base + 2 * x)
      invariant forall p | q < p < x :: out[base + p * 2] == s0[base + p] && out[base + p * 2 + 1] == 255
    {
      out[base + q * 2 + 1] := 255;
      out[base + q * 2] := out[base + q];
      q := q - 1;
    }
    Spread1(s0, out[..], base, x);
  }

  lemma Spread1(s: seq<Byte>, out: seq<Byte>, base: int, x: nat)
    requires 0 <= base && base + 2 * x <= |out| == |s|
    requires forall p | 0 <= p < x :: out[base + p * 2] == s[base + p] && out[base + p * 2 + 1] == 255
    ensures Spread(s, out, base, 1, 2, x)
  {
    forall q, c | 0 <= q < x && 0 <= c <= 1
      ensures 0 <= Where(base, 2, q, c) < |out| && (c < 1 ==> 0 <= Where(base, 1, q, c) < |s|)
      ensures out[Where(base, 2, q, c)] == if c < 1 then s[Where(base, 1, q, c)] else 255
    {
      assert Where(base, 2, q, c) == base + q * 2 + c && Where(base, 1, q, c) == base + q + c;
    }
  }

  /** Pixel `p`, of three channels in `s`, is in its place in `out`. */
  ghost predicate Moved3(s: seq<Byte>, out: seq<Byte>, base: int, p: int) {
    && 0 <= base + p * 3 && base + p * 3 + 2 < |s| && 0 <= base + p * 4 && base + p * 4 + 3 < |out|
    && out[base + p * 4] == s[base + p * 3] && out[base + p * 4 + 1] == s[base + p * 3 + 1]
    && out[base + p * 4 + 2] == s[base + p * 3 + 2] && out[base + p * 4 + 3] == 255
  }

  lemma Moved3Still(s: seq<Byte>, out: seq<Byte>, out': seq<Byte>, base: int, p: int, q: int)
    requires Moved3(s, out, base, p) && q < p && SameOutside(out, out', base + q * 4, base + q * 4 + 4)
    ensures Moved3(s, out', base, p)
  {
  }

  /** One pixel, last channel first. */
  method MovePixel3(out: array<Byte>, base: int, q: nat)
    requires 0 <= base && base + q * 4 + 3 < out.Length
    modifies out
    ensures Moved3(old(out[..]), out[..], base, q) && SameOutside(old(out[..]), out[..], base + q * 4, base + q * 4 + 4)
  {
    out[base + q * 4 + 3] := 255;
    out[base + q * 4 + 2] := out[base + q * 3 + 2];
    out[base + q * 4 + 1] := out[base + q * 3 + 1];
    out[base + q * 4] := out[base + q * 3];
  }

  /** A pixel that was not yet touched is moved as it was at the start. */
  lemma Moved3From(s: seq<Byte>, s': seq<Byte>, out: seq<Byte>, base: int, q: int, hi: int)
    requires 0 <= q && Moved3(s', out, base, q) && SameOutside(s, s', base + 4 * (q + 1), hi)
    ensures Moved3(s, out, base, q)
  {
  }

  lemma Moved3All(s0: seq<Byte>, s: seq<Byte>, s': seq<Byte>, base: int, q: int, x: int)
    requires 0 <= q < x && Moved3(s, s', base, q) && SameOutside(s, s', base + q * 4, base + q * 4 + 4)
    requires SameOutside(s0, s, base + 4 * (q + 1), base + 4 * x) && forall p | q < p < x :: Moved3(s0, s, base, p)
    ensures SameOutside(s0, s', base + 4 * q, base + 4 * x) && forall p | q <= p < x :: Moved3(s0, s', base, p)
  {
    hide Moved3;
    Moved3From(s0, s, s', base, q, base + 4 * x);
    forall p | q < p < x ensures Moved3(s0, s', base, p) { Moved3Still(s0, s, s', base, p, q); }
  }

  /** Insert alpha behind every pixel of three channels. */
  method InsertAlpha3(out: array<Byte>, base: int, x: nat)
    requires 0 <= base && base + 4 * x <= out.Length
    modifies out
    ensures Spread(old(out[..]), out[..], base, 3, 4, x)
    ensures SameOutside(old(out[..]), out[..], base, base + 4 * x)
  {
    hide Spread, Moved3, SameOutside;
    ghost var s0 := out[..];
    var q := x - 1;
    Untouched(s0, base + 4 * (q + 1), base + 4 * x);
    while q >= 0
      invariant -1 <= q < x && SameOutside(s0, out[..], base + 4 * (q + 1), base + 4 * x)
      invariant forall p | q < p < x :: Moved3(s0, out[..], base, p)
    {
      ghost var s := out[..];
      MovePixel3(out, base, q);
      Moved3All(s0, s, out[..], base, q, x);
      q := q - 1;
    }
    Spread3(s0, out[..], base, x);
  }

  lemma Untouched(s: seq<Byte>, lo: int, hi: int)
    ensures SameOutside(s, s, lo, hi)
  {
  }

  lemma Spread3(s: seq<Byte>, out: seq<Byte>, base: int, x: nat)
    requires forall p | 0 <= p < x :: Moved3(s, out, base, p)
    ensures Spread(s, out, base, 3, 4, x)
  {
    forall q, c | 0 <= q < x && 0 <= c <= 3
      ensures 0 <= Where(base, 4, q, c) < |out| && (c < 3 ==> 0 <= Where(base, 3, q, c) < |s|)
      ensures out[Where(base, 4, q, c)] == if c < 3 then s[Where(base, 3, q, c)] else 255
    {
      assert Moved3(s, out, base, q);
      assert Where(base, 4, q, c) == base + q * 4 + c && Where(base, 3, q, c) == base + q * 3 + c;
    }
  }

  /** The row has one byte a sample: the samples of `row`, scaled, and 255 for the channel that is inserted. */
  ghost predicate Expanded(out: seq<Byte>, base: int, h: Header, scale: nat, row: Row) {
    && Packed(h.depth)
    && forall q, c | 0 <= q < h.x && 0 <= c < h.out_n ::
         && 0 <= Where(base, h.out_n, q, c) < |out| && 0 <= Where(0, h.img_n, q, c)
         && if c < h.img_n
            then ByteOf(Where(0, h.img_n, q, c), h.depth) < |row| && out[Where(base, h.out_n, q, c)] == scale * Sample(row, h.depth, Where(0, h.img_n, q, c))
            else out[Where(base, h.out_n, q, c)] == 255
  }

  lemma Place(base: int, n: nat, x: nat, q: int, c: int)
    requires 0 <= q < x && 0 <= c < n
    ensures Where(base, n, q, c) == base + Where(0, n, q, c) && 0 <= Where(0, n, q, c) < n * x
  {
    WhereWithin(0, n, q, x);
    WhereNext(0, n, q, c);
    WhereIs(0, n, x);
  }

  lemma SameChannels(out: seq<Byte>, base: int, h: Header, scale: nat, row: Row)
    requires h.Ok() && h.out_n == h.img_n && Unpacked(out, base, h.img_n * h.x, h.depth, scale, row)
    ensures Expanded(out, base, h, scale, row)
  {
    forall q, c | 0 <= q < h.x && 0 <= c < h.out_n
      ensures 0 <= Where(base, h.out_n, q, c) < |out| && 0 <= Where(0, h.img_n, q, c) && ByteOf(Where(0, h.img_n, q, c), h.depth) < |row|
      ensures out[Where(base, h.out_n, q, c)] == scale * Sample(row, h.depth, Where(0, h.img_n, q, c))
    {
      hide Where, Sample, ByteOf, PackedBytes;
      Place(base, h.img_n, h.x, q, c);
    }
  }

  lemma ChannelAt(s: seq<Byte>, out: seq<Byte>, base: int, h: Header, scale: nat, row: Row, q: int, c: int)
    requires h.Ok() && h.out_n == h.img_n + 1 && Unpacked(s, base, h.img_n * h.x, h.depth, scale, row)
    requires Spread(s, out, base, h.img_n, h.out_n, h.x) && 0 <= q < h.x && 0 <= c < h.img_n
    ensures 0 <= Where(base, h.out_n, q, c) < |out| && 0 <= Where(0, h.img_n, q, c) && ByteOf(Where(0, h.img_n, q, c), h.depth) < |row|
    ensures out[Where(base, h.out_n, q, c)] == scale * Sample(row, h.depth, Where(0, h.img_n, q, c))
  {
    hide Where, Sample, ByteOf, PackedBytes;
    Place(base, h.img_n, h.x, q, c);
  }

  lemma OneChannelMore(s: seq<Byte>, out: seq<Byte>, base: int, h: Header, scale: nat, row: Row)
    requires h.Ok() && h.out_n == h.img_n + 1 && Unpacked(s, base, h.img_n * h.x, h.depth, scale, row)
    requires Spread(s, out, base, h.img_n, h.out_n, h.x)
    ensures Expanded(out, base, h, scale, row)
  {
    hide Where, Sample, ByteOf, Unpacked, Packed;
    PackedDepth(s, base, h, scale, row);
    forall q, c | 0 <= q < h.x && 0 <= c < h.img_n
      ensures 0 <= Where(base, h.out_n, q, c) < |out| && 0 <= Where(0, h.img_n, q, c) && ByteOf(Where(0, h.img_n, q, c), h.depth) < |row|
      ensures out[Where(base, h.out_n, q, c)] == scale * Sample(row, h.depth, Where(0, h.img_n, q, c))
    {
      ChannelAt(s, out, base, h, scale, row, q, c);
    }
    forall q, c | 0 <= q < h.x && h.img_n <= c < h.out_n
      ensures 0 <= Where(base, h.out_n, q, c) < |out| && 0 <= Where(0, h.img_n, q, c) && out[Where(base, h.out_n, q, c)] == 255
    {
      Place(base, h.img_n, h.x, q, 0);
      WhereNext(0, h.img_n, q, c);
    }
  }

  lemma PackedDepth(s: seq<Byte>, base: int, h: Header, scale: nat, row: Row)
    requires Unpacked(s, base, h.img_n * h.x, h.depth, scale, row)
    ensures Packed(h.depth)
  {
  }

  /** One row of packed samples: unpacked, and with alpha if there is to be one. */
  method ExpandRow(out: array<Byte>, base: int, h: Header, scale: nat, ghost row: Row)
    requires h.Ok() && Packed(h.depth) && (h.out_n != h.img_n ==> h.img_n in {1, 3}) && (scale == 1 || scale == DepthScale(h.depth))
    requires |row| == h.WidthBytes() <= h.Stride() && 0 <= base && base + h.Stride() <= out.Length
    requires forall b | 0 <= b < |row| :: out[base + (h.Stride() - |row|) + b] == row[b]
    modifies out
    ensures Expanded(out[..], base, h, scale, row) && SameOutside(old(out[..]), out[..], base, base + h.Stride())
  {
    hide Expanded, Unpacked, Spread, PackedBytes;
    SamplesFit(h);
    UnpackRow(out, base, h.Stride() - h.WidthBytes(), h.img_n * h.x, h.depth, scale, row);
    ghost var s := out[..];
    if h.img_n == h.out_n {
      SameChannels(s, base, h, scale, row);
    } else {
      if h.img_n == 1 {
        InsertAlpha1(out, base, h.x);
      } else {
        InsertAlpha3(out, base, h.x);
      }
      OneChannelMore(s, out[..], base, h, scale, row);
    }
  }

  lemma SamplesFit(h: Header)
    requires h.Ok() && Packed(h.depth)
    ensures PackedBytes(h.img_n * h.x, h.depth) == h.WidthBytes() && h.img_n * h.x <= h.Stride() == h.out_n * h.x
  {
    Products(h.x, h.img_n, h.out_n, 1);
  }

  lemma ExpandedStill(s: seq<Byte>, s': seq<Byte>, lo: int, hi: int, base: int, h: Header, scale: nat, row: Row)
    requires Expanded(s, base, h, scale, row) && SameOutside(s, s', lo, hi) && base + h.out_n * h.x <= lo
    ensures Expanded(s', base, h, scale, row)
  {
    forall q, c | 0 <= q < h.x && 0 <= c < h.out_n
      ensures 0 <= Where(base, h.out_n, q, c) < |s| && s'[Where(base, h.out_n, q, c)] == s[Where(base, h.out_n, q, c)]
    {
      hide Where, Sample, ByteOf;
      Place(base, h.out_n, h.x, q, c);
    }
  }

  /** The packed row `j`, as the loop over the rows leaves it. */
  lemma PackedRow(s: seq<Byte>, h: Header, j: int, row: Row)
    requires h.Ok() && Packed(h.depth) && 0 <= j && h.Rows().Has(s, j, row) && |row| == h.WidthBytes()
    ensures var base := Where(0, h.Stride(), j, 0);
            && h.WidthBytes() <= h.Stride() && 0 <= base && base + h.Stride() <= |s|
            && forall b | 0 <= b < |row| :: s[base + (h.Stride() - |row|) + b] == row[b]
  {
    hide Where, AlphaSet;
    Sizes(h);
    var l := h.Rows();
    RowEnds(l, j, j + 1);
    WhereNext(0, l.stride, j, 0);
    WhereIs(0, 1, h.WidthBytes());
    WhereIs(l.off, 1, h.WidthBytes());
    NotNegative(l.stride, j);
    forall b | 0 <= b < |row| ensures 0 <= l.Start(j) + b < |s| && s[l.Start(j) + b] == row[b] {
      WhereNext(l.Start(j), 1, b, 0);
      WhereIs(l.Start(j), 1, b);
      WhereIs(0, 1, b);
      HeldByte(s, l.Start(j), 1, 1, l.width, row, b, 0);
    }
  }

  lemma NotNegative(stride: nat, j: int)
    requires 0 <= j
    ensures Where(0, stride, j, 0) >= 0
  {
    assert j * stride >= 0;
  }

  /** The loop that expands bits to pixels: every sample of every row is where unpacking into a fresh image would
      put it. */
  method ExpandRows(out: array<Byte>, h: Header, color: nat, ghost rows: seq<Row>)
    requires h.Ok() && Packed(h.depth) && (h.out_n != h.img_n ==> h.img_n in {1, 3}) && |rows| == h.y
    requires forall j | 0 <= j < h.y :: h.Rows().Has(out[..], j, rows[j]) && |rows[j]| == h.WidthBytes()
    modifies out
    ensures forall j | 0 <= j < h.y :: Expanded(out[..], Where(0, h.Stride(), j, 0), h, if color == 0 then DepthScale(h.depth) else 1, rows[j])
  {
    hide Where, Expanded, Layout.Has, Header.WidthBytes, DepthScale, SameOutside;
    var scale := if color == 0 then DepthScale(h.depth) else 1;
    var j := 0;
    while j < h.y
      invariant 0 <= j <= h.y
      invariant forall i | j <= i < h.y :: h.Rows().Has(out[..], i, rows[i])
      invariant forall i | 0 <= i < j :: Expanded(out[..], Where(0, h.Stride(), i, 0), h, scale, rows[i])
    {
      ghost var s := out[..];
      PackedRow(s, h, j, rows[j]);
      ExpandRow(out, Where(0, h.Stride(), j, 0), h, scale, rows[j]);
      Others(s, out[..], h, j, scale, rows);
      j := j + 1;
    }
  }

  /** The rows before and after stay as they are. */
  lemma Others(s: seq<Byte>, s': seq<Byte>, h: Header, j: int, scale: nat, rows: seq<Row>)
    requires h.Ok() && Packed(h.depth) && |rows| == h.y && 0 <= j < h.y
    requires SameOutside(s, s', Where(0, h.Stride(), j, 0), Where(0, h.Stride(), j, 0) + h.Stride())
    requires forall i | j <= i < h.y :: h.Rows().Has(s, i, rows[i])
    requires forall i | 0 <= i < j :: Expanded(s, Where(0, h.Stride(), i, 0), h, scale, rows[i])
    ensures forall i | j < i < h.y :: h.Rows().Has(s', i, rows[i])
    ensures forall i | 0 <= i < j :: Expanded(s', Where(0, h.Stride(), i, 0), h, scale, rows[i])
  {
    hide Where, Expanded, Holds, AlphaSet, SameOutside;
    Sizes(h);
    SamplesFit(h);
    var lo, hi, l := Where(0, h.Stride(), j, 0), Where(0, h.Stride(), j, 0) + h.Stride(), h.Rows();
    forall i | j < i < h.y ensures h.Rows().Has(s', i, rows[i]) {
      WhereBefore(0, h.Stride(), j, i);
      RowEnds(l, i, h.y);
      HoldsStill(s, s', lo, hi, l.Start(i), l.step, l.bpp, l.width, rows[i]);
      AlphaStill(s, s', lo, hi, l.Start(i), l.step, l.bpp, l.width);
    }
    forall i | 0 <= i < j ensures Expanded(s', Where(0, h.Stride(), i, 0), h, scale, rows[i]) {
      WhereBefore(0, h.Stride(), i, j);
      ExpandedStill(s, s', lo, hi, Where(0, h.Stride(), i, 0), h, scale, rows[i]);
    }
  }

  // ----- samples of 16 bits

  /** Where the other byte of a 16-bit sample is. */
  function Other(t: int): int {
    if t % 2 == 0 then t + 1 else t - 1
  }

  /** The first `n` samples of 16 bits with their bytes exchanged. */
  function Exchanged(s: seq<Byte>, n: nat): (r: seq<Byte>)
    requires 2 * n <= |s|
    ensures |r| == |s| && forall t | 0 <= t < |s| :: r[t] == if t < 2 * n then s[Other(t)] else s[t]
  {
    seq(|s|, t requires 0 <= t < |s| => if t < 2 * n then s[Other(t)] else s[t])
  }

  lemma ExchangedTwice(s: seq<Byte>, n: nat)
    requires 2 * n <= |s|
    ensures Exchanged(Exchanged(s, n), n) == s
  {
    hide Exchanged, Other;
    var r := Exchanged(s, n);
    forall t | 0 <= t < |s| ensures Exchanged(r, n)[t] == s[t] {
      if t < 2 * n {
        OtherBack(t, n);
        assert r[Other(t)] == s[Other(Other(t))];
      }
    }
  }

  lemma OtherBack(t: int, n: nat)
    requires 0 <= t < 2 * n
    ensures Other(Other(t)) == t && 0 <= Other(t) < 2 * n
  {
  }

  /** The last loop of `stbi__create_png_image_raw`, on a machine that stores the low byte of a word first. */
  method ToHostOrder(out: array<Byte>, n: nat)
    requires 2 * n <= out.Length
    modifies out
    ensures out[..] == Exchanged(old(out[..]), n)
  {
    hide Other, Exchanged;
    ghost var s := out[..];
    var i := 0;
    while i < n
      invariant i <= n
      invariant forall t | 0 <= t < out.Length :: out[t] == if t < 2 * i then Exchanged(s, n)[t] else s[t]
    {
      WordBytes(out[2 * i], out[2 * i + 1]);
      OtherIs(i);
      var word: int := out[2 * i] as int * 256 + out[2 * i + 1] as int;
      out[2 * i], out[2 * i + 1] := word % 256, word / 256;
      i := i + 1;
    }
  }

  lemma WordBytes(high: Byte, low: Byte)
    ensures (high as int * 256 + low as int) % 256 == low && (high as int * 256 + low as int) / 256 == high
  {
  }

  lemma OtherIs(i: nat)
    ensures Other(2 * i) == 2 * i + 1 && Other(2 * i + 1) == 2 * i
  {
  }

  /** The image with the first byte of every sample being the high one again. */
  function FileOrder(s: seq<Byte>, h: Header): (r: seq<Byte>)
    requires h.depth == 16 ==> 2 * (h.x * h.y * h.out_n) <= |s|
    ensures |r| == |s|
  {
    if h.depth == 16 then Exchanged(s, h.x * h.y * h.out_n) else s
  }

  lemma Words(h: Header)
    requires h.depth == 16
    ensures 2 * (h.x * h.y * h.out_n) == Where(0, h.Stride(), h.y, 0)
  {
    var x, y, n := h.x, h.y, h.out_n;
    assert x * y * n == y * (x * n);
    assert y * (x * n * 2) == 2 * (y * (x * n));
  }

  /** `stbi__create_png_image_raw`: rows reconstructed, samples of less than 8 bits expanded, and samples of 16 bits as
      words of the machine. */
  method CreateImageRaw(out: array<Byte>, raw: Row, h: Header, color: nat) returns (ok: bool)
    requires h.Ok() && Where(0, h.Stride(), h.y, 0) <= out.Length && (h.depth < 8 && h.out_n != h.img_n ==> h.img_n in {1, 3})
    modifies out
    ensures ok <==> && |raw| >= (h.WidthBytes() + 1) * h.y && (h.depth < 8 && h.y > 0 ==> h.WidthBytes() <= h.x)
                    && Stored(raw, h.WidthBytes(), h.y) && GoodFilters(raw, h.WidthBytes(), h.y)
    ensures ok && h.depth < 8 ==>
              forall j | 0 <= j < h.y :: Expanded(out[..], Where(0, h.Stride(), j, 0), h, if color == 0 then DepthScale(h.depth) else 1, Decoded(raw, 1, Zeros(h.WidthBytes()), h.y)[j])
    ensures h.depth == 16 ==> 2 * (h.x * h.y * h.out_n) <= out.Length
    ensures ok && h.depth >= 8 ==>
              forall j | 0 <= j < h.y :: h.Rows().Has(FileOrder(out[..], h), j, Decoded(raw, h.Rows().bpp, Zeros(h.WidthBytes()), h.y)[j])
  {
    hide Where, Expanded, Layout.Has, Header.WidthBytes, DepthScale, Decoded, GoodFilters, Stored, Exchanged;
    Sizes(h);
    if h.depth == 16 { Words(h); }
    ok := CreateRows(out, raw, h);
    if ok && h.depth < 8 {
      ExpandRows(out, h, color, Decoded(raw, 1, Zeros(h.WidthBytes()), h.y));
    } else if ok && h.depth == 16 {
      ExchangedTwice(out[..], h.x * h.y * h.out_n);
      ToHostOrder(out, h.x * h.y * h.out_n);
    }
  }
}
