/** The whole of `stbi__create_png_image` for interlaced images: which bytes of the file belong to which pass, and what
    becomes of every pixel. */
module PngInterlaced {
  import opened Bits
  import opened PngAdam7
  import F = PngFilter
  import R = PngRows
  import U = PngUnpack

  type Pixel = seq<Byte>

  datatype Png = Png(width: nat, height: nat, img_n: nat, out_n: nat, depth: nat, color: nat) {
    predicate Ok() {
      && 1 <= width < WORD - 8 && height < WORD - 8 && img_n >= 1 && (out_n == img_n || out_n == img_n + 1) && depth in {1, 2, 4, 8, 16}
      && (depth < 8 && out_n != img_n ==> img_n in {1, 3})
    }

    function PassHeader(p: nat): R.Header
      requires p < 7
    {
      R.Header(PassSize(width, XORIG[p], XSPC[p]), PassSize(height, YORIG[p], YSPC[p]), img_n, out_n, depth)
    }

    /** Bytes of a pixel in the file, for samples of at least 8 bits. */
    function PixelBytes(): nat {
      img_n * if depth == 16 then 2 else 1
    }

    predicate HasPass(p: nat)
      requires p < 7
    {
      PassHeader(p).x != 0 && PassHeader(p).y != 0
    }

    /** The bytes of one pass, and of all passes before it. */
    function PassLength(p: nat): nat
      requires p < 7
    {
      if HasPass(p) then (PassHeader(p).WidthBytes() + 1) * PassHeader(p).y else 0
    }

    function Offset(p: nat): nat
      requires p <= 7
    {
      if p == 0 then 0 else Offset(p - 1) + PassLength(p - 1)
    }
  }

  /** What `stbi__create_png_image_raw` accepts. */
  predicate Accepted(raw: F.Row, h: R.Header)
    requires h.Ok()
  {
    && |raw| >= (h.WidthBytes() + 1) * h.y && (h.depth < 8 && h.y > 0 ==> h.WidthBytes() <= h.x)
    && F.Stored(raw, h.WidthBytes(), h.y) && F.GoodFilters(raw, h.WidthBytes(), h.y)
  }

  /** The rows of a reduced image, reconstructed. */
  function RowsOf(raw: F.Row, h: R.Header): (rows: seq<F.Row>)
    requires h.Ok() && Accepted(raw, h)
    ensures |rows| == h.y && forall j | 0 <= j < h.y :: |rows[j]| == h.WidthBytes()
  {
    R.Sizes(h);
    F.Decoded(raw, h.Rows().bpp, F.Zeros(h.WidthBytes()), h.y)
  }

  /** Where byte `k` of a pixel is in the file, whose 16-bit samples start with the high byte. */
  function InFile(depth: nat, k: int): int {
    if depth == 16 then U.Other(k) else k
  }

  /** Pixel `i` of a row: its samples, scaled if they are grey and of less than 8 bits, and 255 for an added channel. */
  ghost predicate PixelIs(pixel: Pixel, h: R.Header, color: nat, row: F.Row, i: nat) {
    && |pixel| == h.out_n * h.Bytes()
    && forall k: nat | k < |pixel| ::
         if k >= h.img_n * h.Bytes() then pixel[k] == 255
         else if h.depth < 8 then
           && U.Packed(h.depth) && U.ByteOf(R.Where(0, h.img_n, i, k), h.depth) < |row|
           && pixel[k] == (if color == 0 then U.DepthScale(h.depth) else 1) * U.Sample(row, h.depth, R.Where(0, h.img_n, i, k))
         else
           && 0 <= R.Where(0, h.img_n * h.Bytes(), i, InFile(h.depth, k)) < |row|
           && pixel[k] == row[R.Where(0, h.img_n * h.Bytes(), i, InFile(h.depth, k))]
  }

  /** The reduced image holds the pixels of `rows`. */
  ghost predicate PassIs(pass: seq<seq<Pixel>>, h: R.Header, color: nat, rows: seq<F.Row>)
    requires |rows| == h.y
  {
    && |pass| == h.y && (forall j | 0 <= j < h.y :: |pass[j]| == h.x)
    && forall j: nat, i: nat | j < h.y && i < h.x :: PixelIs(pass[j][i], h, color, rows[j], i)
  }

  lemma PixelBounds(h: R.Header, j: nat, i: nat, n: nat)
    requires j < h.y && i < h.x && n == h.x * h.y * (h.out_n * h.Bytes())
    ensures (j * h.x + i) * (h.out_n * h.Bytes()) == R.Where(R.Where(0, h.Stride(), j, 0), h.out_n * h.Bytes(), i, 0)
    ensures 0 <= (j * h.x + i) * (h.out_n * h.Bytes()) && (j * h.x + i) * (h.out_n * h.Bytes()) + h.out_n * h.Bytes() <= n
  {
    var x, b := h.x, h.out_n * h.Bytes();
    assert h.Stride() == x * b by { Regroup(x, h.out_n, h.Bytes()); }
    PixelPlace(j, i, x, h.y, b);
  }

  lemma Regroup(a: nat, b: nat, c: nat)
    ensures a * b * c == a * (b * c)
  {
  }

  lemma PixelPlace(j: nat, i: nat, x: nat, y: nat, b: nat)
    requires j < y && i < x
    ensures (j * x + i) * b == j * (x * b) + i * b && (j * x + i) * b + b <= x * y * b
  {
    Regroup(j, x, b);
    Scale(j + 1, y, x);
    assert (j + 1) * x == j * x + x;
    Scale(j * x + i + 1, x * y, b);
    assert (j * x + i + 1) * b == (j * x + i) * b + b;
  }

  /** The bytes of a pixel of a reduced image, one behind the other. */
  function PixelAt(s: seq<Byte>, h: R.Header, j: nat, i: nat): Pixel {
    var b := h.out_n * h.Bytes();
    var a := (j * h.x + i) * b;
    if 0 <= a && a + b <= |s| then s[a..a + b] else []
  }

  lemma WidePixel(s: seq<Byte>, h: R.Header, color: nat, row: F.Row, j: nat, i: nat)
    requires h.Ok() && h.depth >= 8 && j < h.y && i < h.x && |s| == h.x * h.y * (h.out_n * h.Bytes())
    requires (h.depth == 16 ==> 2 * (h.x * h.y * h.out_n) <= |s|) && h.Rows().Has(U.FileOrder(s, h), j, row)
    ensures PixelIs(PixelAt(s, h, j, i), h, color, row, i)
  {
    hide R.Where, U.Sample, U.DepthScale, U.FileOrder, InFile;
    PixelBounds(h, j, i, |s|);
    var b, cur := h.out_n * h.Bytes(), R.Where(0, h.Stride(), j, 0);
    var pixel := PixelAt(s, h, j, i);
    forall k: nat | k < b
      ensures 0 <= InFile(h.depth, k) < b && (InFile(h.depth, k) < h.img_n * h.Bytes() <==> k < h.img_n * h.Bytes())
      ensures 0 <= R.Where(cur, b, i, InFile(h.depth, k)) < |s| && pixel[k] == U.FileOrder(s, h)[R.Where(cur, b, i, InFile(h.depth, k))]
    {
      R.WhereNext(cur, b, i, InFile(h.depth, k));
      InWord(s, h, j * h.x + i, (j * h.x + i) * b, k);
    }
  }

  /** Within pixel `q`, which starts at an even place if samples have 16 bits. */
  lemma InWord(s: seq<Byte>, h: R.Header, q: nat, a: nat, k: nat)
    requires h.depth in {8, 16} && |s| == h.x * h.y * (h.out_n * h.Bytes()) && k < h.out_n * h.Bytes()
    requires a == q * (h.out_n * h.Bytes()) && a + h.out_n * h.Bytes() <= |s|
    requires h.depth == 16 ==> 2 * (h.x * h.y * h.out_n) <= |s|
    ensures 0 <= InFile(h.depth, k) < h.out_n * h.Bytes() && (InFile(h.depth, k) < h.img_n * h.Bytes() <==> k < h.img_n * h.Bytes())
    ensures U.FileOrder(s, h)[a + InFile(h.depth, k)] == s[a + k]
  {
    hide U.Other, U.Exchanged;
    if h.depth == 16 {
      OtherInside(k, h.out_n);
      OtherInside(k, h.img_n);
      Twofold(q, h.out_n);
      Twofold(h.x * h.y, h.out_n);
      OtherShift(q * h.out_n, k);
    }
  }

  lemma OtherInside(k: nat, n: nat)
    ensures U.Other(k) >= 0 && (U.Other(k) < 2 * n <==> k < 2 * n)
  {
  }

  lemma OtherShift(m: nat, k: nat)
    ensures U.Other(2 * m + U.Other(k)) == 2 * m + k
  {
  }

  lemma PackedPixel(s: seq<Byte>, h: R.Header, color: nat, row: F.Row, j: nat, i: nat)
    requires h.Ok() && h.depth < 8 && j < h.y && i < h.x && |s| == h.x * h.y * (h.out_n * h.Bytes())
    requires U.Expanded(s, R.Where(0, h.Stride(), j, 0), h, if color == 0 then U.DepthScale(h.depth) else 1, row)
    ensures PixelIs(PixelAt(s, h, j, i), h, color, row, i)
  {
    hide R.Where, U.Sample, U.DepthScale, InFile;
    PixelBounds(h, j, i, |s|);
    var b, cur := h.out_n * h.Bytes(), R.Where(0, h.Stride(), j, 0);
    var pixel := PixelAt(s, h, j, i);
    forall k: nat | k < b ensures 0 <= R.Where(cur, b, i, k) < |s| && pixel[k] == s[R.Where(cur, b, i, k)] {
      R.WhereNext(cur, b, i, k);
    }
  }

  lemma BufferSize(h: R.Header)
    ensures R.Where(0, h.Stride(), h.y, 0) == h.x * h.y * (h.out_n * h.Bytes())
  {
    Regroup(h.x, h.out_n, h.Bytes());
    Regroup(h.y, h.x, h.out_n * h.Bytes());
  }

  /** One reduced image, decoded and taken apart into pixels. */
  method DecodePass(raw: F.Row, h: R.Header, color: nat) returns (ok: bool, pass: seq<seq<Pixel>>)
    requires h.Ok() && (h.depth < 8 && h.out_n != h.img_n ==> h.img_n in {1, 3})
    ensures ok <==> Accepted(raw, h)
    ensures ok ==> PassIs(pass, h, color, RowsOf(raw, h))
  {
    hide R.Where, R.Header.WidthBytes, U.DepthScale, F.Decoded, F.GoodFilters, F.Stored, U.Expanded, R.Layout.Has, PixelIs, PixelAt;
    BufferSize(h);
    R.Sizes(h);
    var out := new Byte[h.x * h.y * (h.out_n * h.Bytes())];
    ok := U.CreateImageRaw(out, raw, h, color);
    pass := [];
    if ok {
      var s := out[..];
      pass := seq(h.y, j requires 0 <= j < h.y => seq(h.x, i requires 0 <= i < h.x => PixelAt(s, h, j, i)));
      ghost var rows := RowsOf(raw, h);
      forall j: nat, i: nat | j < h.y && i < h.x ensures PixelIs(PixelAt(s, h, j, i), h, color, rows[j], i) {
        if h.depth < 8 { PackedPixel(s, h, color, rows[j], j, i); } else { WidePixel(s, h, color, rows[j], j, i); }
      }
    }
  }

  /** Pass `p` starts behind the passes before it, and is accepted there. */
  predicate PassGood(g: Png, data: F.Row, p: nat)
    requires p < 7 && g.Ok()
  {
    g.HasPass(p) ==> g.Offset(p) <= |data| && g.PassHeader(p).Ok() && Accepted(data[g.Offset(p)..], g.PassHeader(p))
  }

  ghost predicate Decodes(g: Png, data: F.Row, p: nat, pass: seq<seq<Pixel>>)
    requires p < 7 && g.Ok()
  {
    PassGood(g, data, p) && (g.HasPass(p) ==> PassIs(pass, g.PassHeader(p), g.color, RowsOf(data[g.Offset(p)..], g.PassHeader(p))))
  }

  /** Pixel (x, y) comes from its pass, row and column, in the bytes of that pass. */
  ghost predicate FromPass(pixel: Pixel, g: Png, data: F.Row, x: nat, y: nat)
    requires g.Ok()
  {
    var w := Source(x, y);
    && g.HasPass(w.p) && PassGood(g, data, w.p) && w.j < g.PassHeader(w.p).y
    && PixelIs(pixel, g.PassHeader(w.p), g.color, RowsOf(data[g.Offset(w.p)..], g.PassHeader(w.p))[w.j], w.i)
  }

  lemma AllReduced(g: Png, data: F.Row, reduced: seq<seq<seq<Pixel>>>)
    requires g.Ok() && |reduced| == 7 && forall p | 0 <= p < 7 :: Decodes(g, data, p, reduced[p])
    ensures Reduced(reduced, g.width, g.height)
    ensures forall x: nat, y: nat | x < g.width && y < g.height ::
              var w := Source(x, y);
              InPass(w, g.width, g.height) && FromPass(reduced[w.p][w.j][w.i], g, data, x, y)
  {
    hide PixelIs, RowsOf, PATTERN, PassSize, XORIG, YORIG, XSPC, YSPC, Source, PassGood;
    forall w: Place | InPass(w, g.width, g.height) ensures w.j < |reduced[w.p]| && w.i < |reduced[w.p][w.j]| {
      assert Decodes(g, data, w.p, reduced[w.p]);
    }
    forall x: nat, y: nat | x < g.width && y < g.height
      ensures var w := Source(x, y); InPass(w, g.width, g.height) && FromPass(reduced[w.p][w.j][w.i], g, data, x, y)
    {
      EveryPixel(x, y, g.width, g.height);
      var w := Source(x, y);
      assert Decodes(g, data, w.p, reduced[w.p]);
    }
  }

  lemma PassStarts(g: Png, data: F.Row, p: nat, rest: F.Row)
    requires p < 7 && g.Ok() && g.HasPass(p) && g.Offset(p) <= |data| && rest == data[g.Offset(p)..]
    ensures g.PassHeader(p).Ok() && (PassGood(g, data, p) <==> Accepted(rest, g.PassHeader(p)))
  {
    hide Accepted;
  }

  lemma PassDone(g: Png, data: F.Row, p: nat, rest: F.Row, pass: seq<seq<Pixel>>)
    requires p < 7 && g.Ok() && g.Offset(p) <= |data| && rest == data[g.Offset(p)..]
    requires g.HasPass(p) ==> g.PassHeader(p).Ok() && Accepted(rest, g.PassHeader(p)) && PassIs(pass, g.PassHeader(p), g.color, RowsOf(rest, g.PassHeader(p)))
    ensures Decodes(g, data, p, pass) && g.PassLength(p) <= |rest|
    ensures g.Offset(p + 1) <= |data| && rest[g.PassLength(p)..] == data[g.Offset(p + 1)..]
  {
    hide RowsOf, PassIs, F.Stored, F.GoodFilters, R.Header.WidthBytes, PassSize;
  }

  /** The loop over the passes: each that has pixels is read from the bytes behind those of the passes before it. */
  method DecodePasses(data: F.Row, g: Png) returns (ok: bool, reduced: seq<seq<seq<Pixel>>>)
    requires g.Ok()
    ensures ok <==> forall p | 0 <= p < 7 :: PassGood(g, data, p)
    ensures ok ==> |reduced| == 7 && forall p | 0 <= p < 7 :: Decodes(g, data, p, reduced[p])
  {
    hide PassSize, Accepted, PassIs, RowsOf, PassGood, Decodes, R.Header.WidthBytes, R.Header.Ok;
    reduced := [];
    var rest, p := data, 0;
    while p < 7
      invariant p <= 7 && |reduced| == p && g.Offset(p) <= |data| && rest == data[g.Offset(p)..]
      invariant forall q | 0 <= q < p :: Decodes(g, data, q, reduced[q])
    {
      var pass: seq<seq<Pixel>> := [];
      var h := g.PassHeader(p);
      var length := 0;
      if h.x != 0 && h.y != 0 {
        PassStarts(g, data, p, rest);
        ok, pass := DecodePass(rest, h, g.color);
        if !ok {
          assert !PassGood(g, data, p);
          return;
        }
        length := (h.WidthBytes() + 1) * h.y;
      }
      PassDone(g, data, p, rest, pass);
      rest := rest[length..];
      reduced := reduced + [pass];
      p := p + 1;
    }
    ok := true;
    forall q | 0 <= q < 7 ensures PassGood(g, data, q) { DecodesGood(g, data, q, reduced[q]); }
  }

  lemma DecodesGood(g: Png, data: F.Row, p: nat, pass: seq<seq<Pixel>>)
    requires p < 7 && g.Ok() && Decodes(g, data, p, pass)
    ensures PassGood(g, data, p)
  {
  }

  /** `stbi__create_png_image` for interlaced images: the image is refused exactly when a pass is, and otherwise every
      pixel is the one of its pass.  (The source copies each pass before it decodes the next, into an image it drops
      when one fails.) */
  method CreateImage(final: array2<Pixel>, data: F.Row, g: Png) returns (ok: bool)
    requires g.Ok() && final.Length1 == g.width && final.Length0 == g.height
    modifies final
    ensures ok <==> forall p | 0 <= p < 7 :: PassGood(g, data, p)
    ensures ok ==> forall x: nat, y: nat | x < g.width && y < g.height :: FromPass(final[y, x], g, data, x, y)
  {
    hide PATTERN, PassSize, XORIG, YORIG, XSPC, YSPC, Source, PassGood, FromPass, Decodes, Reduced;
    var reduced;
    ok, reduced := DecodePasses(data, g);
    if ok {
      AllReduced(g, data, reduced);
      ghost var written := Deinterlace(final, reduced);
    }
  }

  // ----- the round trip

  /** Behind the bytes of the passes before it, pass `p` is stored as section 9 of the PNG specification says: every row
      behind its filter type, filtered over the bytes of a pixel, or single bytes if samples are packed. */
  ghost predicate PassStored(g: Png, data: F.Row, rows: seq<F.Row>, filters: seq<nat>, p: nat)
    requires p < 7
  {
    && g.Offset(p) <= |data| && |rows| == g.PassHeader(p).y
    && F.ImageStored(filters, if g.depth < 8 then 1 else g.PixelBytes(), data[g.Offset(p)..], rows, F.Zeros(g.PassHeader(p).WidthBytes()))
  }

  /** So is every pass that has pixels. */
  ghost predicate AllStored(g: Png, data: F.Row, rows: seq<seq<F.Row>>, filters: seq<seq<nat>>) {
    && |rows| == 7 && |filters| == 7 && (g.depth < 8 ==> g.img_n == 1)
    && forall p: nat | p < 7 && g.HasPass(p) :: PassStored(g, data, rows[p], filters[p], p)
  }

  /** Whatever the rows and filters of the passes, the decoder finds every pass and gets its rows back. */
  lemma PassBack(g: Png, data: F.Row, rows: seq<seq<F.Row>>, filters: seq<seq<nat>>, p: nat)
    requires g.Ok() && AllStored(g, data, rows, filters) && p < 7
    ensures PassGood(g, data, p) && (g.HasPass(p) ==> RowsOf(data[g.Offset(p)..], g.PassHeader(p)) == rows[p])
  {
    hide PassSize, Accepted, RowsOf, Png.Offset, F.ImageStored, R.Header.WidthBytes;
    if g.HasPass(p) {
      assert PassStored(g, data, rows[p], filters[p], p);
      PassStarts(g, data, p, data[g.Offset(p)..]);
      PixelSizes(g, p);
      RawBack(g.PassHeader(p), data[g.Offset(p)..], rows[p], filters[p]);
    }
  }

  lemma RawBack(h: R.Header, raw: F.Row, rows: seq<F.Row>, filters: seq<nat>)
    requires h.Ok() && |rows| == h.y && (h.depth < 8 ==> h.img_n == 1)
    requires F.ImageStored(filters, if h.depth < 8 then 1 else h.img_n * h.Bytes(), raw, rows, F.Zeros(h.WidthBytes()))
    ensures Accepted(raw, h) && RowsOf(raw, h) == rows
  {
    hide F.ImageStored, F.Decoded, F.Stored, F.GoodFilters, R.Header.WidthBytes;
    if h.depth < 8 { NarrowRow(h); }
    R.Sizes(h);
    F.ImageBack(filters, h.Rows().bpp, raw, rows, F.Zeros(h.WidthBytes()));
    F.StoredLength(raw, h.WidthBytes(), h.y);
  }

  lemma NarrowRow(h: R.Header)
    requires h.Ok() && h.img_n == 1 && h.depth < 8
    ensures h.WidthBytes() <= h.x
  {
  }

  /** An image of pixels of 8-bit or 16-bit samples. */
  ghost predicate ImageOk(image: seq<seq<Pixel>>, g: Png) {
    && g.Ok() && g.depth >= 8 && |image| == g.height
    && (forall y | 0 <= y < g.height :: |image[y]| == g.width)
    && forall y, x | 0 <= y < g.height && 0 <= x < g.width :: |image[y][x]| == g.PixelBytes()
  }

  function ByteIn(image: seq<seq<Pixel>>, w: Place, k: nat): Byte
    requires w.p < 7
  {
    if Y(w) < |image| && X(w) < |image[Y(w)]| && k < |image[Y(w)][X(w)]| then image[Y(w)][X(w)][k] else 0
  }

  /** Row `j` of pass `p` of an image: the pixels of its grid, one behind the other. */
  function ReducedRow(image: seq<seq<Pixel>>, g: Png, p: nat, j: nat, n: nat): (row: F.Row)
    requires p < 7 && g.PixelBytes() > 0
    ensures |row| == n
  {
    seq(n, t requires 0 <= t < n => ByteIn(image, Place(p, t / g.PixelBytes(), j), t % g.PixelBytes()))
  }

  function ReducedRows(image: seq<seq<Pixel>>, g: Png): (rows: seq<seq<F.Row>>)
    requires g.PixelBytes() > 0
    ensures |rows| == 7
  {
    seq(7, p requires 0 <= p < 7 =>
      seq(g.PassHeader(p).y, j requires 0 <= j < g.PassHeader(p).y => ReducedRow(image, g, p, j, g.PassHeader(p).WidthBytes())))
  }

  lemma RowByte(image: seq<seq<Pixel>>, g: Png, p: nat, j: nat, n: nat, i: nat, k: nat)
    requires p < 7 && k < g.PixelBytes() && 0 <= R.Where(0, g.PixelBytes(), i, k) < n
    ensures ReducedRow(image, g, p, j, n)[R.Where(0, g.PixelBytes(), i, k)] == ByteIn(image, Place(p, i, j), k)
  {
    hide ByteIn;
    DivUnique(R.Where(0, g.PixelBytes(), i, k), g.PixelBytes(), i, k);
  }

  /** The pixel of the image, with 16-bit samples as words of the machine and with 255 in an added channel. */
  ghost predicate Restored(pixel: Pixel, original: Pixel, g: Png) {
    && |original| == g.PixelBytes() <= |pixel| == g.out_n * (if g.depth == 16 then 2 else 1)
    && (forall k | 0 <= k < |original| :: 0 <= InFile(g.depth, k) < |original| && pixel[k] == original[InFile(g.depth, k)])
    && forall k | |original| <= k < |pixel| :: pixel[k] == 255
  }

  /** The interlaced image comes back: whatever the filters, a pixel that comes from its pass is the pixel of the image. */
  lemma PixelBack(image: seq<seq<Pixel>>, g: Png, data: F.Row, filters: seq<seq<nat>>, x: nat, y: nat, pixel: Pixel)
    requires ImageOk(image, g) && g.PixelBytes() > 0 && AllStored(g, data, ReducedRows(image, g), filters) && x < g.width && y < g.height
    requires FromPass(pixel, g, data, x, y)
    ensures Restored(pixel, image[y][x], g)
  {
    hide PATTERN, PassSize, XORIG, YORIG, XSPC, YSPC, Source, PassGood, AllStored, RowsOf, R.Where, ReducedRow, R.Header.WidthBytes, X, Y, U.Other;
    var w := Source(x, y);
    EveryPixel(x, y, g.width, g.height);
    PassBack(g, data, ReducedRows(image, g), filters, w.p);
    PixelSizes(g, w.p);
    var h, n := g.PassHeader(w.p), g.PassHeader(w.p).WidthBytes();
    forall k: nat | k < g.PixelBytes()
      ensures 0 <= InFile(g.depth, k) < g.PixelBytes() && pixel[k] == image[y][x][InFile(g.depth, k)]
    {
      OtherInside(k, g.img_n);
      var t := InFile(g.depth, k);
      if 0 <= R.Where(0, g.PixelBytes(), w.i, t) < n { RowByte(image, g, w.p, w.j, n, w.i, t); }
    }
  }

  lemma PixelSizes(g: Png, p: nat)
    requires g.Ok() && p < 7
    ensures g.PixelBytes() == g.PassHeader(p).img_n * g.PassHeader(p).Bytes() <= g.PassHeader(p).out_n * g.PassHeader(p).Bytes()
  {
    Scale(g.img_n, g.out_n, g.PassHeader(p).Bytes());
  }

  /** Decoding undoes interlacing and filtering, for every image and every choice of filters. */
  method InterlacedRoundTrip(final: array2<Pixel>, data: F.Row, g: Png, ghost image: seq<seq<Pixel>>, ghost filters: seq<seq<nat>>)
    returns (ok: bool)
    requires ImageOk(image, g) && g.PixelBytes() > 0 && final.Length1 == g.width && final.Length0 == g.height
    requires AllStored(g, data, ReducedRows(image, g), filters)
    modifies final
    ensures ok
    ensures forall x: nat, y: nat | x < g.width && y < g.height :: Restored(final[y, x], image[y][x], g)
  {
    hide PassSize, XORIG, YORIG, XSPC, YSPC, AllStored, PassGood, FromPass, ReducedRows, Restored;
    forall p: nat | p < 7 ensures PassGood(g, data, p) { PassBack(g, data, ReducedRows(image, g), filters, p); }
    ok := CreateImage(final, data, g);
    forall x: nat, y: nat | x < g.width && y < g.height ensures Restored(final[y, x], image[y][x], g) {
      PixelBack(image, g, data, filters, x, y, final[y, x]);
    }
  }

  // ----- such files

  /** The rows of every pass that has pixels, with a filter for each. */
  ghost predicate PassRows(g: Png, rows: seq<seq<F.Row>>, filters: seq<seq<nat>>)
    requires g.Ok()
  {
    && |rows| == 7 && |filters| == 7 && (g.depth < 8 ==> g.img_n == 1)
    && forall p: nat | p < 7 && g.HasPass(p) :: RowsFit(g.PassHeader(p), rows[p], filters[p])
  }

  /** The passes from `p` on, as they are stored. */
  ghost function Passes(g: Png, rows: seq<seq<F.Row>>, filters: seq<seq<nat>>, p: nat): F.Row
    requires g.Ok() && PassRows(g, rows, filters) && p <= 7
    decreases 7 - p
  {
    if p == 7 then [] else PassBytes(g, rows, filters, p) + Passes(g, rows, filters, p + 1)
  }

  ghost function PassBytes(g: Png, rows: seq<seq<F.Row>>, filters: seq<seq<nat>>, p: nat): F.Row
    requires g.Ok() && PassRows(g, rows, filters) && p < 7
  {
    if g.HasPass(p) then ReducedBytes(g.PassHeader(p), rows[p], filters[p]) else []
  }

  ghost predicate RowsFit(h: R.Header, rows: seq<F.Row>, filters: seq<nat>) {
    |rows| == |filters| == h.y && forall j | 0 <= j < |rows| :: |rows[j]| == h.WidthBytes() && filters[j] <= 4
  }

  /** A reduced image as it is stored. */
  ghost function ReducedBytes(h: R.Header, rows: seq<F.Row>, filters: seq<nat>): (r: F.Row)
    requires h.Ok() && RowsFit(h, rows, filters)
    ensures |r| == (h.WidthBytes() + 1) * h.y
  {
    R.Sizes(h);
    F.EncodeLength(filters, h.Rows().bpp, rows, F.Zeros(h.WidthBytes()));
    F.Encode(filters, h.Rows().bpp, rows, F.Zeros(h.WidthBytes()))
  }

  lemma PassBytesLength(g: Png, rows: seq<seq<F.Row>>, filters: seq<seq<nat>>, p: nat)
    requires g.Ok() && PassRows(g, rows, filters) && p < 7
    ensures |PassBytes(g, rows, filters, p)| == g.PassLength(p)
  {
    hide ReducedBytes, PassSize, R.Header.WidthBytes;
  }

  /** Every pass is where the decoder looks for it. */
  lemma {:induction false} PassesAt(g: Png, rows: seq<seq<F.Row>>, filters: seq<seq<nat>>, rest: F.Row, p: nat)
    requires g.Ok() && PassRows(g, rows, filters) && p <= 7
    ensures var data := Passes(g, rows, filters, 0) + rest;
            g.Offset(p) <= |data| && data[g.Offset(p)..] == Passes(g, rows, filters, p) + rest
  {
    hide PassSize, R.Header.WidthBytes, PassRows, PassBytes, Png.PassLength;
    if p > 0 {
      PassesAt(g, rows, filters, rest, p - 1);
      PassBytesLength(g, rows, filters, p - 1);
    }
  }

  /** For all rows and all filters there is a file in which they are stored. */
  lemma PassesStored(g: Png, rows: seq<seq<F.Row>>, filters: seq<seq<nat>>, rest: F.Row)
    requires g.Ok() && PassRows(g, rows, filters)
    ensures AllStored(g, Passes(g, rows, filters, 0) + rest, rows, filters)
  {
    hide PassSize, ReducedBytes, RowsFit, Png.Offset, Passes, PassStored;
    var data := Passes(g, rows, filters, 0) + rest;
    forall p: nat | p < 7 && g.HasPass(p) ensures PassStored(g, data, rows[p], filters[p], p) {
      PassesAt(g, rows, filters, rest, p);
      var more := FirstPass(g, rows, filters, rest, p);
      OneStored(g, data, rows[p], filters[p], p, more);
    }
  }

  lemma FirstPass(g: Png, rows: seq<seq<F.Row>>, filters: seq<seq<nat>>, rest: F.Row, p: nat) returns (more: F.Row)
    requires g.Ok() && PassRows(g, rows, filters) && p < 7
    ensures Passes(g, rows, filters, p) + rest == PassBytes(g, rows, filters, p) + more
  {
    hide PassBytes, PassRows, Png.Ok;
    more := Passes(g, rows, filters, p + 1) + rest;
  }

  lemma OneStored(g: Png, data: F.Row, rows: seq<F.Row>, filters: seq<nat>, p: nat, more: F.Row)
    requires g.Ok() && p < 7 && g.HasPass(p) && g.PassHeader(p).Ok() && RowsFit(g.PassHeader(p), rows, filters)
    requires g.Offset(p) <= |data| && data[g.Offset(p)..] == ReducedBytes(g.PassHeader(p), rows, filters) + more
    ensures PassStored(g, data, rows, filters, p)
  {
    hide PassSize, Png.Offset, F.Encode, F.ImageStored, R.Header.WidthBytes;
    var h := g.PassHeader(p);
    R.Sizes(h);
    PixelSizes(g, p);
    F.EncodeStored(filters, h.Rows().bpp, rows, F.Zeros(h.WidthBytes()), more);
  }
}
