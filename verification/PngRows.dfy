/** The first part of `stbi__create_png_image_raw`: all rows are reconstructed in place, in the output buffer, with
    room for an alpha channel if one is to be inserted. */
module PngRows {
  import opened Bits
  import opened PngFilter

  /** Byte `k` of element `i` of an array of elements of `step` bytes that starts at `base`. */
  function Where(base: int, step: nat, i: int, k: int): int {
    base + i * step + k
  }

  lemma WhereNext(base: int, step: nat, i: int, k: int)
    ensures Where(base, step, i + 1, k) == Where(base, step, i, k) + step
    ensures Where(base, step, i, k) == Where(base, step, i, 0) + k && Where(base, step, 0, k) == base + k
  {
  }

  lemma WhereBefore(base: int, step: nat, i: int, j: int)
    requires 0 <= i < j
    ensures Where(base, step, i, 0) + step <= Where(base, step, j, 0)
  {
    Scale(i + 1, j, step);
    assert (i + 1) * step == i * step + step;
  }

  lemma WhereWithin(base: int, step: nat, i: int, x: int)
    requires 0 <= i < x
    ensures base <= Where(base, step, i, 0) && Where(base, step, i, 0) + step <= Where(base, step, x, 0)
  {
    WhereBefore(base, step, i, x);
    assert i * step >= 0;
  }

  /** The buffer holds `row`, in pixels of `bpp` bytes that lie `step` bytes apart, from `cur` on. */
  ghost predicate Holds(s: seq<Byte>, cur: int, step: nat, bpp: nat, x: nat, row: Row) {
    && bpp <= step && 0 <= cur && Where(cur, step, x, 0) <= |s| && |row| >= Where(0, bpp, x, 0)
    && forall i, k | 0 <= i < x && 0 <= k < bpp ::
         0 <= Where(cur, step, i, k) < |s| && 0 <= Where(0, bpp, i, k) < |row| && s[Where(cur, step, i, k)] == row[Where(0, bpp, i, k)]
  }

  /** Every byte between the pixels is 255. */
  ghost predicate AlphaSet(s: seq<Byte>, cur: int, step: nat, bpp: nat, x: nat) {
    && 0 <= cur && Where(cur, step, x, 0) <= |s|
    && forall i, k | 0 <= i < x && bpp <= k < step :: 0 <= Where(cur, step, i, k) < |s| && s[Where(cur, step, i, k)] == 255
  }

  /** Where one pixel goes, where the one above it is, and where it comes from. */
  datatype Place = Place(p: int, q: int, r: int, step: nat, filter: nat, first: bool) {
    predicate Fits(out: seq<Byte>, raw: Row, bpp: nat) {
      && 0 <= r && r + bpp <= |raw| && 1 <= bpp <= step && 0 <= p && p + bpp <= |out| && (!first ==> p - step >= 0)
      && (LooksUp(filter) ==> q + step <= p && q >= 0 && (!first ==> q - step >= 0 && q + step <= p - step))
    }
  }

  function ByteFor(out: seq<Byte>, raw: Row, at: Place, bpp: nat, k: nat): Byte
    requires at.Fits(out, raw, bpp) && k < bpp
  {
    if at.first then FirstByte(at.filter, raw[at.r + k], if LooksUp(at.filter) then out[at.q + k] else 0)
    else NextByte(at.filter, raw[at.r + k], out[at.p - at.step + k], if LooksUp(at.filter) then out[at.q + k] else 0,
                  if LooksUp(at.filter) then out[at.q - at.step + k] else 0)
  }

  /** The bytes of one pixel. */
  method Pixel(out: array<Byte>, raw: Row, at: Place, bpp: nat)
    requires at.Fits(out[..], raw, bpp)
    modifies out
    ensures forall k: nat | k < bpp :: out[at.p + k] == ByteFor(old(out[..]), raw, at, bpp, k)
    ensures forall z | 0 <= z < out.Length && !(at.p <= z < at.p + bpp) :: out[z] == old(out[z])
  {
    hide FirstByte, NextByte;
    ghost var s := out[..];
    var k: nat := 0;
    while k < bpp
      invariant k <= bpp
      invariant forall l: nat | l < k :: out[at.p + l] == ByteFor(s, raw, at, bpp, l)
      invariant forall z | 0 <= z < out.Length && !(at.p <= z < at.p + k) :: out[z] == s[z]
    {
      var x := raw[at.r + k];
      var b: Byte := if LooksUp(at.filter) then out[at.q + k] else 0;
      if at.first {
        out[at.p + k] := FirstByte(at.filter, x, b);
      } else {
        out[at.p + k] := NextByte(at.filter, x, out[at.p - at.step + k], b, if LooksUp(at.filter) then out[at.q - at.step + k] else 0);
      }
      k := k + 1;
    }
  }

  /** One row to reconstruct: `x` pixels of `bpp` bytes, `step` apart from `cur` on; the row above from `prior` on. */
  datatype Job = Job(cur: int, prior: int, r: int, x: nat, bpp: nat, step: nat, filter: nat, f: nat) {

    ghost predicate Ok(raw: Row, above: Row) {
      && x >= 1 && 1 <= bpp <= step && |above| == Length() && 0 <= r && r + Length() <= |raw| && CaseFor(filter, f, above)
    }

    /** The row above is in the buffer, before this one. */
    ghost predicate Above(s: seq<Byte>, above: Row) {
      && 0 <= cur && Where(cur, step, x, 0) <= |s|
      && (LooksUp(filter) ==> Holds(s, prior, step, bpp, x, above) && Where(prior, step, x, 0) <= cur)
    }

    ghost function Length(): int {
      Where(0, bpp, x, 0)
    }

    ghost function Target(raw: Row, above: Row): Row
      requires Ok(raw, above)
    {
      Recon(f, bpp, raw[r..r + Length()], above, Length())
    }

    function At(i: int): Place {
      Place(Where(cur, step, i, 0), Where(prior, step, i, 0), r + Where(0, bpp, i, 0), step, filter, i == 0)
    }
  }

  lemma PlaceFits(j: Job, s: seq<Byte>, raw: Row, above: Row, i: int)
    requires j.Ok(raw, above) && j.Above(s, above) && 0 <= i < j.x
    ensures j.At(i).Fits(s, raw, j.bpp)
  {
    hide Where, Holds;
    WhereWithin(j.cur, j.step, i, j.x);
    WhereWithin(j.prior, j.step, i, j.x);
    WhereWithin(0, j.bpp, i, j.x);
    WhereNext(j.cur, j.step, i - 1, 0);
    WhereNext(j.prior, j.step, i - 1, 0);
    if i > 0 {
      WhereWithin(j.cur, j.step, i - 1, j.x);
      WhereWithin(j.prior, j.step, i - 1, j.x);
    }
    if LooksUp(j.filter) { PriorStarts(j, s, above); }
  }

  lemma PriorStarts(j: Job, s: seq<Byte>, above: Row)
    requires Holds(s, j.prior, j.step, j.bpp, j.x, above)
    ensures 0 <= j.prior
  {
  }

  /** The bytes of pixel `i` of a row that the buffer holds. */
  lemma HeldByte(s: seq<Byte>, cur: int, step: nat, bpp: nat, x: nat, row: Row, i: int, k: nat)
    requires Holds(s, cur, step, bpp, x, row) && 0 <= i < x && k < bpp
    ensures 0 <= Where(cur, step, i, 0) + k < |s| && 0 <= Where(0, bpp, i, 0) + k < |row|
    ensures s[Where(cur, step, i, 0) + k] == row[Where(0, bpp, i, 0) + k]
  {
    WhereNext(cur, step, i, k);
    WhereNext(0, bpp, i, k);
    assert Where(cur, step, i, k) == Where(cur, step, i, 0) + k;
  }

  /** The byte at position `k` of pixel `i` in the row of the file. */
  lemma InRow(j: Job, raw: Row, above: Row, i: int, k: nat)
    requires j.Ok(raw, above) && 0 <= i < j.x && k < j.bpp
    ensures 0 <= Where(0, j.bpp, i, 0) + k < j.Length() && Where(0, j.bpp, i, k) == Where(0, j.bpp, i, 0) + k
    ensures Where(0, j.bpp, i, 0) + k < j.bpp <==> i == 0
    ensures i > 0 ==> Where(0, j.bpp, i - 1, 0) == Where(0, j.bpp, i, 0) - j.bpp >= 0
  {
    hide Where, CaseFor;
    WhereNext(0, j.bpp, i, k);
    WhereWithin(0, j.bpp, i, j.x);
    WhereNext(0, j.bpp, i - 1, 0);
    WhereNext(0, j.bpp, 0, 0);
    if i > 0 { WhereWithin(0, j.bpp, i - 1, j.x); }
  }

  /** The byte the decoder computes is the reconstructed one. */
  lemma ByteIs(j: Job, s: seq<Byte>, raw: Row, above: Row, i: int, k: nat)
    requires j.Ok(raw, above) && j.Above(s, above) && 0 <= i < j.x && k < j.bpp && j.At(i).Fits(s, raw, j.bpp)
    requires Holds(s, j.cur, j.step, j.bpp, i, j.Target(raw, above))
    ensures 0 <= Where(0, j.bpp, i, k) < j.Length()
    ensures ByteFor(s, raw, j.At(i), j.bpp, k) == j.Target(raw, above)[Where(0, j.bpp, i, k)]
  {
    hide Where, Recon, FirstByte, NextByte, Predict, CaseFor, Holds;
    var n, row := j.Length(), raw[j.r..j.r + j.Length()];
    InRow(j, raw, above, i, k);
    var t := Where(0, j.bpp, i, 0) + k;
    ReconAt(j.f, j.bpp, row, above, n, t);
    if LooksUp(j.filter) { HeldByte(s, j.prior, j.step, j.bpp, j.x, above, i, k); }
    if i > 0 {
      WhereNext(j.cur, j.step, i - 1, 0);
      WhereNext(j.prior, j.step, i - 1, 0);
      HeldByte(s, j.cur, j.step, j.bpp, i, j.Target(raw, above), i - 1, k);
      if LooksUp(j.filter) { HeldByte(s, j.prior, j.step, j.bpp, j.x, above, i - 1, k); }
    }
    CasesAgree(j.filter, j.f, above, row[t], Before(j.Target(raw, above), t, j.bpp), t, j.bpp);
  }

  /** Only the bytes from `lo` up to but not including `hi` differ. */
  ghost predicate SameOutside(s: seq<Byte>, s': seq<Byte>, lo: int, hi: int) {
    |s| == |s'| && forall z | 0 <= z < |s| && !(lo <= z < hi) :: s'[z] == s[z]
  }

  /** Rows that lie outside what has changed are still there. */
  lemma HoldsStill(s: seq<Byte>, s': seq<Byte>, lo: int, hi: int, cur: int, step: nat, bpp: nat, x: nat, row: Row)
    requires Holds(s, cur, step, bpp, x, row) && SameOutside(s, s', lo, hi) && (Where(cur, step, x, 0) <= lo || hi <= cur)
    ensures Holds(s', cur, step, bpp, x, row)
  {
    forall i, k | 0 <= i < x && 0 <= k < bpp
      ensures s'[Where(cur, step, i, k)] == s[Where(cur, step, i, k)] && 0 <= Where(cur, step, i, k) < |s|
    {
      hide Where;
      WhereWithin(cur, step, i, x);
      WhereNext(cur, step, i, k);
    }
  }

  lemma AlphaStill(s: seq<Byte>, s': seq<Byte>, lo: int, hi: int, cur: int, step: nat, bpp: nat, x: nat)
    requires AlphaSet(s, cur, step, bpp, x) && SameOutside(s, s', lo, hi) && (Where(cur, step, x, 0) <= lo || hi <= cur)
    ensures AlphaSet(s', cur, step, bpp, x)
  {
    forall i, k | 0 <= i < x && bpp <= k < step
      ensures s'[Where(cur, step, i, k)] == s[Where(cur, step, i, k)] && 0 <= Where(cur, step, i, k) < |s|
    {
      hide Where;
      WhereWithin(cur, step, i, x);
      WhereNext(cur, step, i, k);
    }
  }

  /** One more pixel. */
  lemma PixelDone(j: Job, s: seq<Byte>, s': seq<Byte>, raw: Row, above: Row, i: int)
    requires j.Ok(raw, above) && j.Above(s, above) && 0 <= i < j.x && j.At(i).Fits(s, raw, j.bpp)
    requires Holds(s, j.cur, j.step, j.bpp, i, j.Target(raw, above))
    requires SameOutside(s, s', j.At(i).p, j.At(i).p + j.step)
    requires forall k: nat | k < j.bpp :: s'[j.At(i).p + k] == ByteFor(s, raw, j.At(i), j.bpp, k)
    ensures Holds(s', j.cur, j.step, j.bpp, i + 1, j.Target(raw, above))
  {
    hide Where, Recon, ByteFor, CaseFor;
    var row, p := j.Target(raw, above), j.At(i).p;
    HoldsStill(s, s', p, p + j.step, j.cur, j.step, j.bpp, i, row);
    WhereWithin(0, j.bpp, i, j.x);
    WhereWithin(j.cur, j.step, i, j.x);
    WhereNext(0, j.bpp, i, 0);
    WhereNext(j.cur, j.step, i, 0);
    forall k | 0 <= k < j.bpp
      ensures 0 <= Where(j.cur, j.step, i, k) < |s'| && 0 <= Where(0, j.bpp, i, k) < |row| && s'[Where(j.cur, j.step, i, k)] == row[Where(0, j.bpp, i, k)]
    {
      ByteIs(j, s, raw, above, i, k);
      WhereNext(j.cur, j.step, i, k);
    }
  }

  lemma NothingYet(s: seq<Byte>, cur: int, step: nat, bpp: nat, row: Row)
    requires 0 <= cur <= |s| && bpp <= step
    ensures Holds(s, cur, step, bpp, 0, row) && Where(cur, step, 0, 0) == cur
  {
  }

  /** Reconstruct the pixels of a row; behind each of them goes the high byte of alpha, if there is to be one. */
  method UnfilterPixels(out: array<Byte>, raw: Row, j: Job, bytes: nat, ghost above: Row)
    requires j.Ok(raw, above) && j.Above(out[..], above) && 1 <= bytes <= 2 && (j.step == j.bpp || j.step == j.bpp + bytes)
    modifies out
    ensures Holds(out[..], j.cur, j.step, j.bpp, j.x, j.Target(raw, above))
    ensures SameOutside(old(out[..]), out[..], j.cur, Where(j.cur, j.step, j.x, 0))
    ensures j.step > j.bpp ==> forall i | 0 <= i < j.x :: 0 <= Where(j.cur, j.step, i, j.bpp) < out.Length && out[Where(j.cur, j.step, i, j.bpp)] == 255
  {
    hide Where, Recon, ByteFor, CaseFor, Holds, FirstByte, NextByte;
    ghost var s0, row := out[..], j.Target(raw, above);
    var i := 0;
    WhereWithin(j.cur, j.step, 0, j.x);
    WhereNext(j.cur, j.step, 0, 0);
    NothingYet(s0, j.cur, j.step, j.bpp, row);
    while i < j.x
      invariant 0 <= i <= j.x && j.Above(out[..], above) && Holds(out[..], j.cur, j.step, j.bpp, i, row)
      invariant SameOutside(s0, out[..], j.cur, Where(j.cur, j.step, i, 0))
      invariant j.step > j.bpp ==> forall l | 0 <= l < i :: 0 <= Where(j.cur, j.step, l, j.bpp) < out.Length && out[Where(j.cur, j.step, l, j.bpp)] == 255
    {
      ghost var s := out[..];
      PlaceFits(j, s, raw, above, i);
      var at := j.At(i);
      Pixel(out, raw, at, j.bpp);
      WhereWithin(j.cur, j.step, i, j.x);
      WhereNext(j.cur, j.step, i, 0);
      WhereNext(j.cur, j.step, i, j.bpp);
      if j.step > j.bpp {
        out[at.p + j.bpp] := 255;
        if i == 0 && bytes == 2 {
          out[at.p + j.bpp + 1] := 255;
        }
      }
      PixelDone(j, s, out[..], raw, above, i);
      StillAbove(j, s, out[..], above, at.p, at.p + j.step);
      if j.step > j.bpp { EarlierAlpha(s, out[..], j.cur, j.step, j.bpp, i, at.p); }
      i := i + 1;
    }
  }

  lemma StillAbove(j: Job, s: seq<Byte>, s': seq<Byte>, above: Row, lo: int, hi: int)
    requires j.Above(s, above) && SameOutside(s, s', lo, hi) && j.cur <= lo
    ensures j.Above(s', above)
  {
    hide Where, Holds;
    if LooksUp(j.filter) { HoldsStill(s, s', lo, hi, j.prior, j.step, j.bpp, j.x, above); }
  }

  lemma EarlierAlpha(s: seq<Byte>, s': seq<Byte>, cur: int, step: nat, bpp: nat, i: int, p: int)
    requires p == Where(cur, step, i, 0) && SameOutside(s, s', p, p + step) && bpp < step
    ensures forall l | 0 <= l < i && 0 <= Where(cur, step, l, bpp) < |s| :: s'[Where(cur, step, l, bpp)] == s[Where(cur, step, l, bpp)]
  {
    forall l | 0 <= l < i && 0 <= Where(cur, step, l, bpp) < |s| ensures s'[Where(cur, step, l, bpp)] == s[Where(cur, step, l, bpp)] {
      hide Where;
      WhereBefore(cur, step, l, i);
      WhereNext(cur, step, l, bpp);
    }
  }

  /** The low byte of alpha, for samples of 16 bits. */
  method LowAlpha(out: array<Byte>, cur: int, step: nat, bpp: nat, x: nat, ghost row: Row)
    requires step == bpp + 2 && Holds(out[..], cur, step, bpp, x, row)
    requires forall i | 0 <= i < x :: 0 <= Where(cur, step, i, bpp) < out.Length && out[Where(cur, step, i, bpp)] == 255
    modifies out
    ensures Holds(out[..], cur, step, bpp, x, row) && AlphaSet(out[..], cur, step, bpp, x)
    ensures SameOutside(old(out[..]), out[..], cur, Where(cur, step, x, 0))
  {
    hide Where;
    ghost var s0 := out[..];
    var i := 0;
    Bounds(cur, step, x, out.Length);
    while i < x
      invariant 0 <= i <= x && SameOutside(s0, out[..], cur, Where(cur, step, x, 0))
      invariant forall l, k | 0 <= l < x && 0 <= k < step :: out[Where(cur, step, l, k)] == if l < i && k == bpp + 1 then 255 else s0[Where(cur, step, l, k)]
    {
      WhereWithin(cur, step, i, x);
      WhereNext(cur, step, i, bpp + 1);
      Elsewhere(cur, step, i, bpp + 1, x);
      out[Where(cur, step, i, bpp + 1)] := 255;
      i := i + 1;
    }
  }

  lemma Bounds(cur: int, step: nat, x: nat, n: int)
    requires 0 <= cur && Where(cur, step, x, 0) <= n
    ensures forall i, k | 0 <= i < x && 0 <= k < step :: 0 <= Where(cur, step, i, k) < n
  {
    forall i, k | 0 <= i < x && 0 <= k < step ensures 0 <= Where(cur, step, i, k) < n {
      hide Where;
      WhereWithin(cur, step, i, x);
      WhereNext(cur, step, i, k);
    }
  }

  /** Different bytes of different elements are in different places. */
  lemma Elsewhere(cur: int, step: nat, i: int, b: int, x: nat)
    requires 0 <= i < x && 0 <= b < step
    ensures forall l, k | 0 <= l < x && 0 <= k < step && (l != i || k != b) :: Where(cur, step, l, k) != Where(cur, step, i, b)
  {
    forall l, k | 0 <= l < x && 0 <= k < step && (l != i || k != b) ensures Where(cur, step, l, k) != Where(cur, step, i, b) {
      hide Where;
      WhereNext(cur, step, l, k);
      WhereNext(cur, step, i, b);
      if l < i { WhereBefore(cur, step, l, i); }
      if i < l { WhereBefore(cur, step, i, l); }
    }
  }

  lemma ByteAlpha(s: seq<Byte>, cur: int, step: nat, bpp: nat, x: nat)
    requires 0 <= cur && Where(cur, step, x, 0) <= |s| && step <= bpp + 1
    requires step > bpp ==> forall i | 0 <= i < x :: 0 <= Where(cur, step, i, bpp) < |s| && s[Where(cur, step, i, bpp)] == 255
    ensures AlphaSet(s, cur, step, bpp, x)
  {
    hide Where;
  }

  /** One row: the reconstructed pixels, and alpha 255 behind each of them if the output has one channel more. */
  method UnfilterRow(out: array<Byte>, raw: Row, j: Job, bytes: nat, ghost above: Row)
    requires j.Ok(raw, above) && j.Above(out[..], above) && 1 <= bytes <= 2 && (j.step == j.bpp || j.step == j.bpp + bytes)
    modifies out
    ensures Holds(out[..], j.cur, j.step, j.bpp, j.x, j.Target(raw, above)) && AlphaSet(out[..], j.cur, j.step, j.bpp, j.x)
    ensures SameOutside(old(out[..]), out[..], j.cur, Where(j.cur, j.step, j.x, 0))
  {
    hide Where, Recon, CaseFor, Holds, AlphaSet;
    UnfilterPixels(out, raw, j, bytes, above);
    if j.step == j.bpp + 2 {
      LowAlpha(out, j.cur, j.step, j.bpp, j.x, j.Target(raw, above));
    } else {
      ByteAlpha(out[..], j.cur, j.step, j.bpp, j.x);
    }
  }

  // ----- all rows

  /** `y` rows, `stride` bytes apart from `off` on, that end where the next `stride` bytes begin. */
  datatype Layout = Layout(off: nat, stride: nat, width: nat, bpp: nat, step: nat, bytes: nat) {
    predicate Ok() {
      && width >= 1 && 1 <= bpp <= step && 1 <= bytes <= 2 && (step == bpp || step == bpp + bytes)
      && Where(off, step, width, 0) == stride
    }

    /** Bytes in a row of the file. */
    function Length(): int {
      Where(0, bpp, width, 0)
    }

    function Start(j: int): int {
      Where(off, stride, j, 0)
    }

    /** A row that starts at `start` lies in the buffer. */
    ghost predicate Fits(s: seq<Byte>, start: int) {
      0 <= start && Where(start, step, width, 0) <= |s|
    }

    ghost predicate Has(s: seq<Byte>, j: int, row: Row) {
      Holds(s, Start(j), step, bpp, width, row) && AlphaSet(s, Start(j), step, bpp, width)
    }
  }

  lemma RowEnds(l: Layout, j: int, y: int)
    requires l.Ok() && 0 <= j < y
    ensures 0 <= l.Start(j) && Where(l.Start(j), l.step, l.width, 0) == Where(0, l.stride, j + 1, 0) <= Where(0, l.stride, y, 0)
    ensures l.Start(j) == Where(0, l.stride, j, 0) + l.off && l.Length() >= 1
  {
    assert j * l.stride >= 0;
    WhereNext(0, l.stride, j, 0);
    WhereWithin(0, l.stride, j, y);
    assert l.width * l.bpp >= l.bpp by { Scale(1, l.width, l.bpp); }
  }

  lemma RowStays(l: Layout, s: seq<Byte>, s': seq<Byte>, i: int, j: int, row: Row)
    requires l.Ok() && 0 <= i < j && l.Has(s, i, row) && SameOutside(s, s', l.Start(j), Where(l.Start(j), l.step, l.width, 0))
    ensures l.Has(s', i, row)
  {
    hide Where, Holds, AlphaSet, SameOutside;
    RowEnds(l, i, j);
    RowEnds(l, j, j + 1);
    var hi := Where(l.Start(j), l.step, l.width, 0);
    HoldsStill(s, s', l.Start(j), hi, l.Start(i), l.step, l.bpp, l.width, row);
    AlphaStill(s, s', l.Start(j), hi, l.Start(i), l.step, l.bpp, l.width);
  }

  /** The job for the row that starts at `start`, whose filter type is at `r`. */
  function RowJob(l: Layout, raw: Row, first: bool, start: int, r: nat): Job
    requires r < |raw|
  {
    Job(start, start - l.stride, r + 1, l.width, l.bpp, l.step, if first then FirstRowFilter(raw[r]) else raw[r], raw[r])
  }

  lemma RowJobOk(l: Layout, s: seq<Byte>, raw: Row, first: bool, start: int, r: nat, above: Row)
    requires l.Ok() && r < |raw| && raw[r] <= 4 && r + 1 + l.Length() <= |raw| && |above| == l.Length()
    requires l.Fits(s, start) && (first ==> above == Zeros(|above|))
    requires !first ==> l.Fits(s, start - l.stride) && Holds(s, start - l.stride, l.step, l.bpp, l.width, above)
    ensures RowJob(l, raw, first, start, r).Ok(raw, above) && RowJob(l, raw, first, start, r).Above(s, above)
  {
    hide Holds;
  }

  lemma HasIs(l: Layout, s: seq<Byte>, j: int, row: Row)
    requires l.Has(s, j, row)
    ensures l.Fits(s, l.Start(j)) && Holds(s, l.Start(j), l.step, l.bpp, l.width, row)
  {
    hide Where, Holds;
  }

  /** The loop over the rows. */
  method UnfilterRows(out: array<Byte>, raw: Row, l: Layout, y: nat) returns (ok: bool)
    requires l.Ok() && Where(0, l.stride, y, 0) <= out.Length && Stored(raw, l.Length(), y)
    modifies out
    ensures ok <==> GoodFilters(raw, l.Length(), y)
    ensures ok ==> forall j | 0 <= j < y :: l.Has(out[..], j, Decoded(raw, l.bpp, Zeros(l.Length()), y)[j])
  {
    hide Where, Recon, Holds, AlphaSet, Layout.Has, Decoded, Stored, GoodFilters, SameOutside;
    RowEnds(l, 0, 1);
    ghost var n, all := l.Length(), Decoded(raw, l.bpp, Zeros(l.Length()), y);
    ghost var done: seq<Row>, above: Row := [], Zeros(n);
    var j, r: nat := 0, 0;
    assert raw[0..] == raw;
    while j < y
      invariant 0 <= j <= y && |done| == j && r <= |raw| && |above| == n
      invariant Stored(raw[r..], n, y - j) && all == done + Decoded(raw[r..], l.bpp, above, y - j)
      invariant GoodFilters(raw, n, y) <==> GoodFilters(raw[r..], n, y - j)
      invariant if j == 0 then above == Zeros(n) else above == done[j - 1]
      invariant forall i | 0 <= i < j :: l.Has(out[..], i, done[i])
    {
      Peel(raw, r, n, l.bpp, above, y - j);
      var filter := raw[r];
      if filter > 4 {
        return false;
      }
      ghost var s := out[..];
      RowEnds(l, j, y);
      assert j > 0 ==> l.Fits(s, l.Start(j) - l.stride) && Holds(s, l.Start(j) - l.stride, l.step, l.bpp, l.width, above) by {
        if j > 0 {
          HasIs(l, s, j - 1, above);
          WhereNext(l.off, l.stride, j - 1, 0);
        }
      }
      RowJobOk(l, s, raw, j == 0, l.Start(j), r, above);
      var job := RowJob(l, raw, j == 0, l.Start(j), r);
      UnfilterRow(out, raw, job, l.bytes, above);
      KeepRows(l, s, out[..], done, j);
      RowThere(l, out[..], j, job.Target(raw, above));
      above := job.Target(raw, above);
      done := done + [above];
      r := r + 1 + l.Length();
      j := j + 1;
    }
    ok := true;
    Peeled(raw[r..], n, l.bpp, above);
  }

  /** The first of `m` rows from `r` on. */
  lemma Peel(raw: Row, r: nat, n: nat, bpp: nat, above: Row, m: nat)
    requires r <= |raw| && m > 0 && Stored(raw[r..], n, m) && |above| == n && bpp > 0
    ensures r + 1 + n <= |raw| && Stored(raw[r + 1 + n..], n, m - 1)
    ensures GoodFilters(raw[r..], n, m) <==> raw[r] <= 4 && GoodFilters(raw[r + 1 + n..], n, m - 1)
    ensures var row := Recon(raw[r], bpp, raw[r + 1..r + 1 + n], above, n);
            Decoded(raw[r..], bpp, above, m) == [row] + Decoded(raw[r + 1 + n..], bpp, row, m - 1)
  {
    hide Recon;
    assert raw[r..][1..n + 1] == raw[r + 1..r + 1 + n] && raw[r..][n + 1..] == raw[r + 1 + n..];
  }

  lemma Peeled(raw: Row, n: nat, bpp: nat, above: Row)
    requires bpp > 0
    ensures Stored(raw, n, 0) && GoodFilters(raw, n, 0) && Decoded(raw, bpp, above, 0) == []
  {
  }

  lemma RowThere(l: Layout, s: seq<Byte>, j: int, row: Row)
    requires Holds(s, l.Start(j), l.step, l.bpp, l.width, row) && AlphaSet(s, l.Start(j), l.step, l.bpp, l.width)
    ensures l.Has(s, j, row)
  {
  }

  lemma KeepRows(l: Layout, s: seq<Byte>, s': seq<Byte>, rows: seq<Row>, j: int)
    requires l.Ok() && |rows| == j && (forall i | 0 <= i < j :: l.Has(s, i, rows[i]))
    requires SameOutside(s, s', l.Start(j), Where(l.Start(j), l.step, l.width, 0))
    ensures forall i | 0 <= i < j :: l.Has(s', i, rows[i])
  {
    hide Layout.Has, Where, SameOutside;
    forall i | 0 <= i < j ensures l.Has(s', i, rows[i]) { RowStays(l, s, s', i, j, rows[i]); }
  }

  // ----- the sizes

  /** What `stbi__create_png_image_raw` computes from the header. */
  datatype Header = Header(x: nat, y: nat, img_n: nat, out_n: nat, depth: nat) {
    predicate Ok() {
      && x >= 1 && img_n >= 1 && (out_n == img_n || out_n == img_n + 1) && depth in {1, 2, 4, 8, 16}
    }

    function Bytes(): nat {
      if depth == 16 then 2 else 1
    }

    /** Bytes in a row of the file. */
    function WidthBytes(): nat {
      (img_n * x * depth + 7) / 8
    }

    function Stride(): nat {
      x * out_n * Bytes()
    }

    /** Rows of less than 8 bits a sample are put at the right end of their place. */
    function Rows(): Layout {
      if depth < 8 then Layout(if x * out_n >= WidthBytes() then x * out_n - WidthBytes() else 0, Stride(), WidthBytes(), 1, 1, 1)
      else Layout(0, Stride(), x, img_n * Bytes(), out_n * Bytes(), Bytes())
    }
  }

  lemma Sizes(h: Header)
    requires h.Ok()
    ensures h.Rows().Ok() && h.Rows().Length() == h.WidthBytes() && h.Stride() == h.Rows().stride
    ensures 1 <= h.WidthBytes() && (h.depth < 8 ==> h.WidthBytes() <= h.x * h.out_n)
  {
    hide Where;
    var b := h.Bytes();
    Products(h.x, h.img_n, h.out_n, b);
    WidthIs(h.img_n * h.x, h.depth);
    WhereIs(0, h.img_n * b, h.x);
    WhereIs(0, h.out_n * b, h.x);
    WhereIs(h.Rows().off, 1, h.WidthBytes());
    WhereIs(0, 1, h.WidthBytes());
  }

  lemma WhereIs(base: int, step: nat, i: int)
    ensures Where(base, step, i, 0) == base + i * step
  {
  }

  lemma Products(x: nat, img_n: nat, out_n: nat, b: nat)
    requires 1 <= x && 1 <= img_n <= out_n && 1 <= b
    ensures x * out_n * b == x * (out_n * b) && x * (img_n * b) == img_n * x * b
    ensures 1 <= img_n * x <= x * out_n && 1 <= img_n * b <= out_n * b
  {
    Scale(1, img_n, x);
    Scale(img_n, out_n, x);
    Scale(1, img_n, b);
    Scale(img_n, out_n, b);
  }

  lemma WidthIs(n: nat, d: nat)
    requires n >= 1 && d in {1, 2, 4, 8, 16}
    ensures 1 <= (n * d + 7) / 8 && (d == 8 ==> (n * d + 7) / 8 == n) && (d == 16 ==> (n * d + 7) / 8 == n * 2)
    ensures d < 8 ==> (n * d + 7) / 8 <= n
  {
  }

  /** The first part of `stbi__create_png_image_raw`: it fails exactly when there are too few bytes, a filter type
      is unknown, or a packed row is too wide; otherwise every row of the file is in its place, reconstructed. */
  method CreateRows(out: array<Byte>, raw: Row, h: Header) returns (ok: bool)
    requires h.Ok() && Where(0, h.Stride(), h.y, 0) <= out.Length
    modifies out
    ensures ok <==> && |raw| >= (h.WidthBytes() + 1) * h.y && (h.depth < 8 && h.y > 0 ==> h.WidthBytes() <= h.x)
                    && Stored(raw, h.WidthBytes(), h.y) && GoodFilters(raw, h.WidthBytes(), h.y)
    ensures ok ==> forall j | 0 <= j < h.y :: h.Rows().Has(out[..], j, Decoded(raw, h.Rows().bpp, Zeros(h.WidthBytes()), h.y)[j])
  {
    hide Where, Layout.Has, Header.WidthBytes, Decoded, GoodFilters, Stored;
    Sizes(h);
    StoredLength(raw, h.WidthBytes(), h.y);
    if |raw| < (h.WidthBytes() + 1) * h.y {
      return false;
    }
    if h.depth < 8 && h.y > 0 && h.WidthBytes() > h.x {
      return false;
    }
    ok := UnfilterRows(out, raw, h.Rows(), h.y);
  }

  /** Whatever the rows and their filters, what was filtered comes back: from a file in which `rows` are stored as section 9
      of the PNG specification says, the decoder puts exactly them in place. */
  method UndoFilters(out: array<Byte>, raw: Row, h: Header, ghost rows: seq<Row>, ghost filters: seq<nat>) returns (ok: bool)
    requires h.Ok() && Where(0, h.Stride(), h.y, 0) <= out.Length && |rows| == h.y && (h.depth < 8 ==> h.WidthBytes() <= h.x)
    requires ImageStored(filters, if h.depth < 8 then 1 else h.img_n * (if h.depth == 16 then 2 else 1), raw, rows, Zeros(h.WidthBytes()))
    modifies out
    ensures ok && forall j | 0 <= j < h.y :: h.Rows().Has(out[..], j, rows[j])
  {
    hide Where, Layout.Has, Header.WidthBytes, Decoded, GoodFilters, Stored, ImageStored;
    Sizes(h);
    ImageBack(filters, h.Rows().bpp, raw, rows, Zeros(h.WidthBytes()));
    StoredLength(raw, h.WidthBytes(), h.y);
    ok := CreateRows(out, raw, h);
  }
}
