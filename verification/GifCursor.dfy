/** The order in which a GIF frame is filled, appendix E of GIF89a. */
module GifCursor {
  import opened Bits

  /** A frame of `w` by `h` pixels at (x0, y0) on a canvas of `width` columns. */
  datatype Frame = Frame(width: nat, x0: nat, y0: nat, w: nat, h: nat, interlaced: bool) {

    predicate Ok() {
      x0 + w <= width
    }

    /** The canvas index of a pixel of the frame. */
    function At(row: nat, col: nat): nat {
      (y0 + row) * width + (x0 + col)
    }
  }

  /** Rows `r`, `r + step`, ... of a frame of `h` rows. */
  function PassRows(r: nat, step: nat, h: nat): seq<nat>
    requires step > 0
    decreases h - r
  {
    if r < h then [r] + PassRows(r + step, step, h) else []
  }

  /** Appendix E: every 8th row from row 0, every 8th from row 4, every 4th from row 2, every 2nd from row 1. */
  function RowOrder(h: nat, interlaced: bool): seq<nat> {
    if !interlaced then PassRows(0, 1, h)
    else PassRows(0, 8, h) + (PassRows(4, 8, h) + (PassRows(2, 4, h) + PassRows(1, 2, h)))
  }

  /** The pixels of one row from column `c` on. */
  function RowFrom(f: Frame, row: nat, c: nat): (s: seq<nat>)
    requires c <= f.w
    ensures |s| == f.w - c
    decreases f.w - c
  {
    if c == f.w then [] else [f.At(row, c)] + RowFrom(f, row, c + 1)
  }

  function Visits(f: Frame, rows: seq<nat>): seq<nat> {
    if rows == [] then [] else RowFrom(f, rows[0], 0) + Visits(f, rows[1..])
  }

  /** All pixels of the frame in the order they are written. */
  function AllVisits(f: Frame): seq<nat> {
    Visits(f, RowOrder(f.h, f.interlaced))
  }

  // ----- every pixel once

  ghost predicate Distinct(s: seq<nat>) {
    forall i, j | 0 <= i < j < |s| :: s[i] != s[j]
  }

  lemma {:induction false} PassMembers(r: nat, step: nat, h: nat, x: nat)
    requires step > 0
    ensures x in PassRows(r, step, h) <==> r <= x < h && (x - r) % step == 0
    decreases h - r
  {
    if r < h {
      PassMembers(r + step, step, h, x);
      if x >= r + step {
        ModStep(x - r, step);
      } else if r < x {
        assert (x - r) % step == x - r by { SmallMod(x - r, step); }
      } else if x == r {
        SmallMod(0, step);
      }
    }
  }

  lemma SmallMod(i: nat, d: nat)
    requires i < d
    ensures i % d == i
  {
    DivUnique(i, d, 0, i);
  }

  lemma {:induction false} PassDistinct(r: nat, step: nat, h: nat)
    requires step > 0
    ensures Distinct(PassRows(r, step, h)) && forall x | x in PassRows(r, step, h) :: r <= x < h
    decreases h - r
  {
    if r < h {
      PassDistinct(r + step, step, h);
      DistinctAppend([r], PassRows(r + step, step, h));
    }
  }

  lemma DistinctAppend(a: seq<nat>, b: seq<nat>)
    requires Distinct(a) && Distinct(b) && forall x | x in a :: x !in b
    ensures Distinct(a + b)
  {
    forall i, j | 0 <= i < j < |a + b| ensures (a + b)[i] != (a + b)[j] {
      if i < |a| <= j { assert a[i] in a && b[j - |a|] in b; }
    }
  }

  lemma PassResidue(r: nat, step: nat, h: nat, x: nat)
    requires r < step
    ensures x in PassRows(r, step, h) <==> x < h && x % step == r
  {
    hide PassRows;
    PassMembers(r, step, h, x);
    if x >= r && (x - r) % step == 0 {
      var q := (x - r) / step;
      assert x - r == step * q;
      DivUnique(x, step, q, r);
    }
    if x % step == r {
      assert x == step * (x / step) + r;
      DivUnique(x - r, step, x / step, 0);
    }
  }

  /** The row order, interlaced or not, has every row of the frame exactly once. */
  lemma RowOrderPermutes(h: nat, interlaced: bool)
    ensures Distinct(RowOrder(h, interlaced))
    ensures forall x: nat :: x in RowOrder(h, interlaced) <==> x < h
  {
    hide PassRows, Distinct;
    if !interlaced {
      PassDistinct(0, 1, h);
      forall x: nat ensures x in PassRows(0, 1, h) <==> x < h { PassMembers(0, 1, h, x); }
    } else {
      var a, b, c, d := PassRows(0, 8, h), PassRows(4, 8, h), PassRows(2, 4, h), PassRows(1, 2, h);
      forall x: nat
        ensures x in a <==> x < h && x % 8 == 0
        ensures x in b <==> x < h && x % 8 == 4
        ensures x in c <==> x < h && x % 4 == 2
        ensures x in d <==> x < h && x % 2 == 1
      {
        PassResidue(0, 8, h, x);
        PassResidue(4, 8, h, x);
        PassResidue(2, 4, h, x);
        PassResidue(1, 2, h, x);
      }
      PassDistinct(0, 8, h);
      PassDistinct(4, 8, h);
      PassDistinct(2, 4, h);
      PassDistinct(1, 2, h);
      DistinctAppend(c, d);
      DistinctAppend(b, c + d);
      DistinctAppend(a, b + (c + d));
    }
  }

  /** Different pixels of the frame are different pixels of the canvas. */
  lemma AtInjective(f: Frame, r: nat, c: nat, r': nat, c': nat)
    requires f.Ok() && c < f.w && c' < f.w && f.At(r, c) == f.At(r', c')
    ensures r == r' && c == c'
  {
    DivUnique(f.At(r, c), f.width, f.y0 + r, f.x0 + c);
    DivUnique(f.At(r', c'), f.width, f.y0 + r', f.x0 + c');
  }

  lemma {:induction false} RowMembers(f: Frame, row: nat, c: nat, p: nat)
    requires c <= f.w
    ensures p in RowFrom(f, row, c) <==> exists k :: c <= k < f.w && p == f.At(row, k)
    decreases f.w - c
  {
    if c < f.w { RowMembers(f, row, c + 1, p); }
  }

  lemma {:induction false} RowDistinct(f: Frame, row: nat, c: nat)
    requires f.Ok() && c <= f.w
    ensures Distinct(RowFrom(f, row, c))
    decreases f.w - c
  {
    if c < f.w {
      RowDistinct(f, row, c + 1);
      var head, rest := f.At(row, c), RowFrom(f, row, c + 1);
      forall p | p in rest ensures p != head {
        RowMembers(f, row, c + 1, p);
        var k :| c + 1 <= k < f.w && p == f.At(row, k);
      }
      DistinctAppend([f.At(row, c)], RowFrom(f, row, c + 1));
    }
  }

  ghost predicate InRows(f: Frame, rows: seq<nat>, p: nat) {
    exists r: nat, c: nat :: r in rows && c < f.w && p == f.At(r, c)
  }

  lemma {:induction false} VisitMembers(f: Frame, rows: seq<nat>, p: nat)
    ensures p in Visits(f, rows) <==> InRows(f, rows, p)
  {
    if rows != [] {
      VisitMembers(f, rows[1..], p);
      RowMembers(f, rows[0], 0, p);
      if p in RowFrom(f, rows[0], 0) {
        var k :| 0 <= k < f.w && p == f.At(rows[0], k);
        assert rows[0] in rows;
      }
      if InRows(f, rows[1..], p) {
        var r: nat, c: nat :| r in rows[1..] && c < f.w && p == f.At(r, c);
        assert r in rows;
      }
      if InRows(f, rows, p) {
        var r: nat, c: nat :| r in rows && c < f.w && p == f.At(r, c);
        assert r == rows[0] || r in rows[1..];
      }
    }
  }

  lemma {:induction false} VisitsDistinct(f: Frame, rows: seq<nat>)
    requires f.Ok() && Distinct(rows)
    ensures Distinct(Visits(f, rows))
  {
    if rows != [] {
      VisitsDistinct(f, rows[1..]);
      RowDistinct(f, rows[0], 0);
      assert rows[0] !in rows[1..];
      forall p | p in RowFrom(f, rows[0], 0) ensures p !in Visits(f, rows[1..]) {
        RowMembers(f, rows[0], 0, p);
        var k :| 0 <= k < f.w && p == f.At(rows[0], k);
        VisitMembers(f, rows[1..], p);
        if InRows(f, rows[1..], p) {
          var r: nat, c: nat :| r in rows[1..] && c < f.w && p == f.At(r, c);
          AtInjective(f, rows[0], k, r, c);
        }
      }
      DistinctAppend(RowFrom(f, rows[0], 0), Visits(f, rows[1..]));
    }
  }

  /** A pixel of the frame's rectangle. */
  ghost predicate Inside(f: Frame, p: nat) {
    exists r: nat, c: nat :: r < f.h && c < f.w && p == f.At(r, c)
  }

  /** The filling order has every pixel of the frame's rectangle exactly once, and no other. */
  lemma EveryPixelOnce(f: Frame)
    requires f.Ok()
    ensures Distinct(AllVisits(f))
    ensures forall p: nat :: p in AllVisits(f) <==> Inside(f, p)
  {
    hide Visits, Distinct, RowOrder;
    var rows := RowOrder(f.h, f.interlaced);
    RowOrderPermutes(f.h, f.interlaced);
    VisitsDistinct(f, rows);
    forall p: nat ensures p in AllVisits(f) <==> Inside(f, p) {
      VisitMembers(f, rows, p);
      SameRows(f, rows, p);
    }
  }

  lemma SameRows(f: Frame, rows: seq<nat>, p: nat)
    requires forall x: nat :: x in rows <==> x < f.h
    ensures InRows(f, rows, p) <==> Inside(f, p)
  {
    if InRows(f, rows, p) {
      var r: nat, c: nat :| r in rows && c < f.w && p == f.At(r, c);
      assert r < f.h;
    }
    if Inside(f, p) {
      var r: nat, c: nat :| r < f.h && c < f.w && p == f.At(r, c);
      assert r in rows;
    }
  }

  // ----- where a pixel stands in the order

  /** How many rows come before row `r`: with interlacing those of the earlier passes, and those above it in its own. */
  function Rank(r: nat, h: nat, interlaced: bool): nat {
    if !interlaced then r
    else if r % 8 == 0 then r / 8
    else if r % 8 == 4 then (h + 7) / 8 + r / 8
    else if r % 4 == 2 then (h + 7) / 8 + (h + 3) / 8 + r / 4
    else (h + 7) / 8 + (h + 3) / 8 + (h + 1) / 4 + r / 2
  }

  lemma {:induction false} PassAt(r: nat, step: nat, h: nat, k: nat)
    requires step > 0
    ensures k < |PassRows(r, step, h)| <==> r + k * step < h
    ensures k < |PassRows(r, step, h)| ==> PassRows(r, step, h)[k] == r + k * step
    decreases h - r
  {
    if r < h {
      if k > 0 {
        PassAt(r + step, step, h, k - 1);
        assert (k - 1) * step + step == k * step;
      }
    } else {
      assert k * step >= 0;
    }
  }

  /** A pass has `n` rows if row number `n` of it would lie behind the last and the one before does not. */
  lemma PassLength(r: nat, step: nat, h: nat, n: nat)
    requires step > 0 && r + n * step >= h && (n > 0 ==> r + (n - 1) * step < h)
    ensures |PassRows(r, step, h)| == n
  {
    PassAt(r, step, h, n);
    if n > 0 { PassAt(r, step, h, n - 1); }
  }

  lemma PassLengths(h: nat)
    ensures |PassRows(0, 8, h)| == (h + 7) / 8 && |PassRows(4, 8, h)| == (h + 3) / 8
    ensures |PassRows(2, 4, h)| == (h + 1) / 4 && |PassRows(1, 2, h)| == h / 2 && |PassRows(0, 1, h)| == h
  {
    hide PassRows;
    PassLength(0, 8, h, (h + 7) / 8);
    PassLength(4, 8, h, (h + 3) / 8);
    PassLength(2, 4, h, (h + 1) / 4);
    PassLength(1, 2, h, h / 2);
    PassLength(0, 1, h, h);
  }

  lemma RankIs(r: nat, h: nat, interlaced: bool)
    requires r < h
    ensures |RowOrder(h, interlaced)| == h && Rank(r, h, interlaced) < h && RowOrder(h, interlaced)[Rank(r, h, interlaced)] == r
  {
    hide PassRows;
    PassLengths(h);
    Quotas(h);
    if !interlaced {
      PassAt(0, 1, h, r);
    } else if r % 8 == 0 {
      PassAt(0, 8, h, r / 8);
    } else if r % 8 == 4 {
      PassAt(4, 8, h, r / 8);
    } else if r % 4 == 2 {
      PassAt(2, 4, h, r / 4);
    } else {
      Odd(r);
      PassAt(1, 2, h, r / 2);
    }
  }

  lemma Quotas(h: nat)
    ensures (h + 7) / 8 + (h + 3) / 8 + (h + 1) / 4 + h / 2 == h
  {
    var q, m := h / 8, h % 8;
    var a, b, c := if m >= 1 then 1 else 0, if m >= 5 then 1 else 0, if m >= 7 then 2 else if m >= 3 then 1 else 0;
    DivUnique(h + 7, 8, q + a, m + 7 - 8 * a);
    DivUnique(h + 3, 8, q + b, m + 3 - 8 * b);
    DivUnique(h + 1, 4, 2 * q + c, m + 1 - 4 * c);
    DivUnique(h, 2, 4 * q + m / 2, m % 2);
  }

  lemma Odd(r: nat)
    requires r % 8 != 0 && r % 8 != 4 && r % 4 != 2
    ensures r == 1 + r / 2 * 2
  {
    var q, m := r / 8, r % 8;
    DivUnique(r, 4, 2 * q + m / 4, m % 4);
    DivUnique(r, 2, 4 * q + m / 2, m % 2);
  }

  lemma {:induction false} VisitAt(f: Frame, rows: seq<nat>, i: nat, c: nat)
    requires i < |rows| && c < f.w
    ensures i * f.w + c < |Visits(f, rows)| && Visits(f, rows)[i * f.w + c] == f.At(rows[i], c)
  {
    if i == 0 {
      RowAt(f, rows[0], 0, c);
    } else {
      VisitAt(f, rows[1..], i - 1, c);
      assert (i - 1) * f.w + f.w == i * f.w;
    }
  }

  lemma {:induction false} RowAt(f: Frame, row: nat, from: nat, c: nat)
    requires from <= c < f.w
    ensures RowFrom(f, row, from)[c - from] == f.At(row, c)
    decreases c - from
  {
    if from < c { RowAt(f, row, from + 1, c); }
  }

  /** Pixel (r, c) of the frame is number `Rank(r) * w + c` of the filling order. */
  lemma PlaceIs(f: Frame, r: nat, c: nat)
    requires r < f.h && c < f.w
    ensures var n := Rank(r, f.h, f.interlaced) * f.w + c; n < |AllVisits(f)| && AllVisits(f)[n] == f.At(r, c)
  {
    hide Rank, RowOrder, Visits;
    RankIs(r, f.h, f.interlaced);
    VisitAt(f, RowOrder(f.h, f.interlaced), Rank(r, f.h, f.interlaced), c);
  }

  // ----- the cursor

  /** The passes that follow when `parse` of them are left. */
  function Later(parse: nat, h: nat): seq<nat> {
    if parse == 0 then [] else PassRows(Pow2(parse) / 2, Pow2(parse), h) + Later(parse - 1, h)
  }

  /** The rows left to fill, the current one first. */
  function Left(row: nat, step: nat, parse: nat, h: nat): seq<nat>
    requires step > 0
  {
    PassRows(row, step, h) + Later(parse, h)
  }

  /** Filling starts with row 0, step 8 and three more passes, or with step 1 and none. */
  lemma LeftAtStart(h: nat, interlaced: bool)
    ensures RowOrder(h, interlaced) == if interlaced then Left(0, 8, 3, h) else Left(0, 1, 0, h)
  {
    hide PassRows;
    Pow2Values();
    assert Later(3, h) == PassRows(4, 8, h) + Later(2, h);
    assert Later(2, h) == PassRows(2, 4, h) + Later(1, h);
    assert Later(1, h) == PassRows(1, 2, h) + Later(0, h);
    assert PassRows(1, 2, h) + [] == PassRows(1, 2, h);
    assert PassRows(0, 1, h) + [] == PassRows(0, 1, h);
  }

  /** The pixels left to fill from column `c` of the first of `rows` on. */
  function Remaining(f: Frame, rows: seq<nat>, c: nat): seq<nat>
    requires c <= f.w
  {
    if rows == [] then [] else RowFrom(f, rows[0], c) + Visits(f, rows[1..])
  }

  /** One pixel is filled; at the end of a row the next row starts. */
  lemma RemainingStep(f: Frame, rows: seq<nat>, c: nat)
    requires rows != [] && c < f.w
    ensures Remaining(f, rows, c) != [] && Remaining(f, rows, c)[0] == f.At(rows[0], c)
    ensures Remaining(f, rows, c)[1..] == if c + 1 < f.w then Remaining(f, rows, c + 1) else Remaining(f, rows[1..], 0)
  {
    var head, tail := RowFrom(f, rows[0], c), Visits(f, rows[1..]);
    assert head == [f.At(rows[0], c)] + RowFrom(f, rows[0], c + 1);
    assert (head + tail)[1..] == RowFrom(f, rows[0], c + 1) + tail;
    if c + 1 == f.w {
      assert RowFrom(f, rows[0], c + 1) + tail == tail;
      assert rows[1..] == [] || tail == RowFrom(f, rows[1], 0) + Visits(f, rows[1..][1..]);
    }
  }

  lemma {:induction false} NoColumns(f: Frame, rows: seq<nat>)
    requires f.w == 0
    ensures Visits(f, rows) == []
  {
    if rows != [] { NoColumns(f, rows[1..]); }
  }
}
