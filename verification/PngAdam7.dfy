/** Adam7 interlacing: section 8.2 of the PNG specification (second edition), and `stbi__create_png_image`. */
module PngAdam7 {
  import opened Bits

  const XORIG: seq<nat> := [0, 4, 0, 2, 0, 1, 0]
  const YORIG: seq<nat> := [0, 0, 4, 0, 2, 0, 1]
  const XSPC: seq<nat> := [8, 8, 4, 4, 2, 2, 1]
  const YSPC: seq<nat> := [8, 8, 8, 4, 4, 2, 2]

  const WORD := 0x1_0000_0000

  /** The number of columns, or rows, of a pass, as 32-bit unsigned arithmetic computes it. */
  function PassSize(img: nat, orig: nat, spc: nat): nat
    requires spc > 0
  {
    (img - orig + spc - 1) % WORD / spc
  }

  predicate Grid(orig: nat, spc: nat) {
    spc in {1, 2, 4, 8} && orig < spc
  }

  /** Column `k` of the pass is in the image exactly when it is counted, even if the image is narrower than the
      origin of the pass and the subtraction wraps around. */
  lemma PassSizeIs(img: nat, orig: nat, spc: nat, k: nat)
    requires Grid(orig, spc) && img < WORD - 8
    ensures k < PassSize(img, orig, spc) <==> orig + k * spc < img
  {
    assert (img - orig + spc - 1) % WORD == img - orig + spc - 1;
    if spc == 1 {
    } else if spc == 2 {
    } else if spc == 4 {
    } else {
    }
  }

  lemma Grids(p: nat)
    requires p < 7
    ensures Grid(XORIG[p], XSPC[p]) && Grid(YORIG[p], YSPC[p])
  {
  }

  /** A pass and a place in its reduced image. */
  datatype Place = Place(p: nat, i: nat, j: nat)

  function X(w: Place): nat
    requires w.p < 7
  {
    w.i * XSPC[w.p] + XORIG[w.p]
  }

  function Y(w: Place): nat
    requires w.p < 7
  {
    w.j * YSPC[w.p] + YORIG[w.p]
  }

  predicate InPass(w: Place, width: nat, height: nat)
  {
    w.p < 7 && w.i < PassSize(width, XORIG[w.p], XSPC[w.p]) && w.j < PassSize(height, YORIG[w.p], YSPC[w.p])
  }

  /** The pass of the 8 by 8 pattern of the specification. */
  const PATTERN: seq<seq<nat>> :=
    [[0, 5, 3, 5, 1, 5, 3, 5],
     [6, 6, 6, 6, 6, 6, 6, 6],
     [4, 5, 4, 5, 4, 5, 4, 5],
     [6, 6, 6, 6, 6, 6, 6, 6],
     [2, 5, 3, 5, 2, 5, 3, 5],
     [6, 6, 6, 6, 6, 6, 6, 6],
     [4, 5, 4, 5, 4, 5, 4, 5],
     [6, 6, 6, 6, 6, 6, 6, 6]]

  function PassOf(x: nat, y: nat): nat {
    PATTERN[y % 8][x % 8]
  }

  /** Where the pixel comes from. */
  function Source(x: nat, y: nat): (w: Place)
    ensures w.p < 7
  {
    PatternRow(y % 8);
    var p := PassOf(x, y);
    Place(p, x / XSPC[p], y / YSPC[p])
  }

  lemma PatternRow(r: nat)
    requires r < 8
    ensures |PATTERN| == 8 && |PATTERN[r]| == 8 && forall c | 0 <= c < 8 :: PATTERN[r][c] < 7
  {
  }

  /** The pattern gives the pass whose grid the pixel lies on, in the row and column residues. */
  lemma PatternIs(a: nat, b: nat, p: nat)
    requires a < 8 && b < 8 && p < 7
    ensures PATTERN[b][a] == p <==> a % XSPC[p] == XORIG[p] && b % YSPC[p] == YORIG[p]
  {
  }

  lemma OnGrid(x: nat, orig: nat, spc: nat)
    requires Grid(orig, spc)
    ensures x % spc == orig ==> x == x / spc * spc + orig
    ensures (x * spc + orig) % spc == orig && (x * spc + orig) / spc == x
  {
    DivUnique(x * spc + orig, spc, x, orig);
  }

  lemma Residue(x: nat, spc: nat)
    requires spc in {1, 2, 4, 8}
    ensures x % 8 % spc == x % spc
  {
  }

  lemma PassIs(x: nat, y: nat, p: nat)
    requires p < 7
    ensures PassOf(x, y) == p <==> x % XSPC[p] == XORIG[p] && y % YSPC[p] == YORIG[p]
  {
    Grids(p);
    PatternIs(x % 8, y % 8, p);
    Residue(x, XSPC[p]);
    Residue(y, YSPC[p]);
  }

  /** Every pixel of the image comes from a place of some pass. */
  lemma EveryPixel(x: nat, y: nat, width: nat, height: nat)
    requires x < width < WORD - 8 && y < height < WORD - 8
    ensures InPass(Source(x, y), width, height) && X(Source(x, y)) == x && Y(Source(x, y)) == y
  {
    hide PATTERN, PassOf, PassSize, XORIG, YORIG, XSPC, YSPC;
    Lengths();
    PatternRow(y % 8);
    var w := Source(x, y);
    Grids(w.p);
    PassIs(x, y, w.p);
    OnGrid(x, XORIG[w.p], XSPC[w.p]);
    OnGrid(y, YORIG[w.p], YSPC[w.p]);
    PassSizeIs(width, XORIG[w.p], XSPC[w.p], w.i);
    PassSizeIs(height, YORIG[w.p], YSPC[w.p], w.j);
  }

  /** Every place of every pass goes to a pixel of the image, and no two go to the same. */
  lemma EveryPlace(w: Place, width: nat, height: nat)
    requires InPass(w, width, height) && width < WORD - 8 && height < WORD - 8
    ensures X(w) < width && Y(w) < height && Source(X(w), Y(w)) == w
  {
    hide PATTERN, PassOf, PassSize, XORIG, YORIG, XSPC, YSPC;
    Lengths();
    Grids(w.p);
    PassIs(X(w), Y(w), w.p);
    OnGrid(w.i, XORIG[w.p], XSPC[w.p]);
    OnGrid(w.j, YORIG[w.p], YSPC[w.p]);
    PassSizeIs(width, XORIG[w.p], XSPC[w.p], w.i);
    PassSizeIs(height, YORIG[w.p], YSPC[w.p], w.j);
  }

  lemma Lengths()
    ensures |XORIG| == 7 && |YORIG| == 7 && |XSPC| == 7 && |YSPC| == 7
  {
  }

  // ----- putting the reduced images together

  /** `w` comes before row `j`, column `i` of pass `p`. */
  predicate Earlier(w: Place, p: nat, j: nat, i: nat) {
    w.p < p || (w.p == p && (w.j < j || (w.j == j && w.i < i)))
  }

  /** The reduced images have the sizes of their passes; those without pixels are not there. */
  ghost predicate Reduced<T>(reduced: seq<seq<seq<T>>>, width: nat, height: nat) {
    |reduced| == 7 && forall w: Place | InPass(w, width, height) :: w.j < |reduced[w.p]| && w.i < |reduced[w.p][w.j]|
  }

  ghost predicate Copied<T>(final: array2<T>, reduced: seq<seq<seq<T>>>, written: multiset<(nat, nat)>, p: nat, j: nat, i: nat)
    requires Reduced(reduced, final.Length1, final.Length0) && final.Length1 < WORD - 8 && final.Length0 < WORD - 8
    reads final
  {
    forall x: nat, y: nat | x < final.Length1 && y < final.Length0 ::
      && InPass(Source(x, y), final.Length1, final.Length0)
      && written[(x, y)] == (if Earlier(Source(x, y), p, j, i) then 1 else 0)
      && (Earlier(Source(x, y), p, j, i) ==> final[y, x] == reduced[Source(x, y).p][Source(x, y).j][Source(x, y).i])
  }

  /** One pixel more. */
  method CopyPixel<T>(final: array2<T>, reduced: seq<seq<seq<T>>>, ghost written: multiset<(nat, nat)>, p: nat, j: nat, i: nat)
    returns (ghost written': multiset<(nat, nat)>)
    requires Reduced(reduced, final.Length1, final.Length0) && final.Length1 < WORD - 8 && final.Length0 < WORD - 8
    requires InPass(Place(p, i, j), final.Length1, final.Length0) && Copied(final, reduced, written, p, j, i)
    modifies final
    ensures Copied(final, reduced, written', p, j, i + 1)
  {
    hide PATTERN, PassOf, PassSize, XORIG, YORIG, XSPC, YSPC, Source, X, Y;
    Lengths();
    EveryPlace(Place(p, i, j), final.Length1, final.Length0);
    Coordinates(Place(p, i, j));
    var out_y := j * YSPC[p] + YORIG[p];
    var out_x := i * XSPC[p] + XORIG[p];
    forall x: nat, y: nat | x < final.Length1 && y < final.Length0 && Source(x, y) == Place(p, i, j) ensures x == out_x && y == out_y {
      EveryPixel(x, y, final.Length1, final.Length0);
    }
    final[out_y, out_x] := reduced[p][j][i];
    written' := written + multiset{(out_x, out_y)};
  }

  lemma Coordinates(w: Place)
    requires w.p < 7
    ensures X(w) == w.i * XSPC[w.p] + XORIG[w.p] && Y(w) == w.j * YSPC[w.p] + YORIG[w.p]
  {
  }

  lemma NextRow<T>(final: array2<T>, reduced: seq<seq<seq<T>>>, written: multiset<(nat, nat)>, p: nat, j: nat, x: nat)
    requires Reduced(reduced, final.Length1, final.Length0) && final.Length1 < WORD - 8 && final.Length0 < WORD - 8
    requires p < 7 && x >= PassSize(final.Length1, XORIG[p], XSPC[p]) && Copied(final, reduced, written, p, j, x)
    ensures Copied(final, reduced, written, p, j + 1, 0)
  {
    hide PATTERN, PassSize, Source;
  }

  lemma NextPass<T>(final: array2<T>, reduced: seq<seq<seq<T>>>, written: multiset<(nat, nat)>, p: nat, j: nat)
    requires Reduced(reduced, final.Length1, final.Length0) && final.Length1 < WORD - 8 && final.Length0 < WORD - 8
    requires p < 7 && Copied(final, reduced, written, p, j, 0)
    requires j >= PassSize(final.Length0, YORIG[p], YSPC[p]) || PassSize(final.Length1, XORIG[p], XSPC[p]) == 0
    ensures Copied(final, reduced, written, p + 1, 0, 0)
  {
    hide PATTERN, PassSize, Source;
  }

  /** The pixels of one pass. */
  method CopyPass<T>(final: array2<T>, reduced: seq<seq<seq<T>>>, ghost written: multiset<(nat, nat)>, p: nat)
    returns (ghost written': multiset<(nat, nat)>)
    requires Reduced(reduced, final.Length1, final.Length0) && final.Length1 < WORD - 8 && final.Length0 < WORD - 8
    requires p < 7 && Copied(final, reduced, written, p, 0, 0)
    modifies final
    ensures Copied(final, reduced, written', p + 1, 0, 0)
  {
    hide PATTERN, PassSize, XORIG, YORIG, XSPC, YSPC, Source, Copied, Reduced;
    Lengths();
    Grids(p);
    written' := written;
    var x := PassSize(final.Length1, XORIG[p], XSPC[p]);
    var y := PassSize(final.Length0, YORIG[p], YSPC[p]);
    var j := 0;
    if x != 0 && y != 0 {
      while j < y
        invariant j <= y && Copied(final, reduced, written', p, j, 0)
      {
        var i := 0;
        while i < x
          invariant i <= x && Copied(final, reduced, written', p, j, i)
        {
          written' := CopyPixel(final, reduced, written', p, j, i);
          i := i + 1;
        }
        NextRow(final, reduced, written', p, j, i);
        j := j + 1;
      }
    }
    NextPass(final, reduced, written', p, j);
  }

  /** `stbi__create_png_image` for interlaced images, with the reduced images decoded: every pixel of the image is
      written exactly once, with the pixel of the pass that the pattern of the specification gives it. */
  method Deinterlace<T>(final: array2<T>, reduced: seq<seq<seq<T>>>) returns (ghost written: multiset<(nat, nat)>)
    requires Reduced(reduced, final.Length1, final.Length0) && final.Length1 < WORD - 8 && final.Length0 < WORD - 8
    modifies final
    ensures forall x: nat, y: nat | x < final.Length1 && y < final.Length0 ::
              var w := Source(x, y);
              InPass(w, final.Length1, final.Length0) && written[(x, y)] == 1 && final[y, x] == reduced[w.p][w.j][w.i]
  {
    hide PATTERN, PassSize, XORIG, YORIG, XSPC, YSPC, Source, Reduced;
    written := multiset{};
    forall x: nat, y: nat | x < final.Length1 && y < final.Length0 ensures InPass(Source(x, y), final.Length1, final.Length0) {
      EveryPixel(x, y, final.Length1, final.Length0);
    }
    var p := 0;
    while p < 7
      invariant p <= 7 && Copied(final, reduced, written, p, 0, 0)
    {
      written := CopyPass(final, reduced, written, p);
      p := p + 1;
    }
  }
}
