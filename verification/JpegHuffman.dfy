/** The Huffman tables of the JPEG decoder: `stbi__build_huffman` and `stbi__build_fast_ac`. */
module JpegHuffman {
  import opened Bits
  import opened Canonical
  import opened JpegSpec

  const FAST_BITS := 9
  const NOT_FAST := 255

  // ----- the acceleration table

  /** The entry for the 9-bit word `c` (first bit most significant) from the first `n` symbols. */
  function FastIndex(ls: seq<nat>, n: nat, c: nat): nat
    requires n <= |ls|
  {
    if n == 0 then NOT_FAST
    else if ls[n - 1] <= FAST_BITS && Shr(c, FAST_BITS - ls[n - 1]) == Code(ls, n - 1) then n - 1
    else FastIndex(ls, n - 1, c)
  }

  /** Number 255 is both a symbol and the mark for "not accelerated": no short code may have it. */
  predicate NoClash(ls: seq<nat>) {
    |ls| <= 255 || ls[255] > FAST_BITS
  }

  lemma {:induction false} FastIndexHit(ls: seq<nat>, n: nat, c: nat)
    requires n <= |ls| <= 256 && FastIndex(ls, n, c) < NOT_FAST
    ensures var i := FastIndex(ls, n, c);
            i < n && ls[i] <= FAST_BITS && Shr(c, FAST_BITS - ls[i]) == Code(ls, i)
  {
    if !(ls[n - 1] <= FAST_BITS && Shr(c, FAST_BITS - ls[n - 1]) == Code(ls, n - 1)) { FastIndexHit(ls, n - 1, c); }
  }

  lemma {:induction false} FastIndexMiss(ls: seq<nat>, n: nat, c: nat, i: nat)
    requires n <= |ls| <= 256 && (n <= 255 || NoClash(ls)) && FastIndex(ls, n, c) >= NOT_FAST && i < n && ls[i] <= FAST_BITS
    ensures Shr(c, FAST_BITS - ls[i]) != Code(ls, i)
  {
    if i < n - 1 { FastIndexMiss(ls, n - 1, c, i); }
  }

  /** A code of at most 9 bits starts the stream exactly when it starts its first 9 bits. */
  lemma ShortMatch(ls: seq<nat>, i: nat, stream: nat)
    requires i < |ls| && 1 <= ls[i] <= FAST_BITS
    ensures Matches(ls, i, stream) <==> Shr(Top(stream, FAST_BITS), FAST_BITS - ls[i]) == Code(ls, i)
  {
    TopPrefix(stream, ls[i], FAST_BITS);
  }

  /** Fast hit: the symbol whose code starts the stream. */
  lemma FastFound(count: seq<nat>, stream: nat)
    requires Counts(count) && |Sizes(count)| <= 256 && FastIndex(Sizes(count), |Sizes(count)|, Top(stream, FAST_BITS)) < NOT_FAST
    ensures var i := FastIndex(Sizes(count), |Sizes(count)|, Top(stream, FAST_BITS));
            T81Decode(count, stream) == i < |Sizes(count)| && 1 <= Sizes(count)[i] <= FAST_BITS
  {
    hide HuffSize, T81Decode, Top, Shr, FastIndex;
    var ls := Sizes(count);
    var i := FastIndex(ls, |ls|, Top(stream, FAST_BITS));
    FastIndexHit(ls, |ls|, Top(stream, FAST_BITS));
    SizesBounded(count);
    ShortMatch(ls, i, stream);
    T81DecodeIs(count, stream, i);
  }

  lemma NoneFound(count: seq<nat>, stream: nat)
    requires Counts(count) && Edge(Sizes(count), 16) <= Top(stream, 16)
    ensures T81Decode(count, stream) == -1
  {
    hide HuffSize, Top, DecodeFrom;
    SizesBounded(count);
    T81DecodeMatches(count, stream);
    MatchIff(Sizes(count), 16, stream);
  }

  /** With 256 symbols and a short last code the table is wrong: on every stream that starts with that code
      the entry reads as "not accelerated", and the search, which starts at 10 bits, stops there, beyond the
      length of the code. */
  lemma ClashFails(count: seq<nat>, stream: nat)
    requires Counts(count) && |Sizes(count)| == 256 && !NoClash(Sizes(count)) && T81Decode(count, stream) == 255
    ensures FastIndex(Sizes(count), 256, Top(stream, FAST_BITS)) == NOT_FAST
    ensures Top(stream, 16) < Edge(Sizes(count), 10) && Sizes(count)[255] < 10
  {
    hide HuffSize, Top, DecodeFrom, Edge;
    var ls := Sizes(count);
    SizesBounded(count);
    T81DecodeMatches(count, stream);
    ShortMatch(ls, 255, stream);
    MatchInterval(ls, 255, stream);
    EdgeMono(ls, ls[255], 10);
  }

  /** The streams on which decoding with the tables gives what reading bit by bit gives. */
  predicate Sound(count: seq<nat>, stream: nat)
    requires Counts(count)
  {
    NoClash(Sizes(count)) || T81Decode(count, stream) != 255
  }

  /** Without a fast hit, a short code that matches is the last one of 256. */
  lemma MissedCode(count: seq<nat>, stream: nat, i: nat)
    requires Counts(count) && i < |Sizes(count)| <= 256 && Matches(Sizes(count), i, stream) && Sizes(count)[i] <= FAST_BITS
    requires FastIndex(Sizes(count), |Sizes(count)|, Top(stream, FAST_BITS)) >= NOT_FAST
    ensures i == 255 && !Sound(count, stream)
  {
    hide HuffSize, T81Decode, Top, Shr, First;
    var ls, c := Sizes(count), Top(stream, FAST_BITS);
    SizesBounded(count);
    ShortMatch(ls, i, stream);
    T81DecodeIs(count, stream, i);
    if NoClash(ls) || i < 255 {
      if NoClash(ls) {
        FastIndexMiss(ls, |ls|, c, i);
      } else if FastIndex(ls, 255, c) >= NOT_FAST {
        FastIndexMiss(ls, 255, c, i);
      } else {
        ShortMatch(ls, 255, stream);
        T81DecodeIs(count, stream, 255);
      }
    }
  }

  /** Codes in order are at least their numbers. */
  lemma {:induction false} CodeAtLeast(ls: seq<nat>, k: nat)
    requires k < |ls| && forall i | 0 < i < |ls| :: ls[i - 1] <= ls[i]
    ensures HuffCode(ls, k) >= k
  {
    if k > 0 {
      CodeAtLeast(ls, k - 1);
      Scale(1, Pow2(ls[k] - ls[k - 1]), HuffCode(ls, k - 1) + 1);
    }
  }

  /** A stream that starts with the last one of 256 codes, of at most 9 bits. */
  lemma ClashIndex(count: seq<nat>, stream: nat)
    requires Counts(count) && |Sizes(count)| == 256 && FitsWords(Sizes(count)) && !Sound(count, stream)
    ensures 0 <= Top(stream, 10) + Upto(count, 9) - First(Sizes(count), 10) < 256
    ensures Top(stream, 16) < Edge(Sizes(count), 10)
  {
    hide HuffSize, T81Decode, Top, First, Edge, HuffCode, Pow2, FastIndex;
    var ls := Sizes(count);
    var s := ls[255];
    ClashFails(count, stream);
    SizesBounded(count);
    LastLength(count, s);
    T81DecodeMatches(count, stream);
    AllSorted(count);
    CodeAtLeast(ls, 255);
    HuffCodeIsCode(count, 255);
    assert Past(ls, s) <= Pow2(s);
    TopPrefix(stream, s, 10);
    FewSpare(s);
    var t, p := Top(stream, 10), Pow2(10 - s);
    assert (Code(ls, 255) + 1) * p == Code(ls, 255) * p + p;
    assert First(ls, 10) == Shl(Past(ls, s), 10 - s);
  }

  lemma FewSpare(s: nat)
    requires 1 <= s <= FAST_BITS && 255 < Pow2(s)
    ensures Pow2(10 - s) <= 4
  {
    Pow2Values();
    if s < 8 { Pow2Mono(s, 7); }
    Pow2Mono(10 - s, 2);
  }

  /** When the last of 256 symbols has `s` bits there are no longer codes. */
  lemma LastLength(count: seq<nat>, s: nat)
    requires Counts(count) && |Sizes(count)| == 256 && Sizes(count)[255] == s && 1 <= s <= FAST_BITS
    ensures Upto(count, 9) == Upto(count, 10) == 256
    ensures Past(Sizes(count), s) == Code(Sizes(count), 255) + 1
    ensures First(Sizes(count), 10) == Shl(Past(Sizes(count), s), 10 - s)
  {
    hide HuffSize, First;
    SizeAt(count, 16, 255, s);
    UptoMono(count, s, 9);
    UptoMono(count, 9, 10);
    UptoMono(count, 10, 16);
    CodeIs(count, 255, s);
    TotalIs(count, s);
    FirstAfter(count, s, 10);
  }

  /** After the search for the length, `k` bits of the stream and the distance give the symbol number. */
  lemma SlowIndex(count: seq<nat>, stream: nat, k: nat)
    requires Counts(count) && |Sizes(count)| <= 256 && FitsWords(Sizes(count))
    requires FastIndex(Sizes(count), |Sizes(count)|, Top(stream, FAST_BITS)) >= NOT_FAST
    requires 10 <= k <= 16 && Top(stream, 16) < Edge(Sizes(count), k)
    requires forall l | 10 <= l < k :: Edge(Sizes(count), l) <= Top(stream, 16)
    ensures 0 <= Top(stream, k) + Upto(count, k - 1) - First(Sizes(count), k) < 256
    ensures Sound(count, stream) ==>
              var i := Top(stream, k) + Upto(count, k - 1) - First(Sizes(count), k);
              T81Decode(count, stream) == i < |Sizes(count)| && Sizes(count)[i] == k
    ensures !Sound(count, stream) ==> k == 10
  {
    hide HuffSize, T81Decode, Top, FastIndex, Edge, First, FitsWords;
    SizesBounded(count);
    if Sound(count, stream) {
      if k == 10 && Top(stream, 16) < Edge(Sizes(count), 9) {
        var i := BelowEdge(Sizes(count), 9, stream);
        MissedCode(count, stream, i);
      }
      var i := IntervalMatch(Sizes(count), k, stream);
      SizeAt(count, 16, i, k);
      CountSorted(count, i, k);
      T81DecodeIs(count, stream, i);
    } else {
      T81DecodeMatches(count, stream);
      ClashIndex(count, stream);
    }
  }

  // ----- construction

  /** While the symbols of `j` bits are gone through: whether number `k` is one more of them. */
  lemma RunIs(count: seq<nat>, j: nat, k: nat)
    requires Counts(count) && 1 <= j <= 16 && Upto(count, j - 1) <= k <= Upto(count, j)
    ensures k <= |Sizes(count)|
    ensures k < Upto(count, j) <==> k < |Sizes(count)| && Sizes(count)[k] == j
    ensures k < Upto(count, j) ==> Code(Sizes(count), k) == First(Sizes(count), j) + (k - Upto(count, j - 1))
  {
    hide HuffSize, First;
    UptoMono(count, j, 16);
    if k < |Sizes(count)| { SizeAt(count, 16, k, j); }
    if k < Upto(count, j) { CodeIs(count, k, j); }
  }

  lemma NextLength(count: seq<nat>, j: nat)
    requires Counts(count) && 1 <= j <= 16
    ensures Past(Sizes(count), j) == First(Sizes(count), j) + count[j - 1]
    ensures First(Sizes(count), j + 1) == 2 * Past(Sizes(count), j)
    ensures Upto(count, j) == Upto(count, j - 1) + count[j - 1]
  {
    hide HuffSize;
    TotalIs(count, j);
  }

  /** The values `x` of a word whose first bits are `c`. */
  lemma ShrRange(x: nat, n: nat, c: nat)
    ensures Shr(x, n) == c <==> Shl(c, n) <= x < Shl(c, n) + Pow2(n)
  {
    hide Shr, Low, Pow2;
    Split(x, n);
    LowBound(x, n);
    OneInterval(Low(x, n), Pow2(n), Shr(x, n), c);
  }

  lemma OneInterval(low: nat, p: nat, y: nat, c: nat)
    requires low < p
    ensures y == c <==> c * p <= low + p * y < c * p + p
  {
    assert (y + 1) * p == y * p + p && (c + 1) * p == c * p + p;
    if y < c { Scale(y + 1, c, p); }
    if y > c { Scale(c + 1, y, p); }
  }

  class Tables {
    const fast: array<nat>
    const code: array<nat>
    const values: array<nat>
    const size: array<nat>
    const maxcode: array<nat>
    const delta: array<int>
    ghost const Repr: set<object>

    constructor ()
      ensures Shape() && fresh(Repr)
    {
      fast := new nat[512](_ => 0);
      code := new nat[256](_ => 0);
      values := new nat[256](_ => 0);
      size := new nat[257](_ => 0);
      maxcode := new nat[18](_ => 0);
      var d := new int[17](_ => 0);
      delta := d;
      var o: object := d;
      Repr := {fast, code, values, size, maxcode, o};
    }

    ghost predicate Shape() {
      && Repr == {fast as object, code, values, size, maxcode, delta}
      && fast.Length == 512 && code.Length == 256 && values.Length == 256 && size.Length == 257
      && maxcode.Length == 18 && delta.Length == 17
      && fast != code && fast != values && fast != size && fast != maxcode && code != values && code != size
      && code != maxcode && values != size && values != maxcode && size != maxcode
      && delta !in {fast as object, code, values, size, maxcode}
    }

    ghost predicate TablesFor(count: seq<nat>)
      reads Repr
    {
      && Shape() && Counts(count) && |Sizes(count)| <= 256 && FitsWords(Sizes(count))
      && size[..|Sizes(count)|] == Sizes(count)
      && (forall k | 0 <= k < |Sizes(count)| :: code[k] == Code(Sizes(count), k) % 0x1_0000)
      && (forall j | 1 <= j <= 16 :: maxcode[j] == Edge(Sizes(count), j)) && maxcode[17] == 0xFFFF_FFFF
      && (forall j | 1 <= j <= 16 :: delta[j] == Upto(count, j - 1) - First(Sizes(count), j))
      && (forall c | 0 <= c < 512 :: fast[c] == FastIndex(Sizes(count), |Sizes(count)|, c))
    }

    /** The size list of the symbols. */
    static method FillSizes(size: array<nat>, count: seq<nat>) returns (k: nat)
      requires Counts(count) && size.Length == 257 && Upto(count, 16) <= 256
      modifies size
      ensures k == |Sizes(count)| && size[..k] == Sizes(count) && size[k] == 0
    {
      k := 0;
      var i := 0;
      while i < 16
        invariant i <= 16 && k == Upto(count, i) <= 256 && size[..k] == HuffSize(count, i)
      {
        UptoMono(count, i + 1, 16);
        var j := 0;
        while j < count[i]
          invariant j <= count[i] && k == Upto(count, i) + j
          invariant size[..k] == HuffSize(count, i) + seq(j, _ => i + 1)
        {
          size[k] := i + 1;
          k := k + 1;
          j := j + 1;
        }
        i := i + 1;
      }
      size[k] := 0;
    }

    /** The codes, and for every length the preshifted limit and the distance from code to symbol number. */
    static method AssignCodes(size: array<nat>, code: array<nat>, maxcode: array<nat>, delta: array<int>, ghost count: seq<nat>)
      returns (ok: bool)
      requires Counts(count) && size.Length == 257 && code.Length == 256 && maxcode.Length == 18 && delta.Length == 17
      requires size != code && size != maxcode && code != maxcode && delta !in {size as object, code, maxcode}
      requires |Sizes(count)| <= 256 && size[..|Sizes(count)|] == Sizes(count) && size[|Sizes(count)|] == 0
      modifies code, maxcode, delta
      ensures ok <==> FitsWords(Sizes(count))
      ensures ok ==> forall k | 0 <= k < |Sizes(count)| :: code[k] == Code(Sizes(count), k) % 0x1_0000
      ensures ok ==> forall j | 1 <= j <= 16 :: maxcode[j] == Edge(Sizes(count), j) && delta[j] == Upto(count, j - 1) - First(Sizes(count), j)
    {
      hide Sizes, HuffSize, Upto, First, Edge, Code, Pow2, Shl, FitsWords;
      ghost var ls := Sizes(count);
      ghost var n := |ls|;
      StartCodes(count);
      var c, k: nat, j := 0, 0, 1;
      while j <= 16
        invariant 1 <= j <= 17 && k == Upto(count, j - 1) && k <= n && c == First(ls, j)
        invariant forall i | 0 <= i < k :: code[i] == Code(ls, i) % 0x1_0000
        invariant forall l | 1 <= l < j :: Past(ls, l) <= Pow2(l)
        invariant forall l | 1 <= l < j :: maxcode[l] == Edge(ls, l)
        invariant forall l | 1 <= l < j :: delta[l] == Upto(count, l - 1) - First(ls, l)
      {
        delta[j] := k - c;
        NextLength(count, j);
        RunIs(count, j, k);
        RunIs(count, j, Upto(count, j));
        if size[k] == j {
          k, c := AssignRun(size, code, j, k, c, count);
          if c - 1 >= Pow2(j) {
            NotFits(ls, j);
            return false;
          }
        }
        maxcode[j] := Shl(c, 16 - j);
        EdgeIs(ls, j);
        PastFits(ls, j);
        c := c * 2;
        j := j + 1;
      }
      ok := true;
      AllFit(ls);
    }

    /** The acceleration table. */
    static method FillFast(fast: array<nat>, size: array<nat>, code: array<nat>, k: nat, ghost ls: seq<nat>)
      requires fast.Length == 512 && size.Length == 257 && code.Length == 256 && fast != size && fast != code
      requires k == |ls| <= 256 && FitsWords(ls) && size[..k] == ls && forall i | 0 <= i < |ls| :: 1 <= ls[i] <= 16
      requires forall i | 0 <= i < k :: code[i] == Code(ls, i) % 0x1_0000
      modifies fast
      ensures forall c | 0 <= c < 512 :: fast[c] == FastIndex(ls, |ls|, c)
    {
      hide FastIndex, Code, First, Pow2, Shl, Shr, FitsWords;
      forall c | 0 <= c < 512 { fast[c] := 255; }
      NoneFast(ls);
      var i := 0;
      while i < k
        invariant i <= k && forall c | 0 <= c < 512 :: fast[c] == FastIndex(ls, i, c)
      {
        assert size[i] == size[..k][i] == ls[i];
        var s := size[i];
        if s <= FAST_BITS {
          FillOne(fast, s, code[i], i, ls);
        }
        StepAll(ls, i, i + 1, if s <= FAST_BITS then FAST_BITS - s else 0);
        i := i + 1;
      }
    }

    static method FillOne(fast: array<nat>, s: nat, code: nat, i: nat, ghost ls: seq<nat>)
      requires fast.Length == 512 && i < |ls| <= 256 && ls[i] == s && 1 <= s <= FAST_BITS && FitsWords(ls)
      requires code == Code(ls, i) % 0x1_0000 && forall c | 0 <= c < 512 :: fast[c] == FastIndex(ls, i, c)
      modifies fast
      ensures forall c | 0 <= c < 512 :: fast[c] == if Shr(c, FAST_BITS - s) == Code(ls, i) then i else FastIndex(ls, i, c)
    {
      hide FastIndex, Code, First, Pow2, Shl, Shr, FitsWords;
      FastRange(ls, i);
      SmallCode(s);
      var d := FAST_BITS - s;
      var c := Shl(code, d);
      var m := Pow2(d);
      var j := 0;
      while j < m
        invariant j <= m
        invariant forall x | 0 <= x < 512 :: fast[x] == if c <= x < c + j then i else FastIndex(ls, i, x)
      {
        fast[c + j] := i % 256;
        j := j + 1;
      }
      forall x: nat ensures Shr(x, d) == Code(ls, i) <==> c <= x < c + m {
        ShrRange(x, d, Code(ls, i));
      }
    }

    /** `stbi__build_huffman`: succeeds exactly when the codes of every length fit, and then holds the tables
        of the code of Annex C. */
    method Build(count: seq<nat>) returns (ok: bool)
      requires Shape() && Counts(count) && Upto(count, 16) <= 256
      modifies fast, code, size, maxcode, delta
      ensures ok <==> FitsWords(Sizes(count))
      ensures ok ==> TablesFor(count)
    {
      hide Sizes, HuffSize, Upto, First, Code, FastIndex, Edge, FitsWords;
      StartCodes(count);
      SizesBounded(count);
      var k := FillSizes(size, count);
      ok := AssignCodes(size, code, maxcode, delta, count);
      if !ok {
        return;
      }
      maxcode[17] := 0xFFFF_FFFF;
      FillFast(fast, size, code, k, Sizes(count));
    }

    /** The symbols of `j` bits get consecutive codes. */
    static method AssignRun(size: array<nat>, code: array<nat>, j: nat, start: nat, first: nat, ghost count: seq<nat>) returns (k: nat, c: nat)
      requires Counts(count) && 1 <= j <= 16 && size.Length == 257 && code.Length == 256 && size != code
      requires |Sizes(count)| <= 256 && size[..|Sizes(count)|] == Sizes(count) && size[|Sizes(count)|] == 0
      requires start == Upto(count, j - 1) <= |Sizes(count)| && first == First(Sizes(count), j)
      requires forall i | 0 <= i < start :: code[i] == Code(Sizes(count), i) % 0x1_0000
      modifies code
      ensures k == Upto(count, j) <= |Sizes(count)| && c == Past(Sizes(count), j)
      ensures forall i | 0 <= i < k :: code[i] == Code(Sizes(count), i) % 0x1_0000
    {
      hide Sizes, HuffSize, Upto, First, Code;
      ghost var ls := Sizes(count);
      NextLength(count, j);
      k, c := start, first;
      RunIs(count, j, k);
      while size[k] == j
        invariant Upto(count, j - 1) <= k <= Upto(count, j) && k <= |ls| && c == First(ls, j) + (k - Upto(count, j - 1))
        invariant k < Upto(count, j) <==> size[k] == j
        invariant forall i | 0 <= i < k :: code[i] == Code(ls, i) % 0x1_0000
        decreases |ls| - k
      {
        RunIs(count, j, k);
        RunIs(count, j, k + 1);
        assert size[k] == ls[k];
        code[k] := c % 0x1_0000;
        k := k + 1;
        c := c + 1;
        assert k < |ls| ==> size[k] == size[..|ls|][k] == ls[k];
      }
    }
  }

  /** The words that start with a code that fits lie in the table. */
  lemma FastRange(ls: seq<nat>, i: nat)
    requires i < |ls| && 1 <= ls[i] <= FAST_BITS && FitsWords(ls)
    ensures Code(ls, i) < Pow2(ls[i]) && Shl(Code(ls, i), FAST_BITS - ls[i]) + Pow2(FAST_BITS - ls[i]) <= 512
  {
    hide First, Code, Past, Pow2;
    var s := ls[i];
    CodeInRange(ls, i);
    assert Past(ls, s) <= Pow2(s);
    Pow2Add(s, FAST_BITS - s);
    Pow2Values();
    LastStride(Code(ls, i), Pow2(s), Pow2(FAST_BITS - s));
  }

  lemma LastStride(c: nat, p: nat, q: nat)
    requires c < p
    ensures c * q + q <= p * q
  {
    Scale(c + 1, p, q);
    assert (c + 1) * q == c * q + q;
  }

  lemma NotFits(ls: seq<nat>, j: nat)
    requires 1 <= j <= 16 && Past(ls, j) > Pow2(j)
    ensures !FitsWords(ls)
  {
  }

  lemma EdgeIs(ls: seq<nat>, j: nat)
    requires 1 <= j <= 16
    ensures Edge(ls, j) == Shl(Past(ls, j), 16 - j)
  {
  }

  /** An unused length never has codes that do not fit. */
  lemma PastFits(ls: seq<nat>, j: nat)
    requires 1 <= j <= 16 && (j > 1 ==> Past(ls, j - 1) <= Pow2(j - 1))
    ensures Total(ls, j) == 0 ==> Past(ls, j) <= Pow2(j)
  {
  }

  lemma AllFit(ls: seq<nat>)
    requires forall l | 1 <= l < 17 :: Past(ls, l) <= Pow2(l)
    ensures FitsWords(ls)
  {
  }

  lemma NoneFast(ls: seq<nat>)
    ensures forall c: nat :: FastIndex(ls, 0, c) == 255
  {
  }

  lemma StepAll(ls: seq<nat>, i: nat, n: nat, d: nat)
    requires i < |ls| && n == i + 1 && (ls[i] <= FAST_BITS ==> d == FAST_BITS - ls[i])
    ensures ls[i] > FAST_BITS ==> forall c: nat :: FastIndex(ls, n, c) == FastIndex(ls, i, c)
    ensures ls[i] <= FAST_BITS ==>
              forall c: nat :: FastIndex(ls, n, c) == if Shr(c, d) == Code(ls, i) then i else FastIndex(ls, i, c)
  {
    hide Shr, Code;
    forall c: nat ensures FastIndex(ls, n, c) == if ls[i] <= FAST_BITS && Shr(c, d) == Code(ls, i) then i else FastIndex(ls, i, c) {
    }
  }

  lemma SmallCode(s: nat)
    requires s <= FAST_BITS
    ensures Pow2(s) <= 512
  {
    Pow2Mono(s, 9);
    Pow2Values();
  }

  lemma StartCodes(count: seq<nat>)
    requires Counts(count)
    ensures Upto(count, 0) == 0 && First(Sizes(count), 1) == 0 && |Sizes(count)| == Upto(count, 16)
  {
  }

  // ----- stbi__build_fast_ac

  /** The first 9 bits hold a code of `len` bits and then the `mag` bits of the magnitude. */
  lemma FastValue(stream: nat, len: nat, mag: nat)
    requires len + mag <= FAST_BITS
    ensures Shr(Low(Shl(Top(stream, FAST_BITS), len), FAST_BITS), FAST_BITS - mag) == Top(Shr(stream, len), mag)
  {
    hide Top, Shr, Low, Pow2;
    var m := FAST_BITS - len;
    var a, t := Top(stream, len), Top(Shr(stream, len), m);
    TopSplit(stream, len, m);
    TopBound(Shr(stream, len), m);
    Pow2Add(len, m);
    Carry(a, t, Pow2(m), Pow2(len));
    Join(t * Pow2(len), a, FAST_BITS);
    ShrShr(t * Pow2(len), len, m - mag);
    NoBits(0);
    assert t * Pow2(len) == 0 + Pow2(len) * t;
    Join(0, t, len);
    TopPrefix(Shr(stream, len), mag, m);
  }

  lemma Carry(a: nat, t: nat, p: nat, q: nat)
    requires t < p && q > 0
    ensures (a * p + t) * q == t * q + (q * p) * a && t * q < q * p
  {
    StrictScale(t, p, q);
    assert (a * p) * q == (q * p) * a;
  }

  /** The stream starts with a coefficient whose code and magnitude lie within the first 9 bits, and whose value
      fits in a byte. */
  ghost predicate Small(h: HuffTable, stream: nat)
    requires h.Ok()
  {
    var a := NextAc(h, stream);
    Sound(h.count, stream) && a.Coefficient? && a.used <= FAST_BITS && -128 <= a.value <= 127
  }

  /** What an entry of the table promises about a stream whose first 9 bits select it. */
  ghost predicate AcEntry(r: int, h: HuffTable, stream: nat)
    requires h.Ok()
  {
    && (r != 0 <==> Small(h, stream))
    && (r != 0 ==> r % 16 <= FAST_BITS && NextAc(h, stream) == Coefficient(r / 16 % 16, r / 256, r % 16))
  }

  ghost predicate FastAcFor(fac: seq<int>, h: HuffTable) {
    h.Ok() && |fac| == 512 && forall stream: nat | Top(stream, FAST_BITS) < 512 :: AcEntry(fac[Top(stream, FAST_BITS)], h, stream)
  }

  lemma Unpack(k: int, run: nat, len: nat)
    requires run < 16 && len < 16
    ensures var r := k * 256 + run * 16 + len; r / 16 % 16 == run && r / 256 == k && r % 16 == len
  {
  }

  /** What follows a fast hit. */
  lemma FastAc(h: HuffTable, stream: nat, fast: nat)
    requires h.Ok() && fast == FastIndex(Sizes(h.count), |Sizes(h.count)|, Top(stream, FAST_BITS)) < NOT_FAST
    ensures Sound(h.count, stream) && fast < |Sizes(h.count)|
    ensures NextValue(h, stream) == h.values[fast] && NextLen(h, stream) == Sizes(h.count)[fast] >= 1
  {
    hide Sizes, HuffSize, Upto, Top, FastIndex, T81Decode, HuffTable.Ok;
    TableOk(h);
    FastFound(h.count, stream);
  }

  /** No entry for a code without magnitude bits, nor where they reach behind the first 9 bits. */
  lemma EntryNone(h: HuffTable, stream: nat, fast: nat)
    requires h.Ok() && fast == FastIndex(Sizes(h.count), |Sizes(h.count)|, Top(stream, FAST_BITS)) < |Sizes(h.count)|
    requires fast < NOT_FAST && (h.values[fast] % 16 == 0 || Sizes(h.count)[fast] + h.values[fast] % 16 > FAST_BITS)
    ensures AcEntry(0, h, stream)
  {
    hide Sizes, HuffSize, Upto, Top, Shr, FastIndex, T81Decode, ExtendSign, HuffTable.Ok, Sound, NextValue, NextLen;
    FastAc(h, stream, fast);
  }

  /** Nor for a code that is not in the table of short codes. */
  lemma EntryMiss(h: HuffTable, stream: nat)
    requires h.Ok() && FastIndex(Sizes(h.count), |Sizes(h.count)|, Top(stream, FAST_BITS)) >= NOT_FAST
    ensures AcEntry(0, h, stream)
  {
    hide Sizes, HuffSize, Upto, Top, Shr, FastIndex, T81Decode, ExtendSign, HuffTable.Ok, Matches;
    TableOk(h);
    if Small(h, stream) {
      T81DecodeMatches(h.count, stream);
      MissedCode(h.count, stream, T81Decode(h.count, stream));
    }
  }

  /** A fast hit with room for the magnitude is that coefficient. */
  lemma EntryIs(h: HuffTable, stream: nat, fast: nat, len: nat, k: int)
    requires h.Ok() && fast == FastIndex(Sizes(h.count), |Sizes(h.count)|, Top(stream, FAST_BITS)) < |Sizes(h.count)|
    requires fast < NOT_FAST && len == Sizes(h.count)[fast] && h.values[fast] % 16 > 0 && len + h.values[fast] % 16 <= FAST_BITS
    requires k == ExtendSign(Shr(Low(Shl(Top(stream, FAST_BITS), len), FAST_BITS), FAST_BITS - h.values[fast] % 16), h.values[fast] % 16)
    ensures AcEntry(if -128 <= k <= 127 then k * 256 + h.values[fast] / 16 * 16 + (len + h.values[fast] % 16) else 0, h, stream)
  {
    hide Sizes, HuffSize, Upto, Top, Shr, Low, Shl, FastIndex, T81Decode, ExtendSign, HuffTable.Ok, Sound, NextValue, NextLen;
    TableOk(h);
    FastAc(h, stream, fast);
    FastValue(stream, len, h.values[fast] % 16);
    Unpack(k, h.values[fast] / 16, len + h.values[fast] % 16);
  }

  lemma TableOk(h: HuffTable)
    requires h.Ok()
    ensures Counts(h.count) && |Sizes(h.count)| <= 256 && |h.values| == 256 && forall i | 0 <= i < 256 :: h.values[i] < 256
  {
  }

  /** The entry of the word `i`. */
  method AcEntryOf(i: nat, t: Tables, ghost h: HuffTable) returns (r: int)
    requires i < 512 && h.Ok() && t.TablesFor(h.count) && t.values[..] == h.values
    ensures forall stream: nat | Top(stream, FAST_BITS) == i :: AcEntry(r, h, stream)
  {
    hide Sizes, HuffSize, Upto, Top, Shr, Low, Shl, FastIndex, T81Decode, HuffTable.Ok, NextAc, AcEntry, Edge, First, FitsWords;
    TableOk(h);
    var fast := t.fast[i];
    r := 0;
    if fast < 255 {
      FastBound(h.count, i);
      assert t.values[fast] == t.values[..][fast];
      var rs := t.values[fast];
      var run := rs / 16 % 16;
      var magbits := rs % 16;
      var len := t.size[fast];
      assert len == t.size[..|Sizes(h.count)|][fast] == Sizes(h.count)[fast];
      if magbits != 0 && len + magbits <= FAST_BITS {
        var k: int := Shr(Low(Shl(i, len), FAST_BITS), FAST_BITS - magbits);
        var m := Pow2(magbits - 1);
        if k < m {
          k := k - Pow2(magbits) + 1;
        }
        if -128 <= k <= 127 {
          r := k * 256 + run * 16 + (len + magbits);
        }
        forall stream: nat | Top(stream, FAST_BITS) == i ensures AcEntry(r, h, stream) {
          EntryIs(h, stream, fast, len, k);
        }
      } else {
        forall stream: nat | Top(stream, FAST_BITS) == i ensures AcEntry(r, h, stream) { EntryNone(h, stream, fast); }
      }
    } else {
      forall stream: nat | Top(stream, FAST_BITS) == i ensures AcEntry(r, h, stream) { EntryMiss(h, stream); }
    }
  }

  lemma FastBound(count: seq<nat>, c: nat)
    requires Counts(count) && |Sizes(count)| <= 256 && FastIndex(Sizes(count), |Sizes(count)|, c) < NOT_FAST
    ensures FastIndex(Sizes(count), |Sizes(count)|, c) < |Sizes(count)|
  {
    FastIndexHit(Sizes(count), |Sizes(count)|, c);
  }

  /** `stbi__build_fast_ac`: the nonzero entries are those of the words that hold a whole small coefficient, and
      give the run, the value and the length that reading the stream bit by bit gives, on every stream that
      starts with the word. */
  method BuildFastAc(fast_ac: array<int>, t: Tables, ghost h: HuffTable)
    requires fast_ac.Length == 512 && h.Ok() && t.TablesFor(h.count) && t.values[..] == h.values && fast_ac !in t.Repr
    modifies fast_ac
    ensures FastAcFor(fast_ac[..], h)
  {
    hide Tables.TablesFor, HuffTable.Ok, AcEntry, Top;
    var i := 0;
    while i < 512
      invariant i <= 512 && t.TablesFor(h.count) && t.values[..] == h.values
      invariant forall stream: nat | Top(stream, FAST_BITS) < i :: AcEntry(fast_ac[Top(stream, FAST_BITS)], h, stream)
    {
      var r := AcEntryOf(i, t, h);
      fast_ac[i] := r;
      assert unchanged(t.Repr);
      i := i + 1;
    }
  }
}
