/** How a GIF encoder writes an image: sections 15 and 22 and appendix F of GIF89a.  Strings are numbered by position, with no
    dictionary kept; the decoder finds them again. */
module GifEncode {
  import opened Bits
  import opened GifLzw
  import opened GifCursor
  import opened Gif

  // ----- codes

  /** What is written after a clear code: strings of symbols, their codes and the widths of these, and the width after them. */
  datatype Segment = Segment(texts: seq<seq<Byte>>, codes: seq<nat>, widths: seq<nat>, after: nat)

  /** The code stands for string `j`: it is a single symbol; or an earlier string and the first symbol after it, and these have the
      codes from 2^cs + 2 on, in order, up to 4095. */
  predicate Stands(cs: nat, texts: seq<seq<Byte>>, j: nat, code: nat)
    requires j < |texts| && forall i | 0 <= i < |texts| :: texts[i] != []
  {
    var k := code - (Pow2(cs) + 2);
    if code < Pow2(cs) then texts[j] == [code % 256]
    else 0 <= k < j && code < 4096 && texts[j] == texts[k] + [texts[k + 1][0]]
  }

  /** Codes in use when string `j` is written; the string before it has no code in the decoder yet. */
  function Known(cs: nat, j: nat): nat {
    var n := Pow2(cs) + 2 + if j == 0 then 0 else j - 1;
    if n < 4096 then n else 4096
  }

  /** Codes are one bit longer than symbols; when a code of `w` bits is in use they have more than `w` bits, but never more
      than 12. */
  predicate WidthAt(cs: nat, j: nat, w: nat) {
    && cs < w <= 12
    && (w == cs + 1 || Known(cs, j) >= Pow2(w - 1))
    && (w == 12 || Known(cs, j) < Pow2(w))
  }

  ghost predicate SegmentOk(cs: nat, s: Segment) {
    && |s.texts| == |s.codes| == |s.widths| < 8192 - Pow2(cs)
    && (forall i | 0 <= i < |s.texts| :: s.texts[i] != [])
    && (forall j | 0 <= j < |s.texts| :: Stands(cs, s.texts, j, s.codes[j]) && WidthAt(cs, j, s.widths[j]))
    && WidthAt(cs, |s.texts|, s.after)
  }

  /** The codes from number `j` on. */
  function CodesBits(s: Segment, j: nat): seq<bool>
    requires |s.codes| == |s.widths|
    decreases |s.codes| - j
  {
    if j >= |s.codes| then [] else DataBits(s.codes[j], s.widths[j]) + CodesBits(s, j + 1)
  }

  function Joined(texts: seq<seq<Byte>>, j: nat): seq<Byte>
    decreases |texts| - j
  {
    if j >= |texts| then [] else texts[j] + Joined(texts, j + 1)
  }

  ghost predicate AllOk(cs: nat, segments: seq<Segment>) {
    forall i | 0 <= i < |segments| :: SegmentOk(cs, segments[i])
  }

  /** A clear code before every segment, and the end code; `w` is the width of the next code. */
  ghost function StreamBits(cs: nat, segments: seq<Segment>, w: nat): seq<bool>
    requires AllOk(cs, segments)
  {
    if segments == [] then DataBits(Pow2(cs) + 1, w)
    else DataBits(Pow2(cs), w) + (CodesBits(segments[0], 0) + StreamBits(cs, segments[1..], segments[0].after))
  }

  function AllText(segments: seq<Segment>): seq<Byte> {
    if segments == [] then [] else Joined(segments[0].texts, 0) + AllText(segments[1..])
  }

  // ----- what the decoder knows

  function EntryAt(cs: nat, texts: seq<seq<Byte>>, i: nat): seq<Byte> {
    var k := i - (Pow2(cs) + 2);
    if i < Pow2(cs) then [i % 256] else if k < 0 || k + 1 >= |texts| || texts[k + 1] == [] then [] else texts[k] + [texts[k + 1][0]]
  }

  ghost function DictAt(cs: nat, texts: seq<seq<Byte>>, j: nat): (d: seq<seq<Byte>>)
    ensures |d| == Known(cs, j)
  {
    seq(Known(cs, j), (i: nat) => EntryAt(cs, texts, i))
  }

  ghost function StateAt(cs: nat, texts: seq<seq<Byte>>, j: nat): State
    requires j <= |texts|
  {
    State(true, DictAt(cs, texts, j), if j == 0 then [] else texts[j - 1])
  }

  lemma DictFirst(cs: nat, texts: seq<seq<Byte>>)
    requires cs <= 11
    ensures DictAt(cs, texts, 0) == DictAt(cs, texts, 1) == Roots(cs)
  {
    hide Pow2;
    SmallAvail(cs);
  }

  lemma DictNext(cs: nat, texts: seq<seq<Byte>>, j: nat)
    requires cs <= 11 && 1 <= j < |texts| && texts[j] != []
    ensures Learn(DictAt(cs, texts, j), texts[j - 1] + [texts[j][0]]) == DictAt(cs, texts, j + 1)
  {
    hide Pow2;
    SmallAvail(cs);
  }

  /** One code. */
  lemma CodeBack(cs: nat, s: Segment, j: nat)
    requires cs <= 11 && SegmentOk(cs, s) && j < |s.texts|
    ensures DecodeCode(cs, StateAt(cs, s.texts, j), s.codes[j]) == Emit(s.texts[j], StateAt(cs, s.texts, j + 1))
    ensures s.codes[j] != Pow2(cs)
  {
    hide DictAt, Pow2, WidthAt, Roots, Learn, EntryAt;
    SmallAvail(cs);
    DictFirst(cs, s.texts);
    assert Stands(cs, s.texts, j, s.codes[j]);
    EntryIs(cs, s, j);
    if j > 0 { DictNext(cs, s.texts, j); }
  }

  /** Either the code is that of an entry known, or it is the next one to be known. */
  lemma EntryIs(cs: nat, s: Segment, j: nat)
    requires cs <= 11 && SegmentOk(cs, s) && j < |s.texts|
    ensures var d, code := DictAt(cs, s.texts, j), s.codes[j];
            if code < |d| then d[code] == s.texts[j] else j > 0 && code == |d| && s.texts[j] == s.texts[j - 1] + [s.texts[j - 1][0]]
  {
    hide Pow2, WidthAt;
    SmallAvail(cs);
    assert Stands(cs, s.texts, j, s.codes[j]);
  }

  /** The code is read with its width. */
  lemma CodeRead(cs: nat, code: nat, j: nat, w: nat, more: seq<bool>, rest: nat)
    requires WidthAt(cs, j, w) && code < Pow2(w)
    ensures Width(cs, Known(cs, j)) == w
    ensures var stream := Cat(DataBits(code, w) + more, rest); Low(stream, w) == code && Shr(stream, w) == Cat(more, rest)
  {
    hide Cat, DataBits, Low, Shr, WidthFrom, Known;
    WidthIs(cs, Known(cs, j), w);
    CatCat(DataBits(code, w), more, rest);
    CatData(code, w, Cat(more, rest));
  }

  lemma CodeFits(cs: nat, s: Segment, j: nat)
    requires cs <= 11 && SegmentOk(cs, s) && j < |s.texts|
    ensures s.codes[j] < Pow2(s.widths[j])
  {
    hide DictAt;
    EntryIs(cs, s, j);
    assert WidthAt(cs, j, s.widths[j]);
    Pow2Values();
  }

  // ----- decoding

  /** Decoding the `n` first bits of a stream gives the text and ends well, with no overrun of the table. */
  ghost predicate Gives(cs: nat, stream: nat, n: nat, st: State, count: nat, text: seq<Byte>)
    requires cs <= 11
  {
    Decode(cs, stream, n, st) == (text, Finished) && Overruns(cs, stream, n, st, count, TableLimit(cs)) == Never
  }

  /** One code before more of them. */
  lemma GivesMore(cs: nat, stream: nat, w: nat, n: nat, st: State, count: nat, text: seq<Byte>)
    requires cs <= 11 && Width(cs, |st.dict|) == w && DecodeCode(cs, st, Low(stream, w)).Emit?
    requires Low(stream, w) == Pow2(cs) || count + 1 < TableLimit(cs)
    requires Gives(cs, Shr(stream, w), n, DecodeCode(cs, st, Low(stream, w)).next, if Low(stream, w) == Pow2(cs) then 0 else count + 1, text)
    ensures Gives(cs, stream, w + n, st, count, DecodeCode(cs, st, Low(stream, w)).text + text)
  {
    hide DecodeCode, Low, Shr, WidthFrom, TableLimit, Pow2;
  }

  lemma {:induction false} TextsBack(cs: nat, s: Segment, j: nat, rest: nat, n: nat, text: seq<Byte>)
    requires cs <= 11 && SegmentOk(cs, s) && j <= |s.texts|
    requires Gives(cs, rest, n, StateAt(cs, s.texts, |s.texts|), |s.texts|, text)
    ensures Gives(cs, Cat(CodesBits(s, j), rest), |CodesBits(s, j)| + n, StateAt(cs, s.texts, j), j, Joined(s.texts, j) + text)
    decreases |s.texts| - j
  {
    hide Gives, DictAt, DecodeCode, Cat, DataBits, Low, Shr, WidthFrom, Known, Stands, WidthAt, Pow2;
    if j == |s.texts| {
      NoBits(rest);
      EmptyCat(rest);
      assert [] + text == text;
    } else {
      var more := CodesBits(s, j + 1);
      TextsBack(cs, s, j + 1, rest, n, text);
      CodeBack(cs, s, j);
      CodeFits(cs, s, j);
      assert WidthAt(cs, j, s.widths[j]);
      CodeRead(cs, s.codes[j], j, s.widths[j], more, rest);
      GivesMore(cs, Cat(CodesBits(s, j), rest), s.widths[j], |more| + n, StateAt(cs, s.texts, j), j, Joined(s.texts, j + 1) + text);
      assert s.texts[j] + (Joined(s.texts, j + 1) + text) == Joined(s.texts, j) + text;
    }
  }

  lemma EmptyCat(rest: nat)
    ensures Cat([], rest) == rest
  {
  }

  /** The end code. */
  lemma EndBack(cs: nat, j: nat, w: nat, rest: nat, n: nat, st: State, count: nat)
    requires 2 <= cs <= 11 && WidthAt(cs, j, w) && |st.dict| == Known(cs, j)
    ensures Gives(cs, Cat(DataBits(Pow2(cs) + 1, w), rest), w + n, st, count, [])
  {
    hide Cat, DataBits, Low, Shr, WidthFrom, Known, TableLimit;
    EndFits(cs, w);
    assert DataBits(Pow2(cs) + 1, w) + [] == DataBits(Pow2(cs) + 1, w);
    CodeRead(cs, Pow2(cs) + 1, j, w, [], rest);
  }

  lemma EndFits(cs: nat, w: nat)
    requires cs < w && cs >= 1
    ensures Pow2(cs) + 1 < Pow2(w)
  {
    Pow2Mono(cs + 1, w);
    Pow2Mono(1, cs);
    assert Pow2(1) == 2;
  }

  lemma {:induction false} StreamBack(cs: nat, segments: seq<Segment>, j: nat, w: nat, rest: nat, n: nat, st: State, count: nat)
    requires 2 <= cs <= 11 && AllOk(cs, segments) && WidthAt(cs, j, w) && |st.dict| == Known(cs, j)
    ensures Gives(cs, Cat(StreamBits(cs, segments, w), rest), |StreamBits(cs, segments, w)| + n, st, count, AllText(segments))
    decreases |segments|
  {
    hide Gives, DictAt, DecodeCode, Cat, DataBits, Low, Shr, WidthFrom, Known, WidthAt, Pow2, CodesBits, SegmentOk, Roots, Joined;
    if segments == [] {
      EndBack(cs, j, w, rest, n, st, count);
    } else {
      var s, later := segments[0], segments[1..];
      var more := StreamBits(cs, later, s.after);
      SegmentAfter(cs, s);
      StreamBack(cs, later, |s.texts|, s.after, rest, n, StateAt(cs, s.texts, |s.texts|), |s.texts|);
      TextsBack(cs, s, 0, Cat(more, rest), |more| + n, AllText(later));
      CatCat(CodesBits(s, 0), more, rest);
      ClearBack(cs, j, w, CodesBits(s, 0) + more, rest, |CodesBits(s, 0)| + |more| + n, st, count, AllText(segments), s.texts);
    }
  }

  lemma SegmentAfter(cs: nat, s: Segment)
    requires SegmentOk(cs, s)
    ensures WidthAt(cs, |s.texts|, s.after) && |s.codes| == |s.widths|
  {
  }

  /** A clear code. */
  lemma ClearBack(cs: nat, j: nat, w: nat, more: seq<bool>, rest: nat, n: nat, st: State, count: nat, text: seq<Byte>, texts: seq<seq<Byte>>)
    requires 2 <= cs <= 11 && WidthAt(cs, j, w) && |st.dict| == Known(cs, j)
    requires Gives(cs, Cat(more, rest), n, StateAt(cs, texts, 0), 0, text)
    ensures Gives(cs, Cat(DataBits(Pow2(cs), w) + more, rest), w + n, st, count, text)
  {
    hide Gives, Cat, DataBits, Low, Shr, WidthFrom, Known, Roots, DictAt;
    EndFits(cs, w);
    DictFirst(cs, texts);
    CodeRead(cs, Pow2(cs), j, w, more, rest);
    GivesMore(cs, Cat(DataBits(Pow2(cs), w) + more, rest), w, n, st, count, text);
    assert [] + text == text;
  }

  // ----- data sub-blocks

  predicate ChunksOk(chunks: seq<seq<Byte>>) {
    forall i | 0 <= i < |chunks| :: 1 <= |chunks[i]| <= 255
  }

  /** Every chunk behind its length, then a zero. */
  function SubBlocks(chunks: seq<seq<Byte>>): seq<Byte>
    requires ChunksOk(chunks)
  {
    if chunks == [] then [0] else [|chunks[0]| as Byte] + chunks[0] + SubBlocks(chunks[1..])
  }

  function Flat(chunks: seq<seq<Byte>>): seq<Byte> {
    if chunks == [] then [] else chunks[0] + Flat(chunks[1..])
  }

  /** `bytes` stand in the input at `p`. */
  predicate StandsAt(input: seq<Byte>, p: nat, bytes: seq<Byte>) {
    p + |bytes| <= |input| && input[p..p + |bytes|] == bytes
  }

  lemma {:induction false} ChunkBack(input: seq<Byte>, p: nat, len: nat)
    requires p + len <= |input|
    ensures Payload(input, p, len) == input[p..p + len] + Payload(input, p + len, 0)
    decreases len
  {
    if len > 0 {
      ChunkBack(input, p + 1, len - 1);
      assert input[p..p + len] == [input[p]] + input[p + 1..p + len];
    } else {
      assert input[p..p + len] == [];
    }
  }

  lemma PartAt(input: seq<Byte>, p: nat, n: nat, i: nat, j: nat)
    requires p + n <= |input| && i <= j <= n
    ensures input[p + i..p + j] == input[p..p + n][i..j]
  {
    var whole, part := input[p..p + n], input[p + i..p + j];
    assert |whole[i..j]| == j - i == |part|;
    forall k | 0 <= k < j - i ensures whole[i..j][k] == part[k] { assert whole[i + k] == input[p + i + k]; }
  }

  lemma {:induction false} SubBlocksBack(input: seq<Byte>, p: nat, chunks: seq<seq<Byte>>)
    requires ChunksOk(chunks) && StandsAt(input, p, SubBlocks(chunks))
    ensures Payload(input, p, 0) == Flat(chunks)
    decreases |chunks|
  {
    hide Payload;
    var all := SubBlocks(chunks);
    assert input[p] == all[0] by { assert input[p..p + |all|][0] == input[p]; }
    PayloadStep(input, p, 0);
    if chunks != [] {
      var c, more := chunks[0], SubBlocks(chunks[1..]);
      var q := p + 1 + |c|;
      assert all[1..1 + |c|] == c && all[1 + |c|..] == more;
      PartAt(input, p, |all|, 1, 1 + |c|);
      PartAt(input, p, |all|, 1 + |c|, |all|);
      ChunkBack(input, p + 1, |c|);
      SubBlocksBack(input, q, chunks[1..]);
    }
  }

  // ----- the image

  /** The data show the text that was written into them. */
  lemma TextShown(cs: nat, data: seq<Byte>, segments: seq<Segment>, later: nat, verdict: Verdict, symbols: seq<Byte>)
    requires 2 <= cs <= 11 && AllOk(cs, segments) && |StreamBits(cs, segments, cs + 1)| <= 8 * |data|
    requires BytesValue(data) == Cat(StreamBits(cs, segments, cs + 1), later)
    requires Shows(cs, data, verdict, symbols)
    ensures verdict == Shown && symbols == AllText(segments)
  {
    hide Decode, Overruns, TableLimit, Cat, StreamBits, AllOk, Roots, AllText;
    FirstWidthAt(cs);
    StreamBack(cs, segments, 0, cs + 1, later, 8 * |data| - |StreamBits(cs, segments, cs + 1)|, Start(cs), 0);
  }

  lemma FirstWidthAt(cs: nat)
    requires 2 <= cs <= 11
    ensures WidthAt(cs, 0, cs + 1) && |Roots(cs)| == Known(cs, 0)
  {
    SmallAvail(cs);
    EndFits(cs, cs + 1);
    Pow2Mono(2, cs);
    assert Pow2(2) == 4;
  }

  /** A frame that was written is shown: every pixel has the colour of its symbol, rows in the order of the interlace. */
  method RasterRoundTrip(raster: Raster, input: seq<Byte>, start: nat,
                         ghost segments: seq<Segment>, ghost chunks: seq<seq<Byte>>, ghost later: nat)
    returns (verdict: Verdict)
    requires raster.CursorValid() && raster.PaintValid() && raster.codes.Length == 8192 && raster.emitted == []
    requires start < |input| && 2 <= input[start] <= 11 && AllOk(input[start], segments)
    requires ChunksOk(chunks) && StandsAt(input, start + 1, SubBlocks(chunks))
    requires BytesValue(Flat(chunks)) == Cat(StreamBits(input[start], segments, input[start] + 1), later)
    requires |StreamBits(input[start], segments, input[start] + 1)| <= 8 * |Flat(chunks)|
    modifies raster, raster.out, raster.history, raster.codes
    ensures verdict == Shown && Picture(raster.out[..], raster.canvas, raster.color_table, raster.f, AllText(segments))
  {
    hide raster.CursorValid, raster.PaintValid, Shows, Picture, AllOk, StreamBits, Cat, SubBlocks, Payload, BytesValue, AllText;
    SubBlocksBack(input, start + 1, chunks);
    verdict := raster.ProcessRaster(input, start);
    TextShown(input[start], Flat(chunks), segments, later, verdict, raster.emitted);
  }

  // ----- any symbols can be written

  lemma {:induction false} Writable(cs: nat, symbols: seq<Byte>) returns (segments: seq<Segment>)
    requires 2 <= cs <= 8 && forall i | 0 <= i < |symbols| :: symbols[i] < Pow2(cs)
    ensures AllOk(cs, segments) && AllText(segments) == symbols
    decreases |symbols|
  {
    hide SegmentOk, Joined, Pow2;
    if symbols == [] {
      segments := [];
    } else {
      var more := Writable(cs, symbols[1..]);
      var s := OneSymbol(cs, symbols[0]);
      segments := [s] + more;
      assert segments[1..] == more;
    }
  }

  lemma OneSymbol(cs: nat, symbol: Byte) returns (s: Segment)
    requires 2 <= cs <= 8 && symbol < Pow2(cs)
    ensures SegmentOk(cs, s) && Joined(s.texts, 0) == [symbol]
  {
    hide Pow2;
    s := Segment([[symbol]], [symbol], [cs + 1], cs + 1);
    FirstWidthAt(cs);
    SmallAvail(cs);
    assert Joined(s.texts, 0) == [symbol] + Joined(s.texts, 1);
    assert Stands(cs, s.texts, 0, symbol) && WidthAt(cs, 1, cs + 1);
  }
}
