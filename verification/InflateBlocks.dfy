/** The steps of the inflate decoder on blocks and whole streams, with the same three kinds of predicates as
    `InflateSteps`. */
module InflateBlocks {
  import opened Bits
  import opened Canonical
  import opened ZHuffman
  import opened Deflate
  import opened InflateSteps

  // ----- stored blocks

  lemma NoBytes(a: Reader)
    ensures Over(a, BytesBits([]), a)
  {
  }

  lemma LowByte(x: nat)
    ensures Low(x, 8) < 256
  {
    LowBound(x, 8);
    Pow2Values();
  }

  lemma TakeByte(a: Reader, h: seq<Byte>, b: Reader, x: Byte, c: Reader)
    requires Over(a, BytesBits(h), b) && x == Low(b.stream, 8) && c.stream == Shr(b.stream, 8)
    requires c.avail >= b.avail - 8 && (b.avail >= 33 ==> c.avail == b.avail - 8) && (c.bits - b.bits) % 8 == 0
    ensures Over(a, BytesBits(h + [x]), c)
  {
    hide Low, Shr, DataBits, BytesBits;
    TakeData(b, c, x, 8);
    OverTwice(a, BytesBits(h), b, DataBits(x, 8), c);
    BytesBitsSnoc(h, x);
  }

  /** With an empty buffer the next byte of the input, or 0 behind its end, is the next byte of the stream. */
  lemma NextByte(code_buffer: nat, unread: seq<Byte>)
    requires code_buffer < Pow2(0)
    ensures var b := if unread == [] then 0 else unread[0];
            var rest := if unread == [] then [] else unread[1..];
            b == Low(Pending(code_buffer, 0, unread), 8) && Pending(code_buffer, 0, rest) == Shr(Pending(code_buffer, 0, unread), 8)
  {
    Pow2Values();
    if unread == [] {
      Join(0, 0, 8);
    } else {
      Join(unread[0], BytesValue(unread[1..]), 8);
    }
  }

  /** A stored block was read and its data appended to the output. */
  ghost predicate StoredRead(a: Reader, s: Sink, pad: seq<bool>, data: seq<Byte>, b: Reader, t: Sink) {
    && |data| < 0x1_0000 && Over(a, StoredBits(pad, data), b)
    && s.Holds(|s.output + data|) && t == s.Holding(s.output + data)
  }

  lemma SkipPad(a: Reader, wantPad: seq<bool>, pad: seq<bool>, want: seq<Byte>, later: nat, b: Reader)
    requires |want| < 0x1_0000 && |pad| == |wantPad| && Over(a, pad, b) && Ahead(a, StoredBits(wantPad, want), later)
    ensures pad == wantPad && Ahead(b, DataBits(|want|, 16) + DataBits(0xFFFF - |want|, 16) + BytesBits(want), later)
  {
    hide Cat, DataBits, BytesBits, Over, Ahead;
    var y := DataBits(|want|, 16) + DataBits(0xFFFF - |want|, 16) + BytesBits(want);
    AheadPart(a, wantPad, y, later);
    SameBits2(a, pad, b, wantPad, Cat(y, later));
    AheadAfter(a, wantPad, b, y, later);
  }

  lemma SameBits2(a: Reader, x: seq<bool>, b: Reader, y: seq<bool>, later: nat)
    requires |x| == |y| && Over(a, x, b) && Ahead(a, y, later)
    ensures x == y
  {
    CatSame(x, b.stream, y, later);
  }

  lemma WantStored(a: Reader, want: seq<Byte>, later: nat, len: nat, nlen: nat, b: Reader)
    requires |want| < 0x1_0000 && len < 0x1_0000 && nlen < 0x1_0000
    requires Over(a, DataBits(len + 0x1_0000 * nlen, 32), b)
    requires Ahead(a, DataBits(|want|, 16) + DataBits(0xFFFF - |want|, 16) + BytesBits(want), later)
    ensures len == |want| && nlen == 0xFFFF - |want| && Ahead(b, BytesBits(want), later)
  {
    hide DataBits, BytesBits, Over, Ahead, Pow2;
    var x := |want| + 0x1_0000 * (0xFFFF - |want|);
    Pow2Values();
    DataSplit(|want|, 0xFFFF - |want|, 16, 16);
    Pow2Add(16, 16);
    WantData(a, len + 0x1_0000 * nlen, b, x, 32, BytesBits(want), later);
  }

  lemma OverBytes(a: Reader, input: seq<Byte>, zpos: nat, len: nat, code_buffer: nat, b: Reader)
    requires zpos + len <= |input| && code_buffer < Pow2(0)
    requires a == Reader(Pending(code_buffer, 0, input[zpos..]), 8 * (|input| - zpos), 0)
    requires b == Reader(Pending(code_buffer, 0, input[zpos + len..]), 8 * (|input| - zpos - len), 0)
    ensures Over(a, BytesBits(input[zpos..zpos + len]), b)
  {
    var unread := input[zpos..];
    assert unread[..len] == input[zpos..zpos + len] && unread[len..] == input[zpos + len..];
    BytesCatPart(unread, len);
  }

  lemma StoredForm(pad: seq<bool>, data: seq<Byte>)
    requires |data| < 0x1_0000
    ensures pad + DataBits(|data| + 0x1_0000 * (0xFFFF - |data|), 32) + BytesBits(data) == StoredBits(pad, data)
  {
    hide DataBits, BytesBits, Pow2;
    Pow2Values();
    DataSplit(|data|, 0xFFFF - |data|, 16, 16);
  }

  lemma WantBytes(a: Reader, code_buffer: nat, unread: seq<Byte>, want: seq<Byte>, later: nat, len: nat)
    requires Ahead(a, BytesBits(want), later) && len == |want|
    requires a == Reader(Pending(code_buffer, 0, unread), 8 * |unread|, 0) && code_buffer < Pow2(0)
    ensures len <= |unread| && unread[..len] == want
  {
    hide BytesValue, BytesBits, Cat;
    assert a.stream == BytesValue(unread);
    BytesPrefix(unread, want, later);
  }

  // ----- blocks

  /** How a stream or a block ends.  Unmodelled: a dynamic block gives the all-zero code to a length symbol
      without a meaning, so that the loop over its symbols need not end (`Inflate.ZBuf.NoProgress`). */
  datatype Outcome = Done | Corrupt | Unmodelled

  ghost predicate Endless(b: Block) {
    b.Dynamic? && b.header.Ok() && !ZeroProduces(b.header.Ll())
  }

  lemma FixedSizes()
    ensures |FIXED_LENGTHS| == 288 && |FIXED_DISTANCES| == 32 && ZeroProduces(FIXED_LENGTHS)
    ensures HasCode(FIXED_LENGTHS, END_OF_BLOCK)
  {
    forall i: nat | 286 <= i < |FIXED_LENGTHS| ensures !Matches(FIXED_LENGTHS, i, 0) {
      TopZero(8);
      CountMono(FIXED_LENGTHS, 0, i, 8);
    }
  }

  ghost predicate DynamicRead(a: Reader, s: Sink, h: Header, got: seq<Token>, b: Reader, t: Sink) {
    && DynamicShaped(h, got) && Over(a, h.Encoded() + TokensBits(got, h.Ll(), h.Dl()), b)
    && |s.output| <= |t.output| && s.Holds(|t.output|) && t == s.Holding(t.output)
    && (AllDefined(got) ==> AllLegal(s.output, got))
    && (AllLegal(s.output, got) ==> t.output == ExpandTokens(s.output, got))
  }

  ghost predicate DynamicAhead(a: Reader, s: Sink, h: Header, want: seq<Token>, later: nat) {
    DynamicShaped(h, want) && AllLegal(s.output, want) && Ahead(a, h.Encoded() + TokensBits(want, h.Ll(), h.Dl()), later)
  }

  ghost predicate DynamicDue(s: Sink, h: Header, want: seq<Token>, st: Outcome, h': Header, got: seq<Token>) {
    && !st.Unmodelled? && TokensDue(s, want, st.Done?, got) && (st.Done? ==> h' == h)
  }

  lemma HeaderAhead(a: Reader, s: Sink, h: Header, want: seq<Token>, later: nat) returns (rest: nat)
    requires DynamicAhead(a, s, h, want, later)
    ensures Ahead(a, h.Encoded(), rest)
  {
    hide Ahead, Cat, TokensBits, Header.Encoded;
    AheadPart(a, h.Encoded(), TokensBits(want, h.Ll(), h.Dl()), later);
    rest := Cat(TokensBits(want, h.Ll(), h.Dl()), later);
  }

  lemma TokensComeNext(a: Reader, s: Sink, h: Header, want: seq<Token>, later: nat, b: Reader)
    requires DynamicAhead(a, s, h, want, later) && Over(a, h.Encoded(), b)
    ensures TokensAhead(h.Ll(), h.Dl(), b, s, want, later)
  {
    hide Ahead, Over, TokensBits, Header.Encoded;
    AheadAfter(a, h.Encoded(), b, TokensBits(want, h.Ll(), h.Dl()), later);
  }

  lemma DynamicWas(a: Reader, s: Sink, h: Header, got: seq<Token>, b: Reader, c: Reader, t: Sink)
    requires h.Ok() && ZeroProduces(h.Ll()) && Over(a, h.Encoded(), b) && TokensRead(h.Ll(), h.Dl(), b, s, got, c, t)
    ensures DynamicRead(a, s, h, got, c, t)
  {
    hide Over, TokensBits, Header.Encoded;
    OverTwice(a, h.Encoded(), b, TokensBits(got, h.Ll(), h.Dl()), c);
  }

  /** Padding after the header of a block that starts with `bits` bits buffered. */
  function PadOf(bits: nat): nat {
    (bits + 5) % 8
  }

  /** The body of a block was read and carried out. */
  ghost predicate BodyRead(a: Reader, s: Sink, got: Block, pad: nat, b: Reader, t: Sink) {
    && BlockShaped(got, pad) && Over(a, BodyBits(got, pad), b)
    && |s.output| <= |t.output| && s.Holds(|t.output|) && t == s.Holding(t.output)
    && (BlockDefined(got) ==> BlockLegal(got, s.output))
    && (BlockLegal(got, s.output) ==> t.output == BlockOutput(got, s.output))
  }

  ghost predicate BodyAhead(a: Reader, s: Sink, want: Block, pad: nat, later: nat) {
    BlockShaped(want, pad) && BlockLegal(want, s.output) && Ahead(a, BodyBits(want, pad), later)
  }

  ghost predicate BodyDue(s: Sink, want: Block, st: Outcome, got: Block) {
    BlockLegal(want, s.output) && if s.Holds(|BlockOutput(want, s.output)|) then st.Done? && got == want else st.Corrupt?
  }

  /** A block was read and carried out. */
  ghost predicate BlockRead(a: Reader, s: Sink, got: Block, final: bool, b: Reader, t: Sink) {
    && BlockShaped(got, PadOf(a.bits)) && Over(a, BlockBits(got, PadOf(a.bits), final), b)
    && |s.output| <= |t.output| && s.Holds(|t.output|) && t == s.Holding(t.output)
    && (BlockDefined(got) ==> BlockLegal(got, s.output))
    && (BlockLegal(got, s.output) ==> t.output == BlockOutput(got, s.output))
  }

  ghost predicate BlockAhead(a: Reader, s: Sink, want: Block, final: bool, later: nat) {
    BlockShaped(want, PadOf(a.bits)) && BlockLegal(want, s.output) && Ahead(a, BlockBits(want, PadOf(a.bits), final), later)
  }

  ghost predicate BlockDue(s: Sink, want: Block, wantFinal: bool, st: Outcome, final: bool, got: Block) {
    BodyDue(s, want, st, got) && final == wantFinal
  }

  lemma AlignedAfter(a: Reader, f: nat, b: Reader, kind: nat, c: Reader)
    requires Over(a, DataBits(f, 1), b) && Over(b, DataBits(kind, 2), c)
    ensures c.bits % 8 == PadOf(a.bits)
  {
  }

  /** After the three header bits comes the body of the block. */
  lemma BodyComes(a: Reader, s: Sink, want: Block, wantFinal: bool, later: nat, f: nat, b: Reader, kind: nat, c: Reader)
    requires BlockAhead(a, s, want, wantFinal, later) && f < Pow2(1) && kind < Pow2(2)
    requires Over(a, DataBits(f, 1), b) && Over(b, DataBits(kind, 2), c)
    ensures (f == 1 <==> wantFinal) && kind == BlockType(want) && BodyAhead(c, s, want, PadOf(a.bits), later)
  {
    hide Over, Ahead, DataBits, BodyBits, BlockShaped, BlockLegal;
    var body := BodyBits(want, PadOf(a.bits));
    Pow2Values();
    WantData(a, f, b, if wantFinal then 1 else 0, 1, DataBits(BlockType(want), 2) + body, later);
    WantData(b, kind, c, BlockType(want), 2, body, later);
  }

  lemma BlockWas(a: Reader, s: Sink, f: nat, b: Reader, c: Reader, got: Block, d: Reader, t: Sink)
    requires f < Pow2(1) && Over(a, DataBits(f, 1), b) && Over(b, DataBits(BlockType(got), 2), c)
    requires BodyRead(c, s, got, PadOf(a.bits), d, t)
    ensures BlockRead(a, s, got, f == 1, d, t)
  {
    hide Over, DataBits, BodyBits, BlockShaped, BlockLegal, BlockOutput;
    Pow2Values();
    OverTwice(b, DataBits(BlockType(got), 2), c, BodyBits(got, PadOf(a.bits)), d);
    OverTwice(a, DataBits(f, 1), b, DataBits(BlockType(got), 2) + BodyBits(got, PadOf(a.bits)), d);
  }

  lemma StoredComes(a: Reader, s: Sink, want: Block, pad: nat, later: nat)
    requires BlockType(want) == 0 && BodyAhead(a, s, want, pad, later)
    ensures want.Stored? && |want.pad| == pad && |want.data| < 0x1_0000 && Ahead(a, StoredBits(want.pad, want.data), later)
  {
  }

  lemma StoredWas(a: Reader, s: Sink, n: nat, pad: seq<bool>, data: seq<Byte>, b: Reader, t: Sink)
    requires |pad| == n && StoredRead(a, s, pad, data, b, t)
    ensures BodyRead(a, s, Stored(pad, data), n, b, t)
  {
    hide Over, StoredBits, Grown;
  }

  lemma StoredWanted(s: Sink, want: Block, ok: bool, pad: seq<bool>, data: seq<Byte>)
    requires want.Stored? && (ok <==> s.Holds(|s.output + want.data|)) && (ok ==> pad == want.pad && data == want.data)
    ensures BodyDue(s, want, if ok then Done else Corrupt, Stored(pad, data))
  {
    hide Sink.Holds;
  }

  lemma FixedComes(a: Reader, s: Sink, want: Block, pad: nat, later: nat)
    requires BlockType(want) == 1 && BodyAhead(a, s, want, pad, later)
    ensures want.Fixed? && TokensAhead(FIXED_LENGTHS, FIXED_DISTANCES, a, s, want.tokens, later)
  {
    hide Ahead, TokensBits, AllWritable, AllLegal, FIXED_LENGTHS, FIXED_DISTANCES;
    FixedSizes();
  }

  lemma FixedWas(a: Reader, s: Sink, pad: nat, ts: seq<Token>, b: Reader, t: Sink)
    requires TokensRead(FIXED_LENGTHS, FIXED_DISTANCES, a, s, ts, b, t)
    ensures BodyRead(a, s, Fixed(ts), pad, b, t)
  {
    hide Over, TokensBits, AllWritable, Grown, FIXED_LENGTHS, FIXED_DISTANCES;
  }

  lemma FixedWanted(s: Sink, want: Block, ok: bool, ts: seq<Token>)
    requires want.Fixed? && TokensDue(s, want.tokens, ok, ts)
    ensures BodyDue(s, want, if ok then Done else Corrupt, Fixed(ts))
  {
    hide Sink.Holds, AllLegal, ExpandTokens;
  }

  lemma DynamicComes(a: Reader, s: Sink, want: Block, pad: nat, later: nat)
    requires BlockType(want) == 2 && BodyAhead(a, s, want, pad, later)
    ensures want.Dynamic? && DynamicAhead(a, s, want.header, want.tokens, later)
  {
    hide Ahead, TokensBits, AllLegal, DynamicShaped;
  }

  lemma DynamicBlockWas(a: Reader, s: Sink, pad: nat, h: Header, ts: seq<Token>, b: Reader, t: Sink)
    requires DynamicRead(a, s, h, ts, b, t)
    ensures BodyRead(a, s, Dynamic(h, ts), pad, b, t)
  {
    hide Over, TokensBits, Grown, DynamicShaped;
  }

  lemma DynamicWanted(s: Sink, want: Block, st: Outcome, h: Header, ts: seq<Token>)
    requires want.Dynamic? && DynamicDue(s, want.header, want.tokens, st, h, ts)
    ensures BodyDue(s, want, st, Dynamic(h, ts))
  {
    hide Sink.Holds, AllLegal, ExpandTokens;
  }

  // ----- streams

  /** A two-byte header, section 2.2 of RFC 1950, with data behind it: check bits, no preset dictionary,
      compression method 8. */
  predicate HeaderGood(bytes: seq<Byte>) {
    && |bytes| > 2
    && Word(bytes[1], bytes[0]) % 31 == 0 && bytes[1] / 32 % 2 == 0 && bytes[0] % 16 == 8
  }

  /** The bytes behind the header. */
  function Body(bytes: seq<Byte>, parse_header: bool): seq<Byte> {
    if !parse_header then bytes else if |bytes| < 2 then [] else bytes[2..]
  }

  function StartOf(bytes: seq<Byte>): Reader {
    Reader(BytesValue(bytes), 8 * |bytes|, 0)
  }

  lemma HeaderLong(bytes: seq<Byte>)
    requires HeaderGood(bytes)
    ensures |bytes| > 2
  {
  }

  lemma Started(input: seq<Byte>, z: nat, parse_header: bool, zpos: nat)
    requires zpos == (if parse_header then z + 2 else z) && zpos <= |input|
    ensures StartOf(Body(input[z..], parse_header)) == Reader(Pending(0, 0, input[zpos..]), 8 * (|input| - zpos), 0)
    ensures 0 < Pow2(0)
  {
    assert Body(input[z..], parse_header) == input[zpos..];
    assert 1 * BytesValue(input[zpos..]) == BytesValue(input[zpos..]);
  }

  /** Blocks that are not the last were read and carried out. */
  ghost predicate PartRead(a: Reader, s: Sink, got: seq<Block>, b: Reader, t: Sink) {
    && a.bits == 0 && (s.expandable ==> s.limit > 0)
    && BlocksShaped(got) && Over(a, BlocksBits(got, false), b)
    && |s.output| <= |t.output| && s.Holds(|t.output|) && t == s.Holding(t.output)
    && (BlocksDefined(got) ==> BlocksLegal(got, s.output))
    && (BlocksLegal(got, s.output) ==> t.output == BlocksOutput(got, s.output))
  }

  /** A whole stream was read and carried out. */
  ghost predicate StreamRead(a: Reader, s: Sink, got: seq<Block>, b: Reader, t: Sink) {
    && got != [] && BlocksShaped(got) && Over(a, BlocksBits(got, true), b)
    && |s.output| <= |t.output| && s.Holds(|t.output|) && t == s.Holding(t.output)
    && (BlocksDefined(got) ==> BlocksLegal(got, s.output))
    && (BlocksLegal(got, s.output) ==> t.output == BlocksOutput(got, s.output))
  }

  /** Where 25 bits follow the stream, the bits still available are those behind it. */
  lemma StreamEnd(body: seq<Byte>, s: Sink, got: seq<Block>, b: Reader, t: Sink)
    requires StreamRead(StartOf(body), s, got, b, t)
    ensures 8 * |body| >= |BlocksBits(got, true)| + 25 ==> b.avail == 8 * |body| - |BlocksBits(got, true)|
  {
    hide BlocksBits, BlocksShaped, BlocksLegal, BlocksOutput, BlocksDefined, Cat;
  }

  ghost predicate StreamAhead(a: Reader, s: Sink, want: seq<Block>, later: nat) {
    want != [] && BlocksShaped(want) && BlocksLegal(want, s.output) && Ahead(a, BlocksBits(want, true), later)
  }

  ghost predicate StreamDue(s: Sink, want: seq<Block>, st: Outcome, got: seq<Block>) {
    && BlocksLegal(want, s.output)
    && if s.Holds(|BlocksOutput(want, s.output)|) then st.Done? && got == want else st.Corrupt?
  }

  lemma NoBlocks(a: Reader, s: Sink)
    requires a.bits == 0 && (s.expandable ==> s.limit > 0) && |s.output| <= s.limit
    ensures PartRead(a, s, [], a, s)
  {
  }

  lemma SomeBlock(a: Reader, s: Sink, want: seq<Block>, later: nat)
    requires StreamAhead(a, s, want, later)
    ensures [] < want
  {
  }

  lemma PadAgrees(bits: nat, n: nat)
    requires (bits + n) % 8 == 0
    ensures PadOf(bits) == PadAt(n)
  {
  }

  lemma AlignedOver(a: Reader, bits: seq<bool>, b: Reader)
    requires a.bits == 0 && Over(a, bits, b)
    ensures PadOf(b.bits) == PadAt(|bits|)
  {
    PadAgrees(b.bits, |bits|);
  }

  lemma OneBlock(a: Reader, s: Sink, got: seq<Block>, b: Reader, t: Sink, x: Block, final: bool, c: Reader, u: Sink)
    requires PartRead(a, s, got, b, t) && BlockRead(b, t, x, final, c, u)
    ensures if final then StreamRead(a, s, got + [x], c, u) else PartRead(a, s, got + [x], c, u)
    ensures !final ==> c.stream < b.stream
  {
    hide Over, Grown, BlockBits, BlockShaped, BlocksBits, BlocksShaped, BlockLegal, BlockOutput, PadOf, PadAt;
    AlignedOver(a, BlocksBits(got, false), b);
    BlocksSnoc(got, x, final);
    OverTwice(a, BlocksBits(got, false), b, BlockBits(x, PadOf(b.bits), final), c);
    HoldsLater(s, t.output, u.output);
    OutputSnoc(got, x, s.output);
    BlockProgress(b, x, PadOf(b.bits), final, c);
  }

  lemma BlockProgress(a: Reader, x: Block, pad: nat, final: bool, b: Reader)
    requires BlockShaped(x, pad) && Over(a, BlockBits(x, pad, final), b)
    ensures b.stream < a.stream
  {
    hide Over, DataBits, BodyBits, BlockShaped;
    var bits := BlockBits(x, pad, final);
    OverShrinks(a, bits, b);
    if a.stream == 0 { ZeroBlock(a, x, pad, final, b); }
  }

  /** No block is written with zeros only. */
  lemma ZeroBlock(a: Reader, x: Block, pad: nat, final: bool, b: Reader)
    requires BlockShaped(x, pad) && Over(a, BlockBits(x, pad, final), b)
    ensures a.stream != 0
  {
    hide DataBits, Cat, TokensBits, AllWritable, DynamicShaped, BytesBits, Pow2;
    if a.stream == 0 {
      Pow2Values();
      var f, kind, body := DataBits(if final then 1 else 0, 1), DataBits(BlockType(x), 2), BodyBits(x, pad);
      CatCat(f, kind + body, b.stream);
      ZeroCat(f, Cat(kind + body, b.stream));
      CatCat(kind, body, b.stream);
      ZeroData(BlockType(x), 2, Cat(body, b.stream));
      ZeroStored(x.pad, x.data, b.stream);
    }
  }

  lemma ZeroStored(pad: seq<bool>, data: seq<Byte>, rest: nat)
    requires |data| < 0x1_0000
    ensures Cat(StoredBits(pad, data), rest) != 0
  {
    hide DataBits, Cat, BytesBits, Pow2;
    Pow2Values();
    var len, nlen, d := DataBits(|data|, 16), DataBits(0xFFFF - |data|, 16), BytesBits(data);
    CatCat(pad, len + nlen + d, rest);
    CatCat(len + nlen, d, rest);
    CatCat(len, nlen, Cat(d, rest));
    if Cat(StoredBits(pad, data), rest) == 0 {
      ZeroCat(pad, Cat(len + nlen + d, rest));
      ZeroData(|data|, 16, Cat(nlen, Cat(d, rest)));
      ZeroData(0xFFFF - |data|, 16, Cat(d, rest));
    }
  }

  /** The situation in the loop when a stream `want` comes first and part of it was read. */
  ghost predicate MidStream(a: Reader, s: Sink, want: seq<Block>, later: nat, got: seq<Block>, b: Reader, t: Sink) {
    StreamAhead(a, s, want, later) && PartRead(a, s, got, b, t) && got < want
  }

  lemma NextBlock(a: Reader, s: Sink, want: seq<Block>, later: nat, got: seq<Block>, b: Reader, t: Sink)
    returns (next: Block, last: bool, rest: nat)
    requires MidStream(a, s, want, later, got, b, t)
    ensures next == want[|got|] && (last <==> |got| == |want| - 1) && BlockAhead(b, t, next, last, rest)
  {
    hide Over, Ahead, Cat, BlockBits, BlockShaped, BlocksBits, BlocksShaped, BlockLegal, BlockOutput, PadOf, PadAt, Sink.Holds, Sink.Holding;
    var k := |got|;
    next, last := want[k], k == |want| - 1;
    assert want[..k] == got && want[..k + 1] == got + [next];
    var tail := BlocksSplit(want, k, true);
    AlignedOver(a, BlocksBits(got, false), b);
    var bits := BlockBits(next, PadOf(b.bits), last);
    AheadAfter(a, BlocksBits(got, false), b, bits + tail, later);
    AheadPart(b, bits, tail, later);
    rest := Cat(tail, later);
    OutputPrefix(want, k + 1, s.output);
    OutputSnoc(got, next, s.output);
  }

  lemma OneBlockDue(a: Reader, s: Sink, want: seq<Block>, later: nat, got: seq<Block>, b: Reader, t: Sink,
                    next: Block, last: bool, rest: nat, final: bool, x: Block)
    requires MidStream(a, s, want, later, got, b, t)
    requires next == want[|got|] && (last <==> |got| == |want| - 1) && BlockAhead(b, t, next, last, rest)
    requires BlockDue(t, next, last, Done, final, x)
    ensures final <==> got + [x] == want
    ensures !final ==> got + [x] < want
    ensures final ==> StreamDue(s, want, Done, got + [x])
  {
    hide Over, Ahead, BlockBits, BlockShaped, BlocksBits, BlocksShaped, BlockLegal, BlockOutput, Sink.Holding, Grown;
    assert x == next && final == last;
    if final {
      assert got + [x] == want;
      OutputSnoc(got, x, s.output);
      HoldsLater(s, t.output, BlocksOutput(want, s.output));
    }
  }

  lemma BlocksFailed(a: Reader, s: Sink, want: seq<Block>, later: nat, got: seq<Block>, b: Reader, t: Sink,
                     next: Block, last: bool, rest: nat, st: Outcome, final: bool, x: Block)
    requires MidStream(a, s, want, later, got, b, t)
    requires next == want[|got|] && BlockAhead(b, t, next, last, rest)
    requires BlockDue(t, next, last, st, final, x) && !st.Done?
    ensures StreamDue(s, want, st, got + [x])
  {
    hide Over, Ahead, BlockBits, BlockShaped, BlocksBits, BlocksShaped, BlockLegal, BlockOutput, Grown;
    var k := |got|;
    assert want[..k] == got && want[..k + 1] == got + [next];
    OutputPrefix(want, k, s.output);
    OutputPrefix(want, k + 1, s.output);
    OutputSnoc(got, next, s.output);
    var out := BlocksOutput(got + [next], s.output);
    HoldsLater(s, t.output, out);
    if s.Holds(|BlocksOutput(want, s.output)|) {
      HoldsLess(s, |out|, |BlocksOutput(want, s.output)|);
    }
  }
}
