/** What the steps of the inflate decoder read and write, on values: how far a step went over the stream
    (`Over`), what comes next in it (`Ahead`), and what happened to the output buffer (`Sink`).

    For every kind of step there are three predicates.  `...Read` says what was read and carried out,
    `...Ahead` that an item comes next in the input, and `...Due` what the step has to do then. */
module InflateSteps {
  import opened Bits
  import opened Canonical
  import opened ZHuffman
  import opened Deflate

  // ----- reading a stream

  /** The reader at one moment: the stream still to come (behind the end of the input it is all zeros),
      the bits buffered or unread, and the bits buffered. */
  datatype Reader = Reader(stream: nat, avail: int, bits: nat)

  /** From `a` to `b` the reader went over exactly `bits`, and the buffer stayed in step with the byte
      boundaries.  Exactly that many fewer bits are available, so the position in the input moved by exactly
      their number, if 25 bits are left behind them; closer to the end of the input the buffer may have been filled
      up with bits that are not there. */
  ghost predicate Over(a: Reader, bits: seq<bool>, b: Reader) {
    && a.stream == Cat(bits, b.stream)
    && b.avail >= a.avail - |bits| && (a.avail >= |bits| + 25 ==> b.avail == a.avail - |bits|)
    && (b.bits + |bits| - a.bits) % 8 == 0
  }

  /** The input goes on with `bits` and at least two more bytes. */
  ghost predicate Ahead(a: Reader, bits: seq<bool>, later: nat) {
    a.stream == Cat(bits, later) && a.avail >= |bits| + 16
  }

  ghost predicate NoMatch(ls: seq<nat>, stream: nat) {
    forall i: nat | i < |ls| :: !Matches(ls, i, stream)
  }

  lemma OverNothing(a: Reader)
    ensures Over(a, [], a)
  {
  }

  lemma OverTwice(a: Reader, x: seq<bool>, b: Reader, y: seq<bool>, c: Reader)
    requires Over(a, x, b) && Over(b, y, c)
    ensures Over(a, x + y, c)
  {
    hide Cat;
    CatCat(x, y, c.stream);
  }

  lemma AheadAfter(a: Reader, x: seq<bool>, b: Reader, y: seq<bool>, later: nat)
    requires Over(a, x, b) && Ahead(a, x + y, later)
    ensures Ahead(b, y, later)
  {
    hide Cat;
    CatCat(x, y, later);
    CatInjective(x, b.stream, Cat(y, later));
  }

  lemma AheadPart(a: Reader, x: seq<bool>, y: seq<bool>, later: nat)
    requires Ahead(a, x + y, later)
    ensures Ahead(a, x, Cat(y, later))
  {
    hide Cat;
    CatCat(x, y, later);
  }

  lemma OverShrinks(a: Reader, bits: seq<bool>, b: Reader)
    requires Over(a, bits, b)
    ensures b.stream <= a.stream && (|bits| > 0 && a.stream > 0 ==> b.stream < a.stream)
  {
    CatShr(bits, b.stream);
    ShrLess(a.stream, |bits|);
  }

  /** Where data is ahead, it is what is read. */
  lemma WantData(a: Reader, k: nat, b: Reader, x: nat, n: nat, y: seq<bool>, later: nat)
    requires k < Pow2(n) && Over(a, DataBits(k, n), b)
    requires x < Pow2(n) && Ahead(a, DataBits(x, n) + y, later)
    ensures k == x && Ahead(b, y, later)
  {
    AheadPart(a, DataBits(x, n), y, later);
    DataUnique(k, x, n, b.stream, Cat(y, later));
    AheadAfter(a, DataBits(x, n), b, y, later);
  }

  /** Where a code is ahead, some code matches and there are bits enough to decode it. */
  lemma WantCode(a: Reader, ls: seq<nat>, i: nat, y: seq<bool>, later: nat)
    requires Lengths(ls) && Fits(ls) && HasCode(ls, i) && Ahead(a, SymBits(ls, i) + y, later)
    ensures !NoMatch(ls, a.stream) && a.avail >= 16
  {
    AheadPart(a, SymBits(ls, i), y, later);
    CodeFirst(ls, i, Cat(y, later));
  }

  /** Where a code is ahead, its symbol is what is decoded. */
  lemma GotCode(a: Reader, ls: seq<nat>, r: nat, b: Reader, i: nat, y: seq<bool>, later: nat)
    requires Lengths(ls) && Fits(ls) && HasCode(ls, r) && Over(a, SymBits(ls, r), b)
    requires HasCode(ls, i) && Ahead(a, SymBits(ls, i) + y, later)
    ensures r == i && Ahead(b, y, later)
  {
    AheadPart(a, SymBits(ls, i), y, later);
    SymUnique(ls, r, i, b.stream, Cat(y, later));
    AheadAfter(a, SymBits(ls, i), b, y, later);
  }

  lemma ZeroCat(bits: seq<bool>, rest: nat)
    requires Cat(bits, rest) == 0
    ensures rest == 0
  {
    CatShr(bits, rest);
    ShrLess(0, |bits|);
  }

  lemma ZeroData(x: nat, n: nat, rest: nat)
    requires x < Pow2(n) && Cat(DataBits(x, n), rest) == 0
    ensures x == 0 && rest == 0
  {
    ZeroCat(DataBits(x, n), rest);
    CatData(x, n, rest);
    Split(0, n);
  }

  // ----- the bit buffer as part of a stream

  /** The bits buffered once whole bytes were added to `n` until there are more than 24. */
  function FilledTo(n: nat): nat
    requires n <= 24
  {
    25 + (n + 7) % 8
  }

  /** The bits buffered once there are at least `need`. */
  function Filled(n: nat, need: nat): nat
    requires need <= 16
  {
    if n < need then FilledTo(n) else n
  }

  /** The bits available then: too many when the input ends before the buffer is full. */
  function Available(a: Reader, need: nat): int
    requires need <= 16
  {
    if a.bits < need && a.avail < FilledTo(a.bits) then FilledTo(a.bits) else a.avail
  }

  function Pending(code_buffer: nat, num_bits: nat, unread: seq<Byte>): nat {
    code_buffer + Pow2(num_bits) * BytesValue(unread)
  }

  /** One byte more: the buffer is full, or will be as full as without it. */
  lemma FilledStep(n: nat)
    requires n <= 24
    ensures n > 16 ==> FilledTo(n) == n + 8
    ensures n <= 16 ==> FilledTo(n + 8) == FilledTo(n)
  {
  }

  lemma OverFilled(a: Reader, unread: nat, b: Reader)
    requires a.bits <= 24 && a.avail == a.bits + 8 * unread && a.stream == b.stream && b.bits == FilledTo(a.bits)
    requires b.avail == (if a.avail < b.bits then b.bits else a.avail)
    ensures Over(a, [], b)
  {
  }

  lemma FillStep(code_buffer: nat, num_bits: nat, unread: seq<Byte>)
    requires code_buffer < Pow2(num_bits)
    ensures var b := if unread == [] then 0 else unread[0];
            var rest := if unread == [] then [] else unread[1..];
            && Or(code_buffer, Shl(b, num_bits)) < Pow2(num_bits + 8)
            && Pending(Or(code_buffer, Shl(b, num_bits)), num_bits + 8, rest) == Pending(code_buffer, num_bits, unread)
  {
    if unread == [] {
      Absorb(code_buffer, num_bits, 0, 0);
    } else {
      Absorb(code_buffer, num_bits, unread[0], BytesValue(unread[1..]));
    }
  }

  lemma TakeBits(code_buffer: nat, num_bits: nat, unread: seq<Byte>, n: nat)
    requires code_buffer < Pow2(num_bits) && n <= num_bits
    ensures Low(Pending(code_buffer, num_bits, unread), n) == Low(code_buffer, n)
    ensures Shr(code_buffer, n) < Pow2(num_bits - n)
    ensures Shr(Pending(code_buffer, num_bits, unread), n) == Pending(Shr(code_buffer, n), num_bits - n, unread)
  {
    JoinShr(code_buffer, BytesValue(unread), num_bits, n);
  }

  /** Taking `n` bits out of the buffer reads them from the stream. */
  lemma TakeData(a: Reader, b: Reader, k: nat, n: nat)
    requires k == Low(a.stream, n) && b.stream == Shr(a.stream, n)
    requires b.avail >= a.avail - n && (a.avail >= n + 25 ==> b.avail == a.avail - n) && (b.bits + n - a.bits) % 8 == 0
    ensures k < Pow2(n) && Over(a, DataBits(k, n), b)
  {
    LowBound(a.stream, n);
    DataCat(a.stream, n);
  }

  lemma TakeCode(a: Reader, b: Reader, ls: seq<nat>, i: nat)
    requires i < |ls| && Matches(ls, i, a.stream) && b.stream == Shr(a.stream, ls[i])
    requires b.avail >= a.avail - ls[i] && (a.avail >= ls[i] + 25 ==> b.avail == a.avail - ls[i]) && (b.bits + ls[i] - a.bits) % 8 == 0
    ensures HasCode(ls, i) && Over(a, SymBits(ls, i), b)
  {
    MatchCat(ls, i, a.stream);
  }

  lemma Low9(x: nat)
    ensures Low(x, 9) < 512
  {
    LowBound(x, 9);
    Pow2Values();
  }

  /** With 16 bits buffered, the first 16 bits of the stream are in the buffer. */
  lemma SameTop(code_buffer: nat, num_bits: nat, unread: seq<Byte>)
    requires code_buffer < Pow2(num_bits) && num_bits >= 16
    ensures BitReverse(code_buffer, 16) == Top(Pending(code_buffer, num_bits, unread), 16) < 0x1_0000
  {
    BitReverseCorrect(code_buffer, 16);
    TakeBits(code_buffer, num_bits, unread, 16);
    TopLow(code_buffer, Pending(code_buffer, num_bits, unread), 16);
    TopBound(code_buffer, 16);
    Pow2Values();
  }

  // ----- the output buffer

  const UINT_MAX := 0xFFFF_FFFF

  /** The buffer size doubled until it is at least `need`. */
  function Grown(limit: nat, need: nat): (r: nat)
    ensures r >= limit && (limit > 0 ==> r >= need)
    decreases need - limit
  {
    if need <= limit || limit == 0 then limit else Grown(2 * limit, need)
  }

  /** An output buffer: what was written, its size, and whether and how far it may grow. */
  datatype Sink = Sink(output: seq<Byte>, limit: nat, expandable: bool, heap: nat) {

    /** The buffer can be made to hold `need` bytes. */
    predicate Holds(need: nat) {
      need <= limit || (expandable && Grown(limit, need) <= UINT_MAX && Grown(limit, need) <= heap)
    }

    /** The buffer after it was grown, if necessary, to hold `output'`. */
    function Holding(output': seq<Byte>): Sink {
      this.(output := output', limit := if |output'| <= limit then limit else Grown(limit, |output'|))
    }
  }

  lemma {:induction false} GrownGrown(limit: nat, a: nat, b: nat)
    requires 0 < limit && a <= b
    ensures Grown(Grown(limit, a), b) == Grown(limit, b)
    decreases a - limit
  {
    if limit < a { GrownGrown(2 * limit, a, b); }
  }

  /** Growing for an output does not change what larger outputs the buffer can be made to hold, nor how
      large it then gets. */
  lemma HoldsLater(s: Sink, output: seq<Byte>, more: seq<Byte>)
    requires s.expandable ==> s.limit > 0
    requires |output| <= |more| && s.Holds(|output|)
    ensures s.Holding(output).Holds(|more|) == s.Holds(|more|)
    ensures s.Holds(|more|) ==> s.Holding(output).Holding(more) == s.Holding(more)
  {
    if s.limit < |output| {
      GrownGrown(s.limit, |output|, |more|);
    }
  }

  /** A match was carried out on a buffer, which was grown for it if necessary. */
  ghost predicate Copied(a: Sink, t: Token, b: Sink)
    requires t.Match? && 257 <= t.lsym < 288 && t.dsym < 32
  {
    && |b.output| == |a.output| + LengthOf(t) && a.Holds(|b.output|) && b == a.Holding(b.output)
    && DistOf(t) <= |a.output|
    && (Legal(t, |a.output|) ==> b.output == ExpandToken(a.output, t))
  }

  lemma LegalDist(t: Token)
    requires t.Match? && 257 <= t.lsym < 288 && t.dsym < 32
    ensures t.dsym <= 29 ==> DistOf(t) >= 1
    ensures t.lsym <= 285 ==> LengthOf(t) >= 3
  {
  }

  /** How one turn of the symbol loop ends. */
  datatype Status = Failed | Ended | More

  ghost predicate Produced(a: Sink, t: Token, b: Sink) {
    && a.Holds(|b.output|) && b == a.Holding(b.output) && |a.output| <= |b.output|
    && (Defined(t) ==> Legal(t, |a.output|))
    && (Legal(t, |a.output|) ==> b.output == ExpandToken(a.output, t))
  }

  /** What one turn of the symbol loop read and wrote. */
  ghost predicate SymbolRead(ll: seq<nat>, dl: seq<nat>, a: Reader, s: Sink, st: Status, got: Token, b: Reader, t: Sink) {
    match st
    case Failed => true
    case Ended => HasCode(ll, END_OF_BLOCK) && Over(a, SymBits(ll, END_OF_BLOCK), b) && t == s
    case More =>
      && Writable(got, ll, dl) && Over(a, TokenBits(got, ll, dl), b) && Produced(s, got, t)
      && (ZeroProduces(ll) ==> b.stream < a.stream || (b.stream == a.stream && |t.output| > |s.output|))
  }

  ghost predicate TokenAhead(ll: seq<nat>, dl: seq<nat>, a: Reader, want: Token, written: nat, later: nat) {
    Writable(want, ll, dl) && Legal(want, written) && Ahead(a, TokenBits(want, ll, dl), later)
  }

  ghost predicate EndAhead(ll: seq<nat>, a: Reader, later: nat) {
    HasCode(ll, END_OF_BLOCK) && Ahead(a, SymBits(ll, END_OF_BLOCK), later)
  }

  /** One turn reads the token, or the end of the block, that comes next; it fails only when the output
      cannot be made to hold what the token stands for. */
  ghost predicate SymbolDue(ll: seq<nat>, dl: seq<nat>, a: Reader, s: Sink, want: Token, later: nat, st: Status, got: Token) {
    && (TokenAhead(ll, dl, a, want, |s.output|, later) ==>
          if s.Holds(|ExpandToken(s.output, want)|) then st.More? && got == want else st.Failed?)
    && (EndAhead(ll, a, later) ==> st.Ended?)
  }

  /** At the end of the input, with 17 zero bits in the buffer: the one-bit zero code is that of length symbol
      286, which stands for no byte, and the ten-bit zero code that of distance symbol 29. */
  predicate Idle(ll: seq<nat>, dl: seq<nat>, a: Reader, written: nat) {
    && |ll| > 286 && ll[286] == 1 && Matches(ll, 286, 0) && IdleTail(dl, written)
    && a == Reader(0, 17, 17)
  }

  predicate IdleTail(dl: seq<nat>, written: nat) {
    |dl| > 29 && dl[29] == 10 && Matches(dl, 29, 0) && written >= 24577
  }

  /** A code in which only the last symbol, number `n`, is used. */
  predicate Sole(ls: seq<nat>, n: nat, l: nat) {
    |ls| == n + 1 && ls[n] == l && forall i | 0 <= i < n :: ls[i] == 0
  }

  lemma {:induction false} SoleCount(ls: seq<nat>, n: nat, l: nat, m: nat, k: nat)
    requires Sole(ls, n, l) && m <= n && 1 <= k
    ensures Count(ls, m, k) == 0
  {
    if m > 0 { SoleCount(ls, n, l, m - 1, k); }
  }

  lemma {:induction false} SoleFirst(ls: seq<nat>, n: nat, l: nat, k: nat)
    requires Sole(ls, n, l) && k <= l
    ensures First(ls, k) == 0
  {
    if k > 1 {
      SoleFirst(ls, n, l, k - 1);
      SoleCount(ls, n, l, n, k - 1);
    }
  }

  lemma {:induction false} SoleKraft(ls: seq<nat>, n: nat, l: nat, m: nat)
    requires Sole(ls, n, l) && l <= MAX_BITS && m <= n
    ensures Lengths(ls) && Kraft(ls, m) == 0
  {
    if m > 0 { SoleKraft(ls, n, l, m - 1); }
  }

  /** It is a code, and its only symbol has the all-zero one. */
  lemma SoleCode(ls: seq<nat>, n: nat, l: nat)
    requires Sole(ls, n, l) && 1 <= l <= MAX_BITS
    ensures Lengths(ls) && Fits(ls) && Matches(ls, n, 0)
  {
    hide Pow2, Top, First, Count, Fits;
    SoleCount(ls, n, l, n, l);
    SoleFirst(ls, n, l, l);
    TopZero(l);
    SoleKraft(ls, n, l, n);
    Pow2Mono(MAX_BITS - l, MAX_BITS);
    FitsIffKraft(ls);
  }

  /** Code lengths a dynamic block can declare with which the loop does not leave such a state. */
  lemma IdleLengths(ll: seq<nat>, dl: seq<nat>)
    requires Sole(ll, 286, 1) && Sole(dl, 29, 10)
    ensures Idle(ll, dl, Reader(0, 17, 17), 24577) && !ZeroProduces(ll)
    ensures Lengths(ll) && Fits(ll) && Lengths(dl) && Fits(dl)
  {
    hide Fits, Matches, Lengths;
    SoleCode(ll, 286, 1);
    SoleCode(dl, 29, 10);
  }

  /** The symbol with a zero code is what is read from a stream of zeros, and leaves zeros. */
  lemma ZeroSymbol(ls: seq<nat>, i: nat, a: Reader, r: nat, b: Reader)
    requires Lengths(ls) && Fits(ls) && i < |ls| && Matches(ls, i, 0)
    requires HasCode(ls, r) && Over(a, SymBits(ls, r), b) && a.stream == 0
    ensures r == i && b.stream == 0
  {
    hide Fits, Matches;
    ZeroMatches(ls, r, a, b);
    PrefixFree(ls, i, r, 0);
    ZeroCat(SymBits(ls, r), b.stream);
  }

  lemma IdleComes(ll: seq<nat>, dl: seq<nat>, a: Reader, written: nat)
    requires Idle(ll, dl, a, written)
    ensures !NoMatch(ll, a.stream) && a == Reader(0, 17, 17)
  {
    hide Matches;
    assert Matches(ll, 286, 0);
  }

  lemma IdleCame(ll: seq<nat>, dl: seq<nat>, a: Reader, written: nat, z: nat, b: Reader)
    requires Lengths(ll) && Fits(ll) && Idle(ll, dl, a, written)
    requires HasCode(ll, z) && Over(a, SymBits(ll, z), b)
    requires b.bits == Filled(a.bits, 16) - ll[z] && b.avail - b.bits <= a.avail - a.bits
    ensures z == 286 && b == Reader(0, 16, 16) && IdleTail(dl, written)
  {
    hide Lengths, Fits, Matches, IdleTail;
    SymLength(ll, z);
    ZeroSymbol(ll, 286, a, z, b);
  }

  lemma IdleLength(k: nat, a: Reader, b: Reader)
    requires a.stream == 0 && k < Pow2(LENGTH_EXTRA[29]) && Over(a, DataBits(k, LENGTH_EXTRA[29]), b)
    ensures LENGTH_BASE[29] + k == 0 && LENGTH_EXTRA[29] == 0 && b.stream == 0
  {
    hide Cat, DataBits;
    IdleEntries();
    ZeroData(k, 0, b.stream);
  }

  lemma IdleDistance(d: nat, a: Reader, b: Reader)
    requires a.stream == 0 && d < Pow2(DIST_EXTRA[29]) && Over(a, DataBits(d, DIST_EXTRA[29]), b)
    ensures DIST_BASE[29] + d == 24577 && DIST_EXTRA[29] == 13 && b.stream == 0
  {
    hide Cat, DataBits, Pow2;
    IdleEntries();
    ZeroData(d, 13, b.stream);
  }

  function SymbolOf(t: Token): nat {
    match t
    case Literal(b) => b
    case Match(ls, _, _, _) => ls
  }

  function TailOf(t: Token, ll: seq<nat>, dl: seq<nat>): seq<bool>
    requires Writable(t, ll, dl)
  {
    if t.Literal? then [] else MatchTail(t, dl)
  }

  lemma TokenParts(t: Token, ll: seq<nat>, dl: seq<nat>)
    requires Writable(t, ll, dl)
    ensures TokenBits(t, ll, dl) == SymBits(ll, SymbolOf(t)) + TailOf(t, ll, dl)
  {
  }

  lemma TokenComes(ll: seq<nat>, dl: seq<nat>, a: Reader, want: Token, written: nat, later: nat)
    requires Lengths(ll) && Fits(ll) && TokenAhead(ll, dl, a, want, written, later)
    ensures !NoMatch(ll, a.stream) && a.avail >= 16
  {
    hide Lengths, Fits, Ahead, SymBits, TailOf, NoMatch;
    TokenParts(want, ll, dl);
    WantCode(a, ll, SymbolOf(want), TailOf(want, ll, dl), later);
  }

  lemma EndComes(ll: seq<nat>, a: Reader, later: nat)
    requires Lengths(ll) && Fits(ll) && EndAhead(ll, a, later)
    ensures !NoMatch(ll, a.stream) && a.avail >= 16
  {
    hide Lengths, Fits, Ahead, SymBits, NoMatch;
    assert SymBits(ll, END_OF_BLOCK) + [] == SymBits(ll, END_OF_BLOCK);
    WantCode(a, ll, END_OF_BLOCK, [], later);
  }

  lemma TokenCame(ll: seq<nat>, dl: seq<nat>, a: Reader, want: Token, output: seq<Byte>, later: nat, z: nat, b: Reader)
    requires Lengths(ll) && Fits(ll) && TokenAhead(ll, dl, a, want, |output|, later)
    requires HasCode(ll, z) && Over(a, SymBits(ll, z), b)
    ensures z == SymbolOf(want) && Legal(want, |output|)
    ensures want.Literal? ==> z < 256 && |ExpandToken(output, want)| == |output| + 1
    ensures want.Match? ==> 257 <= z <= 285 && MatchWritable(want, dl) && Ahead(b, MatchTail(want, dl), later)
                            && |ExpandToken(output, want)| == |output| + LengthOf(want)
  {
    hide Lengths, Fits, Ahead, Over, SymBits, MatchTail, NoMatch, MatchWritable, LENGTH_BASE, DIST_BASE;
    TokenParts(want, ll, dl);
    GotCode(a, ll, z, b, SymbolOf(want), TailOf(want, ll, dl), later);
    if want.Match? { LegalDist(want); }
  }

  lemma EndCame(ll: seq<nat>, a: Reader, later: nat, z: nat, b: Reader)
    requires Lengths(ll) && Fits(ll) && EndAhead(ll, a, later)
    requires HasCode(ll, z) && Over(a, SymBits(ll, z), b)
    ensures z == END_OF_BLOCK
  {
    hide Lengths, Fits, Ahead, Over, SymBits;
    assert SymBits(ll, END_OF_BLOCK) + [] == SymBits(ll, END_OF_BLOCK);
    GotCode(a, ll, z, b, END_OF_BLOCK, [], later);
  }

  lemma LiteralRead(ll: seq<nat>, dl: seq<nat>, a: Reader, s: Sink, z: nat, b: Reader, t: Sink)
    requires z < 256 && HasCode(ll, z) && Over(a, SymBits(ll, z), b)
    requires s.Holds(|s.output| + 1) && t == s.Holding(s.output + [z])
    ensures SymbolRead(ll, dl, a, s, More, Literal(z), b, t)
  {
    hide SymBits, Over, Grown;
    OverShrinks(a, SymBits(ll, z), b);
  }

  lemma FailedRead(ll: seq<nat>, dl: seq<nat>, a: Reader, s: Sink, got: Token, b: Reader, t: Sink)
    ensures SymbolRead(ll, dl, a, s, Failed, got, b, t)
  {
  }

  lemma EndRead(ll: seq<nat>, dl: seq<nat>, a: Reader, s: Sink, got: Token, b: Reader)
    requires HasCode(ll, END_OF_BLOCK) && Over(a, SymBits(ll, END_OF_BLOCK), b)
    ensures SymbolRead(ll, dl, a, s, Ended, got, b, s)
  {
  }

  lemma MatchRead(ll: seq<nat>, dl: seq<nat>, a: Reader, s: Sink, t: Token, b: Reader, c: Reader, s': Sink)
    requires Lengths(ll) && Fits(ll)
    requires t.Match? && MatchWritable(t, dl) && HasCode(ll, t.lsym)
    requires Over(a, SymBits(ll, t.lsym), b) && Over(b, MatchTail(t, dl), c) && Copied(s, t, s')
    ensures SymbolRead(ll, dl, a, s, More, t, c, s')
  {
    hide SymBits, MatchTail, Over, Grown, Fits, Lengths, LENGTH_BASE, DIST_BASE, LENGTH_EXTRA, DIST_EXTRA, Matches;
    OverTwice(a, SymBits(ll, t.lsym), b, MatchTail(t, dl), c);
    OverShrinks(a, SymBits(ll, t.lsym) + MatchTail(t, dl), c);
    SymLength(ll, t.lsym);
    LegalDist(t);
    if a.stream == 0 { ZeroMatches(ll, t.lsym, a, b); }
  }

  lemma SymLength(ls: seq<nat>, i: nat)
    requires HasCode(ls, i)
    ensures |SymBits(ls, i)| == ls[i] > 0
  {
  }

  lemma ZeroMatches(ll: seq<nat>, z: nat, a: Reader, b: Reader)
    requires Lengths(ll) && Fits(ll) && HasCode(ll, z) && Over(a, SymBits(ll, z), b) && a.stream == 0
    ensures Matches(ll, z, 0)
  {
    CodeFirst(ll, z, b.stream);
  }

  // ----- a block of tokens

  /** The tokens `got` were read and carried out. */
  ghost predicate SeqRead(ll: seq<nat>, dl: seq<nat>, a: Reader, s: Sink, got: seq<Token>, b: Reader, t: Sink) {
    && (s.expandable ==> s.limit > 0)
    && AllWritable(got, ll, dl) && Over(a, SeqBits(got, ll, dl), b)
    && |s.output| <= |t.output| && s.Holds(|t.output|) && t == s.Holding(t.output)
    && (AllDefined(got) ==> AllLegal(s.output, got))
    && (AllLegal(s.output, got) ==> t.output == ExpandTokens(s.output, got))
  }

  /** A whole block was read and carried out. */
  ghost predicate TokensRead(ll: seq<nat>, dl: seq<nat>, a: Reader, s: Sink, got: seq<Token>, b: Reader, t: Sink) {
    && HasCode(ll, END_OF_BLOCK) && AllWritable(got, ll, dl) && Over(a, TokensBits(got, ll, dl), b)
    && |s.output| <= |t.output| && s.Holds(|t.output|) && t == s.Holding(t.output)
    && (AllDefined(got) ==> AllLegal(s.output, got))
    && (AllLegal(s.output, got) ==> t.output == ExpandTokens(s.output, got))
  }

  ghost predicate TokensAhead(ll: seq<nat>, dl: seq<nat>, a: Reader, s: Sink, want: seq<Token>, later: nat) {
    && HasCode(ll, END_OF_BLOCK) && AllWritable(want, ll, dl) && AllLegal(s.output, want)
    && Ahead(a, TokensBits(want, ll, dl), later)
  }

  /** A block that comes next is read, exactly when the output can be made to hold what it stands for. */
  ghost predicate TokensDue(s: Sink, want: seq<Token>, ok: bool, got: seq<Token>) {
    AllLegal(s.output, want) && (ok <==> s.Holds(|ExpandTokens(s.output, want)|)) && (ok ==> got == want)
  }

  lemma NothingRead(ll: seq<nat>, dl: seq<nat>, a: Reader, s: Sink)
    requires s.expandable ==> s.limit > 0
    requires |s.output| <= s.limit
    ensures SeqRead(ll, dl, a, s, [], a, s)
  {
  }

  lemma OneMore(ll: seq<nat>, dl: seq<nat>, a: Reader, s: Sink, got: seq<Token>, b: Reader, t: Sink, more: Token, c: Reader, u: Sink)
    requires SeqRead(ll, dl, a, s, got, b, t) && SymbolRead(ll, dl, b, t, More, more, c, u)
    ensures SeqRead(ll, dl, a, s, got + [more], c, u)
    ensures ZeroProduces(ll) ==> c.stream < b.stream || (c.stream == b.stream && |u.output| > |t.output|)
  {
    hide Over, Grown, Writable, TokenBits, Legal, ExpandToken, Defined, ZeroProduces;
    SeqBitsSnoc(got, more, ll, dl);
    OverTwice(a, SeqBits(got, ll, dl), b, TokenBits(more, ll, dl), c);
    HoldsLater(s, t.output, u.output);
    ExpandSnoc(s.output, got, more);
  }

  lemma EndReached(ll: seq<nat>, dl: seq<nat>, a: Reader, s: Sink, got: seq<Token>, b: Reader, t: Sink, x: Token, c: Reader, u: Sink)
    requires SeqRead(ll, dl, a, s, got, b, t) && SymbolRead(ll, dl, b, t, Ended, x, c, u)
    ensures TokensRead(ll, dl, a, s, got, c, u)
  {
    hide Over, SymBits;
    OverTwice(a, SeqBits(got, ll, dl), b, SymBits(ll, END_OF_BLOCK), c);
  }

  /** The situation in the loop when a block `want` comes first and part of it was read. */
  ghost predicate Midway(ll: seq<nat>, dl: seq<nat>, a: Reader, s: Sink, want: seq<Token>, later: nat, got: seq<Token>, b: Reader, t: Sink) {
    TokensAhead(ll, dl, a, s, want, later) && SeqRead(ll, dl, a, s, got, b, t) && got <= want
  }

  /** What comes next then. */
  ghost predicate NextIs(ll: seq<nat>, dl: seq<nat>, want: seq<Token>, got: seq<Token>, b: Reader, t: Sink, next: Token, rest: nat) {
    if |got| < |want| then next == want[|got|] && TokenAhead(ll, dl, b, next, |t.output|, rest) else EndAhead(ll, b, rest)
  }

  lemma NextDue(ll: seq<nat>, dl: seq<nat>, a: Reader, s: Sink, want: seq<Token>, later: nat, got: seq<Token>, b: Reader, t: Sink)
    returns (next: Token, rest: nat)
    requires Midway(ll, dl, a, s, want, later, got, b, t)
    ensures NextIs(ll, dl, want, got, b, t, next, rest)
  {
    hide Over, Ahead, Cat, TokenBits, SymBits, Writable;
    var k := |got|;
    next, rest := Literal(0), later;
    assert want[..k] == got;
    if k < |want| {
      next := want[k];
      var tail := TokensSplit(want, k, ll, dl);
      AheadAfter(a, SeqBits(got, ll, dl), b, TokenBits(next, ll, dl) + tail, later);
      AheadPart(b, TokenBits(next, ll, dl), tail, later);
      rest := Cat(tail, later);
      LegalPrefix(s.output, want, k + 1);
      assert want[..k + 1] == got + [next];
      ExpandSnoc(s.output, got, next);
    } else {
      assert got == want;
      AheadAfter(a, SeqBits(got, ll, dl), b, SymBits(ll, END_OF_BLOCK), later);
    }
  }

  lemma HoldsLess(s: Sink, a: nat, b: nat)
    requires s.expandable ==> s.limit > 0
    requires a <= b && s.Holds(b)
    ensures s.Holds(a)
  {
    if s.limit < a { GrownGrown(s.limit, a, b); }
  }

  lemma DueMore(ll: seq<nat>, dl: seq<nat>, a: Reader, s: Sink, want: seq<Token>, later: nat, got: seq<Token>, b: Reader, t: Sink,
                next: Token, rest: nat, x: Token)
    requires Midway(ll, dl, a, s, want, later, got, b, t) && NextIs(ll, dl, want, got, b, t, next, rest)
    requires SymbolDue(ll, dl, b, t, next, rest, More, x)
    ensures got + [x] <= want
  {
    hide Over, Ahead, SeqBits, TokensBits, TokenBits, Sink.Holds, Sink.Holding, AllWritable, AllLegal, ExpandTokens, ExpandToken, Writable, Legal;
    assert |got| < |want|;
  }

  lemma DueEnded(ll: seq<nat>, dl: seq<nat>, a: Reader, s: Sink, want: seq<Token>, later: nat, got: seq<Token>, b: Reader, t: Sink,
                 next: Token, rest: nat, x: Token)
    requires Midway(ll, dl, a, s, want, later, got, b, t) && NextIs(ll, dl, want, got, b, t, next, rest)
    requires SymbolDue(ll, dl, b, t, next, rest, Ended, x)
    ensures TokensDue(s, want, true, got)
  {
    hide Over, Ahead, SeqBits, Sink.Holds, Sink.Holding, ExpandToken, Writable, Legal;
    assert got == want;
  }

  lemma DueFailed(ll: seq<nat>, dl: seq<nat>, a: Reader, s: Sink, want: seq<Token>, later: nat, got: seq<Token>, b: Reader, t: Sink,
                  next: Token, rest: nat, x: Token)
    requires Midway(ll, dl, a, s, want, later, got, b, t) && NextIs(ll, dl, want, got, b, t, next, rest)
    requires SymbolDue(ll, dl, b, t, next, rest, Failed, x)
    ensures TokensDue(s, want, false, got)
  {
    hide Over, Ahead, SeqBits, Grown, ExpandToken, Legal, Writable, TokenBits;
    var k := |got|;
    assert want[..k] == got && want[..k + 1] == got + [next];
    LegalPrefix(s.output, want, k);
    LegalPrefix(s.output, want, k + 1);
    ExpandSnoc(s.output, got, next);
    var out := ExpandTokens(s.output, got + [next]);
    HoldsLater(s, t.output, out);
    if s.Holds(|ExpandTokens(s.output, want)|) {
      HoldsLess(s, |out|, |ExpandTokens(s.output, want)|);
    }
  }

  // ----- dynamic code lengths

  predicate CountsOk(hlit: nat, hdist: nat, hclen: nat) {
    257 <= hlit < 257 + 32 && 1 <= hdist < 1 + 32 && 4 <= hclen < 4 + 16
  }

  lemma Powers5()
    ensures Pow2(5) == 32 && Pow2(4) == 16 && Pow2(3) == 8 && Pow2(2) == 4 && Pow2(7) == 128
  {
    Pow2Values();
  }

  lemma NoClens(a: Reader)
    ensures Over(a, ClenBits([]), a)
  {
  }

  lemma NextClen(a: Reader, want: seq<nat>, y: seq<bool>, later: nat, got: seq<nat>, b: Reader, s: nat, c: Reader)
    requires Small(want) && got < want && Ahead(a, ClenBits(want) + y, later)
    requires Over(a, ClenBits(got), b) && s < Pow2(3) && Over(b, DataBits(s, 3), c)
    ensures got + [s] <= want
  {
    hide Over, Ahead, DataBits, ClenBits, Pow2;
    Powers5();
    var k := |got|;
    var tail := ClenSplit(want, k);
    assert want[..k] == got;
    assert ClenBits(want) + y == ClenBits(got) + (DataBits(want[k], 3) + (tail + y));
    AheadAfter(a, ClenBits(got), b, DataBits(want[k], 3) + (tail + y), later);
    WantData(b, s, c, want[k], 3, tail + y, later);
  }

  ghost predicate RunsOk(rs: seq<Run>, cl: seq<nat>, ntot: nat) {
    AllRunsWritable(rs, cl) && StartsWell(rs) && |Lens(rs)| == ntot
  }

  lemma NoRuns(a: Reader, cl: seq<nat>)
    ensures Over(a, RunsBits([], cl), a) && Lens([]) == []
  {
  }

  /** What one run adds to the lengths. */
  lemma RunGives(got: seq<Run>, run: Run, c: nat, count: nat, cl: seq<nat>)
    requires RunWritable(run, cl) && RunSymbol(run) == c && RunCount(run) == count
    ensures c < 16 ==> Extend(Lens(got), run) == Lens(got) + [c]
    ensures c >= 16 ==> 3 <= count <= 138
    ensures c == 16 <==> run.Again?
    ensures c == 16 ==> Extend(Lens(got), run) == Lens(got) + Times(count, if Lens(got) == [] then 0 else Lens(got)[|Lens(got)| - 1])
    ensures c > 16 ==> Extend(Lens(got), run) == Lens(got) + Times(count, 0)
  {
  }

  lemma NextRun(a: Reader, want: seq<Run>, cl: seq<nat>, ntot: nat, later: nat, got: seq<Run>, b: Reader) returns (next: Run, tail: seq<bool>)
    requires RunsOk(want, cl, ntot) && Ahead(a, RunsBits(want, cl), later) && got <= want
    requires AllRunsWritable(got, cl) && Over(a, RunsBits(got, cl), b) && |Lens(got)| < ntot
    ensures |got| < |want| && next == want[|got|] && RunWritable(next, cl) && Ahead(b, RunBits(next, cl) + tail, later)
  {
    hide Over, Ahead, RunBits, RunsBits, RunWritable, Lens;
    var k := |got|;
    assert want[..k] == got;
    assert k == |want| ==> got == want;
    next := want[k];
    tail := RunsSplit(want, k, cl);
    AheadAfter(a, RunsBits(got, cl), b, RunBits(next, cl) + tail, later);
  }

  lemma RunFits(want: seq<Run>, cl: seq<nat>, ntot: nat, got: seq<Run>, run: Run)
    requires RunsOk(want, cl, ntot) && got < want && run == want[|got|]
    ensures |Extend(Lens(got), run)| <= ntot && got + [run] <= want && StartsWell(got + [run])
  {
    LensPrefix(want, |got| + 1);
    assert want[..|got| + 1] == got + [run];
    assert (got + [run])[..|got|] == got;
  }

  lemma AllRuns(want: seq<Run>, got: seq<Run>, cl: seq<nat>, ntot: nat)
    requires RunsOk(want, cl, ntot) && got <= want && |Lens(got)| == ntot
    ensures got == want
  {
    assert want[..|got|] == got;
    if |got| < |want| { LensStrict(want, |got|); }
  }

  lemma SmallLengths(clens: seq<nat>)
    requires |clens| <= 19 && Small(clens)
    ensures Lengths(CodeLengths(clens, |clens|))
  {
  }

  lemma RunsLengths(rs: seq<Run>, cl: seq<nat>, hlit: nat, hdist: nat)
    requires RunsOk(rs, cl, hlit + hdist)
    ensures Lengths(Lens(rs)) && Lengths(Lens(rs)[..hlit]) && Lengths(Lens(rs)[hlit..])
  {
    hide Lens;
    LensBound(rs);
  }

  lemma ReadableSizes(h: Header)
    requires h.Readable()
    ensures |Lens(h.runs)| == h.hlit + h.hdist && h.hlit <= 288 && h.hdist <= 32 && Lengths(h.Ll()) && Lengths(h.Dl())
  {
    hide Lens, Fits;
  }
}
