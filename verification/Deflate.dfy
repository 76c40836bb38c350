/** The DEFLATE format, sections 3.2.3 to 3.2.7 of RFC 1951: what a compressed stream is made of,
    how it is written as bits, and the bytes it stands for.  Nothing here decodes. */
module Deflate {
  import opened Bits
  import opened Canonical

  // ----- bytes as bits

  function BytesBits(bytes: seq<Byte>): (b: seq<bool>)
    ensures |b| == 8 * |bytes|
  {
    if bytes == [] then [] else DataBits(bytes[0], 8) + BytesBits(bytes[1..])
  }

  lemma {:induction false} BytesCat(bytes: seq<Byte>)
    ensures BytesValue(bytes) == Cat(BytesBits(bytes), 0)
  {
    if bytes != [] {
      BytesCat(bytes[1..]);
      CatCat(DataBits(bytes[0], 8), BytesBits(bytes[1..]), 0);
      ByteSplit(bytes[0], Cat(BytesBits(bytes[1..]), 0));
    }
  }

  lemma ByteSplit(b: Byte, rest: nat)
    ensures Cat(DataBits(b, 8), rest) == b + 256 * rest
  {
    Pow2Values();
    CatData(b, 8, rest);
    Split(Cat(DataBits(b, 8), rest), 8);
  }

  /** Bytes that start with the bits of `data` start with `data`. */
  lemma {:induction false} BytesPrefix(bytes: seq<Byte>, data: seq<Byte>, rest: nat)
    requires BytesValue(bytes) == Cat(BytesBits(data), rest) && |data| <= |bytes|
    ensures bytes[..|data|] == data && BytesValue(bytes[|data|..]) == rest
  {
    if data == [] {
      assert bytes[0..] == bytes;
    } else {
      CatCat(DataBits(data[0], 8), BytesBits(data[1..]), rest);
      ByteSplit(data[0], Cat(BytesBits(data[1..]), rest));
      assert bytes[0] == data[0];
      BytesPrefix(bytes[1..], data[1..], rest);
      assert bytes[1..][|data| - 1..] == bytes[|data|..];
      assert bytes[..|data|] == [bytes[0]] + bytes[1..][..|data| - 1];
    }
  }

  // ----- literals and matches

  /** One symbol of a compressed block; a match carries the symbols and extra bits it is written with. */
  datatype Token = Literal(b: Byte) | Match(lsym: nat, lextra: nat, dsym: nat, dextra: nat)

  const END_OF_BLOCK := 256

  const LENGTH_BASE: seq<nat> := [
    3, 4, 5, 6, 7, 8, 9, 10, 11, 13, 15, 17, 19, 23, 27, 31, 35, 43, 51, 59, 67, 83, 99, 115, 131, 163, 195, 227, 258, 0, 0]
  const LENGTH_EXTRA: seq<nat> := [
    0, 0, 0, 0, 0, 0, 0, 0, 1, 1, 1, 1, 2, 2, 2, 2, 3, 3, 3, 3, 4, 4, 4, 4, 5, 5, 5, 5, 0, 0, 0]
  const DIST_BASE: seq<nat> := [
    1, 2, 3, 4, 5, 7, 9, 13, 17, 25, 33, 49, 65, 97, 129, 193, 257, 385, 513, 769, 1025, 1537, 2049, 3073, 4097, 6145, 8193, 12289, 16385, 24577, 0, 0]
  const DIST_EXTRA: seq<nat> := [
    0, 0, 0, 0, 1, 1, 2, 2, 3, 3, 4, 4, 5, 5, 6, 6, 7, 7, 8, 8, 9, 9, 10, 10, 11, 11, 12, 12, 13, 13, 0, 0]

  predicate HasCode(ls: seq<nat>, i: nat) {
    i < |ls| && ls[i] > 0
  }

  /** Everything in a match but the length code can be written. */
  predicate MatchWritable(t: Token, dl: seq<nat>)
    requires t.Match?
  {
    && 257 <= t.lsym < 288 && t.lextra < Pow2(LENGTH_EXTRA[t.lsym - 257])
    && t.dsym < 32 && HasCode(dl, t.dsym) && t.dextra < Pow2(DIST_EXTRA[t.dsym])
  }

  /** The token can be written with the literal/length lengths `ll` and the distance lengths `dl`. */
  predicate Writable(t: Token, ll: seq<nat>, dl: seq<nat>) {
    match t
    case Literal(b) => HasCode(ll, b)
    case Match(ls, _, _, _) => HasCode(ll, ls) && MatchWritable(t, dl)
  }

  function LengthOf(t: Token): nat
    requires t.Match? && 257 <= t.lsym < 288
  {
    LENGTH_BASE[t.lsym - 257] + t.lextra
  }

  function DistOf(t: Token): nat
    requires t.Match? && t.dsym < 32
  {
    DIST_BASE[t.dsym] + t.dextra
  }

  function SymBits(ls: seq<nat>, i: nat): seq<bool>
    requires HasCode(ls, i)
  {
    CodeBits(Code(ls, i), ls[i])
  }

  function DistanceBits(dl: seq<nat>, dsym: nat, dextra: nat): seq<bool>
    requires dsym < 32 && HasCode(dl, dsym)
  {
    SymBits(dl, dsym) + DataBits(dextra, DIST_EXTRA[dsym])
  }

  /** What follows the length code of a match. */
  function MatchTail(t: Token, dl: seq<nat>): seq<bool>
    requires t.Match? && MatchWritable(t, dl)
  {
    DataBits(t.lextra, LENGTH_EXTRA[t.lsym - 257]) + DistanceBits(dl, t.dsym, t.dextra)
  }

  lemma TableSizes()
    ensures |LENGTH_BASE| == 31 && |LENGTH_EXTRA| == 31 && |DIST_BASE| == 32 && |DIST_EXTRA| == 32
    ensures forall i | 0 <= i < 31 :: LENGTH_EXTRA[i] <= 5
    ensures forall i | 0 <= i < 32 :: DIST_EXTRA[i] <= 13
  {
  }

  // ----- section 3.2.5 of RFC 1951, by its rule

  /** Every base is the one before plus the number of values its extra bits distinguish. */
  predicate Stairs(base: seq<nat>, extra: seq<nat>, n: nat) {
    n <= |base| && n <= |extra| && forall i | 0 <= i < n - 1 :: base[i] + Pow2(extra[i]) == base[i + 1]
  }

  /** Length symbols: eight without extra bits, then four for every number of them from 1 to 5, from length 3 on without a gap; the
      last symbol is that of length 258. */
  lemma LengthTable(i: nat)
    requires i < 28
    ensures |LENGTH_BASE| == |LENGTH_EXTRA| == 31 && LENGTH_EXTRA[i] == (if i < 8 then 0 else i / 4 - 1) && LENGTH_BASE[0] == 3
    ensures i < 27 ==> LENGTH_BASE[i] + Pow2(LENGTH_EXTRA[i]) == LENGTH_BASE[i + 1]
    ensures LENGTH_BASE[27] == 227 && LENGTH_BASE[28] == 258 && LENGTH_EXTRA[28] == 0
  {
    Pow2Values();
  }

  /** Distance symbols: four without extra bits, then two for every number of them from 1 to 13, from distance 1 on without a gap. */
  lemma DistanceTable(i: nat)
    requires i < 30
    ensures |DIST_BASE| == |DIST_EXTRA| == 32 && DIST_EXTRA[i] == (if i < 4 then 0 else i / 2 - 1) && DIST_BASE[0] == 1
    ensures i < 29 ==> DIST_BASE[i] + Pow2(DIST_EXTRA[i]) == DIST_BASE[i + 1]
    ensures DIST_BASE[29] == 24577
  {
    Pow2Values();
  }

  /** On which step a value stands. */
  lemma {:induction false} StepOf(base: seq<nat>, extra: seq<nat>, n: nat, v: nat) returns (i: nat)
    requires n > 0 && Stairs(base, extra, n) && base[0] <= v < base[n - 1] + Pow2(extra[n - 1])
    ensures i < n && base[i] <= v < base[i] + Pow2(extra[i])
  {
    hide Pow2;
    if n == 1 || base[n - 1] <= v {
      i := n - 1;
    } else {
      i := StepOf(base, extra, n - 1, v);
    }
  }

  lemma {:induction false} StepsRise(base: seq<nat>, extra: seq<nat>, n: nat, i: nat, j: nat)
    requires Stairs(base, extra, n) && i < j < n
    ensures base[i] + Pow2(extra[i]) <= base[j]
  {
    hide Pow2;
    if i < j - 1 { StepsRise(base, extra, n, i, j - 1); }
  }

  /** Two values with their extra bits are equal only if symbol and extra bits are. */
  lemma StepUnique(base: seq<nat>, extra: seq<nat>, n: nat, i: nat, x: nat, j: nat, y: nat)
    requires Stairs(base, extra, n) && i < n && j < n && x < Pow2(extra[i]) && y < Pow2(extra[j]) && base[i] + x == base[j] + y
    ensures i == j && x == y
  {
    hide Pow2;
    if i < j { StepsRise(base, extra, n, i, j); }
    if j < i { StepsRise(base, extra, n, j, i); }
  }

  lemma TablesAreStairs()
    ensures Stairs(LENGTH_BASE, LENGTH_EXTRA, 28) && Stairs(DIST_BASE, DIST_EXTRA, 30)
  {
    hide LENGTH_BASE, LENGTH_EXTRA, DIST_BASE, DIST_EXTRA, Pow2;
    LengthTable(0);
    DistanceTable(0);
    forall i | 0 <= i < 27 ensures LENGTH_BASE[i] + Pow2(LENGTH_EXTRA[i]) == LENGTH_BASE[i + 1] { LengthTable(i); }
    forall i | 0 <= i < 29 ensures DIST_BASE[i] + Pow2(DIST_EXTRA[i]) == DIST_BASE[i + 1] { DistanceTable(i); }
  }

  /** Every length from 3 to 258 and every distance from 1 to 32768 can be written. */
  lemma EveryMatch(len: nat, dist: nat) returns (t: Token)
    requires 3 <= len <= 258 && 1 <= dist <= 32768
    ensures t.Match? && 257 <= t.lsym <= 284 && t.dsym <= 29 && LengthOf(t) == len && DistOf(t) == dist
    ensures |LENGTH_EXTRA| == 31 && |DIST_EXTRA| == 32 && t.lextra < Pow2(LENGTH_EXTRA[t.lsym - 257]) && t.dextra < Pow2(DIST_EXTRA[t.dsym])
  {
    hide LENGTH_BASE, LENGTH_EXTRA, DIST_BASE, DIST_EXTRA, Pow2;
    TablesAreStairs();
    LengthTable(27);
    DistanceTable(29);
    Pow2Values();
    var i := StepOf(LENGTH_BASE, LENGTH_EXTRA, 28, len);
    var j := StepOf(DIST_BASE, DIST_EXTRA, 30, dist);
    t := Match(i + 257, len - LENGTH_BASE[i], j, dist - DIST_BASE[j]);
  }

  /** And in one way only, but for length 258, which has a symbol of its own besides the one with five extra bits. */
  lemma OneMatch(s: Token, t: Token, dl: seq<nat>)
    requires s.Match? && t.Match? && MatchWritable(s, dl) && MatchWritable(t, dl) && Defined(s) && Defined(t)
    requires LengthOf(s) == LengthOf(t) && DistOf(s) == DistOf(t)
    ensures s.dsym == t.dsym && s.dextra == t.dextra && (LengthOf(s) == 258 || (s.lsym == t.lsym && s.lextra == t.lextra))
    ensures 3 <= LengthOf(s) <= 258 && 1 <= DistOf(s) <= 32768
    ensures LengthOf(s) == 258 <==> (s.lsym == 285 || (s.lsym == 284 && s.lextra == 31))
  {
    hide LENGTH_BASE, LENGTH_EXTRA, DIST_BASE, DIST_EXTRA, Pow2;
    TablesAreStairs();
    LengthTable(27);
    DistanceTable(29);
    Pow2Values();
    StepUnique(DIST_BASE, DIST_EXTRA, 30, s.dsym, s.dextra, t.dsym, t.dextra);
    DistanceRange(s.dsym, s.dextra);
    LengthRange(s.lsym - 257, s.lextra);
    LengthRange(t.lsym - 257, t.lextra);
    if s.lsym <= 284 && t.lsym <= 284 { StepUnique(LENGTH_BASE, LENGTH_EXTRA, 28, s.lsym - 257, s.lextra, t.lsym - 257, t.lextra); }
  }

  lemma LengthRange(i: nat, x: nat)
    requires i <= 28 && |LENGTH_EXTRA| == |LENGTH_BASE| == 31 && x < Pow2(LENGTH_EXTRA[i])
    ensures 3 <= LENGTH_BASE[i] + x <= 258 && (LENGTH_BASE[i] + x == 258 <==> i == 28 || (i == 27 && x == 31))
  {
    hide LENGTH_BASE, LENGTH_EXTRA, Pow2;
    TablesAreStairs();
    LengthTable(27);
    Pow2Values();
    if i < 27 { StepsRise(LENGTH_BASE, LENGTH_EXTRA, 28, i, 27); }
    if 0 < i < 28 { StepsRise(LENGTH_BASE, LENGTH_EXTRA, 28, 0, i); }
  }

  lemma DistanceRange(i: nat, x: nat)
    requires i <= 29 && |DIST_EXTRA| == |DIST_BASE| == 32 && x < Pow2(DIST_EXTRA[i])
    ensures 1 <= DIST_BASE[i] + x <= 32768
  {
    hide DIST_BASE, DIST_EXTRA, Pow2;
    TablesAreStairs();
    DistanceTable(29);
    Pow2Values();
    if i < 29 { StepsRise(DIST_BASE, DIST_EXTRA, 30, i, 29); }
    if 0 < i { StepsRise(DIST_BASE, DIST_EXTRA, 30, 0, i); }
  }

  /** What the tables hold for length symbol 286 and distance symbol 29. */
  lemma IdleEntries()
    ensures |LENGTH_BASE| == 31 && |LENGTH_EXTRA| == 31 && |DIST_BASE| == 32 && |DIST_EXTRA| == 32
    ensures LENGTH_BASE[29] == 0 && LENGTH_EXTRA[29] == 0 && DIST_BASE[29] == 24577 && DIST_EXTRA[29] == 13
  {
  }

  function TokenBits(t: Token, ll: seq<nat>, dl: seq<nat>): seq<bool>
    requires Writable(t, ll, dl)
  {
    match t
    case Literal(b) => SymBits(ll, b)
    case Match(ls, _, _, _) => SymBits(ll, ls) + MatchTail(t, dl)
  }

  predicate AllWritable(ts: seq<Token>, ll: seq<nat>, dl: seq<nat>) {
    forall i | 0 <= i < |ts| :: Writable(ts[i], ll, dl)
  }

  function SeqBits(ts: seq<Token>, ll: seq<nat>, dl: seq<nat>): seq<bool>
    requires AllWritable(ts, ll, dl)
  {
    if ts == [] then [] else SeqBits(ts[..|ts| - 1], ll, dl) + TokenBits(ts[|ts| - 1], ll, dl)
  }

  /** The tokens, then the end-of-block code. */
  function TokensBits(ts: seq<Token>, ll: seq<nat>, dl: seq<nat>): seq<bool>
    requires AllWritable(ts, ll, dl) && HasCode(ll, END_OF_BLOCK)
  {
    SeqBits(ts, ll, dl) + SymBits(ll, END_OF_BLOCK)
  }

  lemma SeqBitsSnoc(ts: seq<Token>, t: Token, ll: seq<nat>, dl: seq<nat>)
    requires AllWritable(ts, ll, dl) && Writable(t, ll, dl)
    ensures AllWritable(ts + [t], ll, dl)
    ensures SeqBits(ts + [t], ll, dl) == SeqBits(ts, ll, dl) + TokenBits(t, ll, dl)
  {
    assert (ts + [t])[..|ts|] == ts;
  }

  lemma {:induction false} SeqBitsPrefix(ts: seq<Token>, k: nat, ll: seq<nat>, dl: seq<nat>)
    requires AllWritable(ts, ll, dl) && k <= |ts|
    ensures SeqBits(ts[..k], ll, dl) <= SeqBits(ts, ll, dl)
  {
    if k == |ts| {
      assert ts[..k] == ts;
    } else {
      SeqBitsPrefix(ts[..|ts| - 1], k, ll, dl);
      assert ts[..|ts| - 1][..k] == ts[..k];
    }
  }

  /** After the first `k` tokens of a block come token `k` and the others. */
  lemma TokensSplit(ts: seq<Token>, k: nat, ll: seq<nat>, dl: seq<nat>) returns (tail: seq<bool>)
    requires AllWritable(ts, ll, dl) && HasCode(ll, END_OF_BLOCK) && k < |ts|
    ensures TokensBits(ts, ll, dl) == SeqBits(ts[..k], ll, dl) + (TokenBits(ts[k], ll, dl) + tail)
  {
    hide SymBits, TokenBits, Writable;
    var before, all, t := SeqBits(ts[..k], ll, dl), SeqBits(ts, ll, dl), TokenBits(ts[k], ll, dl);
    SeqBitsPrefix(ts, k + 1, ll, dl);
    assert ts[..k + 1][..k] == ts[..k];
    assert all[..|before| + |t|] == before + t;
    tail := all[|before| + |t|..] + SymBits(ll, END_OF_BLOCK);
    assert TokensBits(ts, ll, dl) == (before + t) + tail;
  }

  // ----- what tokens stand for

  /** LZ77: one byte after the other is fetched from `dist` bytes back, so the copied string may
      include bytes the copy itself has produced. */
  function CopyBack(out: seq<Byte>, dist: nat, len: nat): (r: seq<Byte>)
    requires 1 <= dist <= |out|
    ensures |r| == |out| + len && out <= r
  {
    if len == 0 then out
    else
      var r := CopyBack(out, dist, len - 1);
      r + [r[|r| - dist]]
  }

  /** Legal after `n` bytes of output. */
  predicate Legal(t: Token, n: nat) {
    t.Match? ==> 257 <= t.lsym <= 285 && t.dsym <= 29 && DistOf(t) <= n
  }

  /** The two length symbols 286 and 287 and the two distance symbols 30 and 31 can have codes, but section
      3.2.5 of RFC 1951 gives them no meaning. */
  predicate Defined(t: Token) {
    t.Match? ==> t.lsym <= 285 && t.dsym <= 29
  }

  predicate AllDefined(ts: seq<Token>) {
    forall t | t in ts :: Defined(t)
  }

  function ExpandToken(out: seq<Byte>, t: Token): (r: seq<Byte>)
    requires Legal(t, |out|)
    ensures |r| >= |out|
  {
    match t
    case Literal(b) => out + [b]
    case Match(_, _, _, _) => CopyBack(out, DistOf(t), LengthOf(t))
  }

  predicate AllLegal(out: seq<Byte>, ts: seq<Token>)
    decreases |ts|, 0
  {
    ts == [] || (AllLegal(out, ts[..|ts| - 1]) && Legal(ts[|ts| - 1], |ExpandTokens(out, ts[..|ts| - 1])|))
  }

  function ExpandTokens(out: seq<Byte>, ts: seq<Token>): (r: seq<Byte>)
    requires AllLegal(out, ts)
    ensures |r| >= |out|
    decreases |ts|, 1
  {
    if ts == [] then out else ExpandToken(ExpandTokens(out, ts[..|ts| - 1]), ts[|ts| - 1])
  }

  lemma ExpandSnoc(out: seq<Byte>, ts: seq<Token>, t: Token)
    ensures AllLegal(out, ts + [t]) <==> AllLegal(out, ts) && Legal(t, |ExpandTokens(out, ts)|)
    ensures AllLegal(out, ts + [t]) ==> ExpandTokens(out, ts + [t]) == ExpandToken(ExpandTokens(out, ts), t)
  {
    assert (ts + [t])[..|ts|] == ts;
  }

  lemma {:induction false} LegalPrefix(out: seq<Byte>, ts: seq<Token>, k: nat)
    requires AllLegal(out, ts) && k <= |ts|
    ensures AllLegal(out, ts[..k]) && |ExpandTokens(out, ts[..k])| <= |ExpandTokens(out, ts)|
  {
    if k == |ts| {
      assert ts[..k] == ts;
    } else {
      LegalPrefix(out, ts[..|ts| - 1], k);
      assert ts[..|ts| - 1][..k] == ts[..k];
    }
  }

  /** A code that matches is what the stream is written with. */
  lemma MatchCat(ls: seq<nat>, i: nat, stream: nat)
    requires i < |ls| && Matches(ls, i, stream)
    ensures stream == Cat(SymBits(ls, i), Shr(stream, ls[i]))
  {
    TopCat(stream, ls[i]);
  }

  /** A stream that starts with the code of a symbol is matched by that symbol. */
  lemma CodeFirst(ls: seq<nat>, i: nat, rest: nat)
    requires Lengths(ls) && Fits(ls) && HasCode(ls, i)
    ensures Matches(ls, i, Cat(SymBits(ls, i), rest))
  {
    EncodedMatches(ls, i, rest);
  }

  /** A stream starts with the code of at most one symbol. */
  lemma SymUnique(ls: seq<nat>, i: nat, j: nat, x: nat, y: nat)
    requires Lengths(ls) && Fits(ls) && HasCode(ls, i) && HasCode(ls, j)
    requires Cat(SymBits(ls, i), x) == Cat(SymBits(ls, j), y)
    ensures i == j && x == y
  {
    CodeFirst(ls, i, x);
    CodeFirst(ls, j, y);
    PrefixFree(ls, i, j, Cat(SymBits(ls, i), x));
    CatInjective(SymBits(ls, i), x, y);
  }

  lemma DataUnique(k: nat, l: nat, n: nat, x: nat, y: nat)
    requires k < Pow2(n) && l < Pow2(n)
    requires Cat(DataBits(k, n), x) == Cat(DataBits(l, n), y)
    ensures k == l && x == y
  {
    CatData(k, n, x);
    CatData(l, n, y);
  }

  /** `i % d`, by counting down. */
  function Wrap(i: nat, d: nat): (r: nat)
    requires d > 0
    ensures r < d
  {
    if i < d then i else Wrap(i - d, d)
  }

  lemma {:induction false} WrapMod(i: nat, d: nat)
    requires d > 0
    ensures Wrap(i, d) == i % d
    decreases i
  {
    if i >= d { WrapMod(i - d, d); ModStep(i, d); }
  }

  lemma {:induction false} CopyBackWraps(out: seq<Byte>, dist: nat, len: nat, i: nat)
    requires 1 <= dist <= |out| && i < len
    ensures CopyBack(out, dist, len)[|out| + i] == out[|out| - dist + Wrap(i, dist)]
    decreases len
  {
    if i < len - 1 {
      CopyBackWraps(out, dist, len - 1, i);
    } else if i >= dist {
      CopyBackWraps(out, dist, len - 1, i - dist);
    } else {
      assert out <= CopyBack(out, dist, len - 1);
    }
  }

  /** Closed form: a match repeats the last `dist` bytes. */
  lemma CopyBackPeriodic(out: seq<Byte>, dist: nat, len: nat, i: nat)
    requires 1 <= dist <= |out| && i < len
    ensures CopyBack(out, dist, len)[|out| + i] == out[|out| - dist + i % dist]
  {
    CopyBackWraps(out, dist, len, i);
    WrapMod(i, dist);
  }

  // ----- dynamic code lengths, section 3.2.7 of RFC 1951

  const ORDER: seq<nat> := [16, 17, 18, 0, 8, 7, 9, 6, 10, 5, 11, 4, 12, 3, 13, 2, 14, 1, 15]

  /** The place of a code length symbol in the order: the three repeat symbols, zero, and then outward from 8 to both sides. */
  function PlaceInOrder(s: nat): nat
    requires s < 19
  {
    if s >= 16 then s - 16 else if s == 0 then 3 else if s >= 8 then 4 + 2 * (s - 8) else 5 + 2 * (7 - s)
  }

  /** So the order has every symbol exactly once. */
  lemma OrderIs(s: nat, k: nat)
    requires s < 19 && k < 19
    ensures |ORDER| == 19 && ORDER[k] < 19 && (ORDER[k] == s <==> PlaceInOrder(s) == k)
  {
  }

  /** One symbol of the code length alphabet: a length, `n` copies of the last length, or `n` zeros. */
  datatype Run = Length(l: nat) | Again(n: nat) | Zeros(n: nat)

  predicate RunOk(r: Run) {
    match r
    case Length(l) => l < 16
    case Again(n) => 3 <= n <= 6
    case Zeros(n) => 3 <= n <= 138
  }

  function RunSymbol(r: Run): nat {
    match r
    case Length(l) => l
    case Again(_) => 16
    case Zeros(n) => if n <= 10 then 17 else 18
  }

  function RunTail(r: Run): seq<bool>
    requires RunOk(r)
  {
    match r
    case Length(_) => []
    case Again(n) => DataBits(n - 3, 2)
    case Zeros(n) => if n <= 10 then DataBits(n - 3, 3) else DataBits(n - 11, 7)
  }

  predicate RunWritable(r: Run, cl: seq<nat>) {
    RunOk(r) && HasCode(cl, RunSymbol(r))
  }

  function RunBits(r: Run, cl: seq<nat>): seq<bool>
    requires RunWritable(r, cl)
  {
    SymBits(cl, RunSymbol(r)) + RunTail(r)
  }

  predicate AllRunsWritable(rs: seq<Run>, cl: seq<nat>) {
    forall i | 0 <= i < |rs| :: RunWritable(rs[i], cl)
  }

  function RunsBits(rs: seq<Run>, cl: seq<nat>): seq<bool>
    requires AllRunsWritable(rs, cl)
  {
    if rs == [] then [] else RunsBits(rs[..|rs| - 1], cl) + RunBits(rs[|rs| - 1], cl)
  }

  function Times(n: nat, x: nat): (r: seq<nat>)
    ensures |r| == n && forall i | 0 <= i < n :: r[i] == x
  {
    seq(n, _ => x)
  }

  /** The lengths after one more run. */
  function Extend(lens: seq<nat>, r: Run): (e: seq<nat>)
    ensures lens <= e && (RunOk(r) ==> |e| > |lens|)
  {
    match r
    case Length(l) => lens + [l]
    case Again(n) => lens + Times(n, if lens == [] then 0 else lens[|lens| - 1])
    case Zeros(n) => lens + Times(n, 0)
  }

  /** The lengths the runs stand for; runs may cross from the literal/length to the distance lengths. */
  function Lens(rs: seq<Run>): seq<nat> {
    if rs == [] then [] else Extend(Lens(rs[..|rs| - 1]), rs[|rs| - 1])
  }

  /** No copy of a last length where there is none. */
  predicate StartsWell(rs: seq<Run>) {
    rs != [] ==> !rs[0].Again?
  }

  lemma RunsSnoc(rs: seq<Run>, r: Run, cl: seq<nat>)
    requires AllRunsWritable(rs, cl) && RunWritable(r, cl)
    ensures AllRunsWritable(rs + [r], cl)
    ensures RunsBits(rs + [r], cl) == RunsBits(rs, cl) + RunBits(r, cl)
    ensures Lens(rs + [r]) == Extend(Lens(rs), r)
  {
    assert (rs + [r])[..|rs|] == rs;
  }

  lemma {:induction false} LensPrefix(rs: seq<Run>, k: nat)
    requires k <= |rs|
    ensures Lens(rs[..k]) <= Lens(rs)
  {
    if k == |rs| {
      assert rs[..k] == rs;
    } else {
      LensPrefix(rs[..|rs| - 1], k);
      assert rs[..|rs| - 1][..k] == rs[..k];
    }
  }

  lemma {:induction false} LensStrict(rs: seq<Run>, k: nat)
    requires k < |rs| && forall i | 0 <= i < |rs| :: RunOk(rs[i])
    ensures |Lens(rs[..k])| < |Lens(rs)|
  {
    LensPrefix(rs[..|rs| - 1], k);
    assert rs[..|rs| - 1][..k] == rs[..k];
  }

  lemma {:induction false} LensBound(rs: seq<Run>)
    requires forall i | 0 <= i < |rs| :: RunOk(rs[i])
    ensures Lengths(Lens(rs))
  {
    if rs != [] { LensBound(rs[..|rs| - 1]); }
  }

  lemma {:induction false} RunsSplit(rs: seq<Run>, k: nat, cl: seq<nat>) returns (tail: seq<bool>)
    requires AllRunsWritable(rs, cl) && k < |rs|
    ensures RunsBits(rs, cl) == RunsBits(rs[..k], cl) + (RunBits(rs[k], cl) + tail)
  {
    hide RunBits, RunWritable;
    if k == |rs| - 1 {
      tail := [];
      assert RunBits(rs[k], cl) + tail == RunBits(rs[k], cl);
    } else {
      var init, last := rs[..|rs| - 1], RunBits(rs[|rs| - 1], cl);
      var t := RunsSplit(init, k, cl);
      assert init[..k] == rs[..k];
      tail := t + last;
      assert RunsBits(rs[..k], cl) + (RunBits(rs[k], cl) + t) + last == RunsBits(rs[..k], cl) + (RunBits(rs[k], cl) + (t + last));
    }
  }

  predicate Small(clens: seq<nat>) {
    forall i | 0 <= i < |clens| :: clens[i] < 8
  }

  function ClenBits(clens: seq<nat>): seq<bool> {
    if clens == [] then [] else ClenBits(clens[..|clens| - 1]) + DataBits(clens[|clens| - 1], 3)
  }

  lemma ClenSnoc(clens: seq<nat>, x: nat)
    ensures ClenBits(clens + [x]) == ClenBits(clens) + DataBits(x, 3)
  {
    assert (clens + [x])[..|clens|] == clens;
  }

  lemma {:induction false} ClenSplit(clens: seq<nat>, k: nat) returns (tail: seq<bool>)
    requires k < |clens|
    ensures ClenBits(clens) == ClenBits(clens[..k]) + (DataBits(clens[k], 3) + tail)
  {
    hide DataBits;
    if k == |clens| - 1 {
      tail := [];
      assert DataBits(clens[k], 3) + tail == DataBits(clens[k], 3);
    } else {
      var init, last := clens[..|clens| - 1], DataBits(clens[|clens| - 1], 3);
      var t := ClenSplit(init, k);
      assert init[..k] == clens[..k];
      tail := t + last;
      assert ClenBits(clens[..k]) + (DataBits(clens[k], 3) + t) + last == ClenBits(clens[..k]) + (DataBits(clens[k], 3) + (t + last));
    }
  }

  /** The code length code: the first `n` of `clens`, put in their places. */
  function CodeLengths(clens: seq<nat>, n: nat): (cl: seq<nat>)
    requires n <= |clens| <= 19
    ensures |cl| == 19 && (Small(clens) ==> Small(cl))
  {
    if n == 0 then Times(19, 0) else CodeLengths(clens, n - 1)[ORDER[n - 1] := clens[n - 1]]
  }

  lemma {:induction false} CodeLengthsPrefix(clens: seq<nat>, x: nat, n: nat)
    requires n <= |clens| < 19
    ensures CodeLengths(clens + [x], n) == CodeLengths(clens, n)
  {
    if n > 0 { CodeLengthsPrefix(clens, x, n - 1); }
  }

  /** What a dynamic block starts with. */
  datatype Header = Header(hlit: nat, hdist: nat, clens: seq<nat>, runs: seq<Run>) {

    function Cl(): seq<nat>
      requires |clens| <= 19
    {
      CodeLengths(clens, |clens|)
    }

    predicate Shaped() {
      257 <= hlit < 257 + 32 && 1 <= hdist < 1 + 32 && 4 <= |clens| <= 19 && Small(clens)
    }

    /** The header can be written and read. */
    ghost predicate Readable() {
      && Shaped() && Lengths(Cl()) && Fits(Cl())
      && AllRunsWritable(runs, Cl()) && StartsWell(runs) && |Lens(runs)| == hlit + hdist
      && Lengths(Lens(runs))
    }

    /** Also the lengths it gives are those of two codes. */
    ghost predicate Ok() {
      Readable() && Fits(Ll()) && Fits(Dl())
    }

    function Ll(): seq<nat>
      requires |Lens(runs)| == hlit + hdist
    {
      Lens(runs)[..hlit]
    }

    function Dl(): seq<nat>
      requires |Lens(runs)| == hlit + hdist
    {
      Lens(runs)[hlit..]
    }

    function Encoded(): seq<bool>
      requires Shaped() && AllRunsWritable(runs, Cl())
    {
      CountsBits(hlit, hdist, |clens|) + (ClenBits(clens) + RunsBits(runs, Cl()))
    }
  }

  function CountsBits(hlit: nat, hdist: nat, hclen: nat): seq<bool>
    requires 257 <= hlit && 1 <= hdist && 4 <= hclen
  {
    DataBits(hlit - 257, 5) + (DataBits(hdist - 1, 5) + DataBits(hclen - 4, 4))
  }

  function RunCount(r: Run): nat {
    if r.Length? then 1 else r.n
  }

  // ----- stored blocks, section 3.2.4 of RFC 1951

  /** After the block header: the ignored bits up to the byte boundary, LEN, NLEN and the data. */
  function StoredBits(pad: seq<bool>, data: seq<Byte>): seq<bool>
    requires |data| < 0x1_0000
  {
    pad + (DataBits(|data|, 16) + DataBits(0xFFFF - |data|, 16) + BytesBits(data))
  }

  lemma {:induction false} DataSplit(lo: nat, hi: nat, n: nat, m: nat)
    requires lo < Pow2(n)
    ensures DataBits(lo + Pow2(n) * hi, n + m) == DataBits(lo, n) + DataBits(hi, m)
  {
    if n == 0 {
    } else {
      var half := Pow2(n - 1) * hi;
      assert Pow2(n) * hi == 2 * half;
      assert (lo + Pow2(n) * hi) / 2 == lo / 2 + half && (lo + Pow2(n) * hi) % 2 == lo % 2;
      DataSplit(lo / 2, hi, n - 1, m);
      assert n - 1 + m == n + m - 1;
    }
  }

  lemma {:induction false} BytesBitsSnoc(s: seq<Byte>, b: Byte)
    ensures BytesBits(s + [b]) == BytesBits(s) + DataBits(b, 8)
  {
    if s == [] {
      assert s + [b] == [b] && [b][1..] == [];
    } else {
      assert (s + [b])[1..] == s[1..] + [b];
      BytesBitsSnoc(s[1..], b);
    }
  }

  /** The unread bytes start with the bits of their first `k`. */
  lemma {:induction false} BytesCatPart(bytes: seq<Byte>, k: nat)
    requires k <= |bytes|
    ensures BytesValue(bytes) == Cat(BytesBits(bytes[..k]), BytesValue(bytes[k..]))
  {
    if k > 0 {
      var b, rest := bytes[0], bytes[1..];
      BytesCatPart(rest, k - 1);
      assert bytes[..k][1..] == rest[..k - 1] && bytes[k..] == rest[k - 1..];
      CatCat(DataBits(b, 8), BytesBits(rest[..k - 1]), BytesValue(bytes[k..]));
      ByteSplit(b, Cat(BytesBits(rest[..k - 1]), BytesValue(bytes[k..])));
    } else {
      assert bytes[0..] == bytes;
    }
  }

  function Word(lo: nat, hi: nat): nat {
    hi * 256 + lo
  }

  /** Four header bytes are two 16-bit numbers, and also one of 32 bits. */
  lemma HeaderBytes(h: seq<Byte>)
    requires |h| == 4
    ensures var len, nlen := Word(h[0], h[1]), Word(h[2], h[3]);
            BytesBits(h) == DataBits(len, 16) + DataBits(nlen, 16) == DataBits(len + 0x1_0000 * nlen, 32)
  {
    hide DataBits, Pow2;
    Pow2Values();
    var len, nlen := Word(h[0], h[1]), Word(h[2], h[3]);
    DataSplit(h[0], h[1], 8, 8);
    DataSplit(h[2], h[3], 8, 8);
    DataSplit(len, nlen, 16, 16);
    var d0, d1, d2, d3 := DataBits(h[0], 8), DataBits(h[1], 8), DataBits(h[2], 8), DataBits(h[3], 8);
    assert h[1..] == [h[1], h[2], h[3]] && h[1..][1..] == [h[2], h[3]] && h[1..][1..][1..] == [h[3]] && h[1..][1..][1..][1..] == [];
    assert BytesBits(h) == d0 + BytesBits(h[1..]);
    assert BytesBits(h[1..]) == d1 + BytesBits(h[1..][1..]);
    assert BytesBits(h[1..][1..]) == d2 + BytesBits(h[1..][1..][1..]);
    assert BytesBits(h[1..][1..][1..]) == d3 + BytesBits(h[1..][1..][1..][1..]);
    assert d0 + (d1 + (d2 + (d3 + []))) == (d0 + d1) + (d2 + d3);
  }

  // ----- fixed codes, section 3.2.6 of RFC 1951

  const FIXED_LENGTHS: seq<nat> := Times(144, 8) + Times(112, 9) + Times(24, 7) + Times(8, 8)
  const FIXED_DISTANCES: seq<nat> := Times(32, 5)

  lemma {:induction false} FixedKraft(n: nat)
    requires n <= 288
    ensures Lengths(FIXED_LENGTHS)
    ensures Kraft(FIXED_LENGTHS, n)
         == if n <= 144 then 128 * n else if n <= 256 then 18432 + 64 * (n - 144)
            else if n <= 280 then 25600 + 256 * (n - 256) else 31744 + 128 * (n - 280)
  {
    Pow2Values();
    if n > 0 { FixedKraft(n - 1); }
  }

  lemma {:induction false} FixedDistanceKraft(n: nat)
    requires n <= 32
    ensures Lengths(FIXED_DISTANCES) && Kraft(FIXED_DISTANCES, n) == 1024 * n
  {
    Pow2Values();
    if n > 0 { FixedDistanceKraft(n - 1); }
  }

  /** Both fixed alphabets are complete codes. */
  lemma FixedFits()
    ensures Lengths(FIXED_LENGTHS) && Fits(FIXED_LENGTHS) && Kraft(FIXED_LENGTHS, 288) == Pow2(MAX_BITS)
    ensures Lengths(FIXED_DISTANCES) && Fits(FIXED_DISTANCES) && Kraft(FIXED_DISTANCES, 32) == Pow2(MAX_BITS)
  {
    hide Fits, Kraft;
    Pow2Values();
    FixedKraft(288);
    FixedDistanceKraft(32);
    FitsIffKraft(FIXED_LENGTHS);
    FitsIffKraft(FIXED_DISTANCES);
  }

  /** The table of section 3.2.6: the codes start at 00110000, 110010000, 0000000 and 11000000. */
  lemma FixedCodes(i: nat)
    requires i < 288
    ensures |FIXED_LENGTHS| == 288
    ensures i < 144 ==> FIXED_LENGTHS[i] == 8 && Code(FIXED_LENGTHS, i) == 0x30 + i
    ensures 144 <= i < 256 ==> FIXED_LENGTHS[i] == 9 && Code(FIXED_LENGTHS, i) == 0x190 + (i - 144)
    ensures 256 <= i < 280 ==> FIXED_LENGTHS[i] == 7 && Code(FIXED_LENGTHS, i) == i - 256
    ensures 280 <= i ==> FIXED_LENGTHS[i] == 8 && Code(FIXED_LENGTHS, i) == 0xC0 + (i - 280)
  {
    hide Count, First, Total;
    FixedFirst();
    FixedCount(i, 7);
    FixedCount(i, 8);
    FixedCount(i, 9);
  }

  lemma {:induction false} FixedCount(n: nat, l: nat)
    requires n <= 288
    ensures |FIXED_LENGTHS| == 288
    ensures Count(FIXED_LENGTHS, n, l) ==
              if l == 7 then (if n <= 256 then 0 else if n <= 280 then n - 256 else 24)
              else if l == 8 then (if n <= 144 then n else if n <= 280 then 144 else 144 + (n - 280))
              else if l == 9 then (if n <= 144 then 0 else if n <= 256 then n - 144 else 112)
              else 0
  {
    if n > 0 { FixedCount(n - 1, l); }
  }

  lemma FixedFirst()
    ensures First(FIXED_LENGTHS, 7) == 0 && First(FIXED_LENGTHS, 8) == 0x30 && First(FIXED_LENGTHS, 9) == 0x190
  {
    hide Count;
    FixedLow(7);
    FixedCount(288, 7);
    FixedCount(288, 8);
  }

  lemma {:induction false} FixedLow(l: nat)
    requires l <= 7
    ensures First(FIXED_LENGTHS, l) == 0
  {
    hide Count;
    if l > 1 {
      FixedLow(l - 1);
      FixedCount(288, l - 1);
    }
  }

  lemma FixedDistanceCodes(i: nat)
    requires i < 32
    ensures |FIXED_DISTANCES| == 32 && FIXED_DISTANCES[i] == 5 && Code(FIXED_DISTANCES, i) == i
  {
    hide Count;
    FixedDistanceLow(5);
    FixedDistanceCount(i, 5);
  }

  lemma {:induction false} FixedDistanceCount(n: nat, l: nat)
    requires n <= 32
    ensures |FIXED_DISTANCES| == 32 && Count(FIXED_DISTANCES, n, l) == if l == 5 then n else 0
  {
    if n > 0 { FixedDistanceCount(n - 1, l); }
  }

  lemma {:induction false} FixedDistanceLow(l: nat)
    requires l <= 5
    ensures First(FIXED_DISTANCES, l) == 0
  {
    hide Count;
    if l > 1 {
      FixedDistanceLow(l - 1);
      FixedDistanceCount(32, l - 1);
    }
  }

  // ----- blocks, section 3.2.3 of RFC 1951

  datatype Block =
    | Stored(pad: seq<bool>, data: seq<Byte>)
    | Fixed(tokens: seq<Token>)
    | Dynamic(header: Header, tokens: seq<Token>)

  /** The block can be written with `pad` bits to the byte boundary after its three header bits. */
  ghost predicate BlockShaped(b: Block, pad: nat) {
    if b.Stored? then |b.pad| == pad && |b.data| < 0x1_0000
    else if b.Fixed? then AllWritable(b.tokens, FIXED_LENGTHS, FIXED_DISTANCES)
    else DynamicShaped(b.header, b.tokens)
  }

  /** The all-zero stream, which is what is read behind the end of the input, does not start with one
      of the two length symbols without a meaning.  Section 3.2.7 of RFC 1951 allows at most 286 literal and
      length codes, so none of its headers has any. */
  predicate ZeroProduces(ll: seq<nat>) {
    forall i: nat | 286 <= i < |ll| :: !Matches(ll, i, 0)
  }

  ghost predicate DynamicShaped(h: Header, ts: seq<Token>) {
    h.Ok() && ZeroProduces(h.Ll()) && HasCode(h.Ll(), END_OF_BLOCK) && AllWritable(ts, h.Ll(), h.Dl())
  }

  function BlockType(b: Block): nat {
    match b
    case Stored(_, _) => 0
    case Fixed(_) => 1
    case Dynamic(_, _) => 2
  }

  ghost function BodyBits(b: Block, pad: nat): seq<bool>
    requires BlockShaped(b, pad)
  {
    if b.Stored? then StoredBits(b.pad, b.data)
    else if b.Fixed? then TokensBits(b.tokens, FIXED_LENGTHS, FIXED_DISTANCES)
    else b.header.Encoded() + TokensBits(b.tokens, b.header.Ll(), b.header.Dl())
  }

  ghost function BlockBits(b: Block, pad: nat, final: bool): seq<bool>
    requires BlockShaped(b, pad)
  {
    DataBits(if final then 1 else 0, 1) + (DataBits(BlockType(b), 2) + BodyBits(b, pad))
  }

  ghost predicate BlockLegal(b: Block, out: seq<Byte>) {
    b.Stored? || AllLegal(out, b.tokens)
  }

  predicate BlockDefined(b: Block) {
    b.Stored? || AllDefined(b.tokens)
  }

  predicate BlocksDefined(bs: seq<Block>) {
    forall b | b in bs :: BlockDefined(b)
  }

  ghost function BlockOutput(b: Block, out: seq<Byte>): (r: seq<Byte>)
    requires BlockLegal(b, out)
    ensures |r| >= |out|
  {
    if b.Stored? then out + b.data else ExpandTokens(out, b.tokens)
  }

  // ----- the whole stream

  /** Bits from the end of a block header that starts at bit `pos` to the next byte boundary. */
  function PadAt(pos: nat): nat {
    (8 - (pos + 3) % 8) % 8
  }

  ghost predicate BlocksShaped(bs: seq<Block>)
    decreases |bs|, 0
  {
    bs == [] || (BlocksShaped(bs[..|bs| - 1]) && BlockShaped(bs[|bs| - 1], PadAt(|BlocksBits(bs[..|bs| - 1], false)|)))
  }

  /** The blocks in order; only the last may be marked as final. */
  ghost function BlocksBits(bs: seq<Block>, final: bool): seq<bool>
    requires BlocksShaped(bs)
    decreases |bs|, 1
  {
    if bs == [] then []
    else BlocksBits(bs[..|bs| - 1], false)
         + BlockBits(bs[|bs| - 1], PadAt(|BlocksBits(bs[..|bs| - 1], false)|), final)
  }

  ghost predicate BlocksLegal(bs: seq<Block>, out: seq<Byte>)
    decreases |bs|, 0
  {
    bs == [] || (BlocksLegal(bs[..|bs| - 1], out) && BlockLegal(bs[|bs| - 1], BlocksOutput(bs[..|bs| - 1], out)))
  }

  /** The bytes the stream stands for, after those of `out`. */
  ghost function BlocksOutput(bs: seq<Block>, out: seq<Byte>): (r: seq<Byte>)
    requires BlocksLegal(bs, out)
    ensures |r| >= |out|
    decreases |bs|, 1
  {
    if bs == [] then out else BlockOutput(bs[|bs| - 1], BlocksOutput(bs[..|bs| - 1], out))
  }

  lemma BlocksSnoc(bs: seq<Block>, b: Block, final: bool)
    requires BlocksShaped(bs) && BlockShaped(b, PadAt(|BlocksBits(bs, false)|))
    ensures BlocksShaped(bs + [b])
    ensures BlocksBits(bs + [b], final) == BlocksBits(bs, false) + BlockBits(b, PadAt(|BlocksBits(bs, false)|), final)
  {
    hide BlockBits, BlockShaped;
    assert (bs + [b])[..|bs|] == bs;
  }

  lemma OutputSnoc(bs: seq<Block>, b: Block, out: seq<Byte>)
    ensures BlocksLegal(bs + [b], out) <==> BlocksLegal(bs, out) && BlockLegal(b, BlocksOutput(bs, out))
    ensures BlocksLegal(bs + [b], out) ==> BlocksOutput(bs + [b], out) == BlockOutput(b, BlocksOutput(bs, out))
  {
    hide BlockLegal, BlockOutput;
    assert (bs + [b])[..|bs|] == bs;
  }

  lemma {:induction false} OutputPrefix(bs: seq<Block>, k: nat, out: seq<Byte>)
    requires BlocksLegal(bs, out) && k <= |bs|
    ensures BlocksLegal(bs[..k], out) && |BlocksOutput(bs[..k], out)| <= |BlocksOutput(bs, out)|
  {
    hide BlockLegal, BlockOutput;
    if k == |bs| {
      assert bs[..k] == bs;
    } else {
      OutputPrefix(bs[..|bs| - 1], k, out);
      assert bs[..|bs| - 1][..k] == bs[..k];
    }
  }

  /** After the first `k` blocks of a stream come block `k`, final exactly if it is the last, and the others. */
  lemma {:induction false} BlocksSplit(bs: seq<Block>, k: nat, final: bool) returns (tail: seq<bool>)
    requires BlocksShaped(bs) && k < |bs|
    ensures BlocksShaped(bs[..k]) && BlockShaped(bs[k], PadAt(|BlocksBits(bs[..k], false)|))
    ensures BlocksBits(bs, final)
         == BlocksBits(bs[..k], false) + (BlockBits(bs[k], PadAt(|BlocksBits(bs[..k], false)|), final && k == |bs| - 1) + tail)
  {
    hide BlockBits, BlockShaped;
    var init := bs[..|bs| - 1];
    if k == |bs| - 1 {
      tail := [];
      var last := BlockBits(bs[k], PadAt(|BlocksBits(bs[..k], false)|), final);
      assert last + tail == last;
    } else {
      var t := BlocksSplit(init, k, false);
      assert init[..k] == bs[..k];
      var before := BlocksBits(init, false);
      var last := BlockBits(bs[|bs| - 1], PadAt(|before|), final);
      tail := t + last;
      var first, mid := BlocksBits(bs[..k], false), BlockBits(bs[k], PadAt(|BlocksBits(bs[..k], false)|), false);
      assert (first + (mid + t)) + last == first + (mid + (t + last));
    }
  }
}
