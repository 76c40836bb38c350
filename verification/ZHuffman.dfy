/** The decoding tables of `stbi__zhuffman` and their construction. */
module ZHuffman {
  import opened Bits
  import opened Canonical

  const FAST_BITS := 9
  const FAST_SIZE := 512
  const ZNSYMS := 288

  // ----- what the tables hold

  /** Symbols are numbered by length, then by symbol: the first number of length `l`. */
  function FirstSymbol(ls: seq<nat>, l: nat): nat {
    if l <= 1 then 0 else FirstSymbol(ls, l - 1) + Total(ls, l - 1)
  }

  function Slot(ls: seq<nat>, i: nat): nat
    requires i < |ls|
  {
    FirstSymbol(ls, ls[i]) + Count(ls, i, ls[i])
  }

  /** The acceleration entry for the word `j` of 9 bits, from the first `n` symbols: the symbol
      whose short code `j` starts with, together with its length, or 0. */
  function FastEntry(ls: seq<nat>, n: nat, j: nat): nat
    requires n <= |ls|
  {
    if n == 0 then 0
    else if 1 <= ls[n - 1] <= FAST_BITS && Top(j, ls[n - 1]) == Code(ls, n - 1) then ls[n - 1] * 512 + (n - 1)
    else FastEntry(ls, n - 1, j)
  }

  // ----- slots

  function SymbolsUpTo(ls: seq<nat>, n: nat, l: nat): nat
    requires n <= |ls|
  {
    if l == 0 then 0 else SymbolsUpTo(ls, n, l - 1) + Count(ls, n, l)
  }

  lemma {:induction false} SymbolsStep(ls: seq<nat>, n: nat, l: nat)
    requires n < |ls|
    ensures SymbolsUpTo(ls, n + 1, l) == SymbolsUpTo(ls, n, l) + (if 1 <= ls[n] <= l then 1 else 0)
  {
    if l > 0 { SymbolsStep(ls, n, l - 1); }
  }

  lemma {:induction false} SymbolsBound(ls: seq<nat>, n: nat, l: nat)
    requires n <= |ls|
    ensures SymbolsUpTo(ls, n, l) <= n
    decreases n, l
  {
    if n > 0 {
      SymbolsBound(ls, n - 1, l);
      SymbolsStep(ls, n - 1, l);
    } else if l > 0 {
      SymbolsBound(ls, n, l - 1);
    }
  }

  lemma {:induction false} FirstSymbolSum(ls: seq<nat>, l: nat)
    ensures FirstSymbol(ls, l + 1) == SymbolsUpTo(ls, |ls|, l)
  {
    if l > 0 { FirstSymbolSum(ls, l - 1); }
  }

  lemma SlotsBound(ls: seq<nat>, l: nat)
    requires l > 0
    ensures FirstSymbol(ls, l) + Total(ls, l) <= |ls|
  {
    FirstSymbolSum(ls, l);
    SymbolsBound(ls, |ls|, l);
  }

  lemma {:induction false} FirstSymbolMono(ls: seq<nat>, l: nat, m: nat)
    requires 1 <= l < m
    ensures FirstSymbol(ls, l) + Total(ls, l) <= FirstSymbol(ls, m)
  {
    if l + 1 < m { FirstSymbolMono(ls, l, m - 1); }
  }

  lemma SlotRange(ls: seq<nat>, i: nat)
    requires i < |ls| && ls[i] > 0
    ensures FirstSymbol(ls, ls[i]) <= Slot(ls, i) < FirstSymbol(ls, ls[i]) + Total(ls, ls[i])
    ensures Slot(ls, i) < |ls|
  {
    CountMono(ls, i, |ls|, ls[i]);
    SlotsBound(ls, ls[i]);
  }

  lemma SlotInjective(ls: seq<nat>, i: nat, j: nat)
    requires i < |ls| && j < |ls| && ls[i] > 0 && ls[j] > 0 && i != j
    ensures Slot(ls, i) != Slot(ls, j)
  {
    SlotRange(ls, i);
    SlotRange(ls, j);
    if ls[i] < ls[j] {
      FirstSymbolMono(ls, ls[i], ls[j]);
    } else if ls[j] < ls[i] {
      FirstSymbolMono(ls, ls[j], ls[i]);
    } else if i < j {
      CountMono(ls, i, j, ls[i]);
    } else {
      CountMono(ls, j, i, ls[i]);
    }
  }

  // ----- what the acceleration table says

  lemma {:induction false} FastHit(ls: seq<nat>, n: nat, j: nat)
    requires n <= |ls| <= ZNSYMS && FastEntry(ls, n, j) != 0
    ensures var e := FastEntry(ls, n, j);
            e % 512 < n && ls[e % 512] == e / 512 && 1 <= e / 512 <= FAST_BITS && Matches(ls, e % 512, j)
  {
    if 1 <= ls[n - 1] <= FAST_BITS && Top(j, ls[n - 1]) == Code(ls, n - 1) {
    } else {
      FastHit(ls, n - 1, j);
    }
  }

  lemma {:induction false} FastMiss(ls: seq<nat>, n: nat, j: nat, i: nat)
    requires i < n <= |ls| && FastEntry(ls, n, j) == 0 && ls[i] <= FAST_BITS
    ensures !Matches(ls, i, j)
  {
    if i < n - 1 { FastMiss(ls, n - 1, j, i); }
  }

  /** A code of at most 9 bits matches a stream exactly when it matches its first 9 bits. */
  lemma MatchesLow(ls: seq<nat>, i: nat, stream: nat, n: nat)
    requires i < |ls| && ls[i] <= n
    ensures Matches(ls, i, Low(stream, n)) <==> Matches(ls, i, stream)
  {
    LowLow(stream, ls[i], n);
    TopLow(stream, Low(stream, n), ls[i]);
  }

  /** A nonzero acceleration entry names the symbol whose code starts the stream. */
  lemma FastDecode(ls: seq<nat>, stream: nat)
    requires |ls| <= ZNSYMS && FastEntry(ls, |ls|, Low(stream, 9)) != 0
    ensures var e := FastEntry(ls, |ls|, Low(stream, 9));
            Low(e, 9) < |ls| && ls[Low(e, 9)] == Shr(e, 9) && 1 <= Shr(e, 9) <= FAST_BITS
            && Matches(ls, Low(e, 9), stream)
  {
    var e := FastEntry(ls, |ls|, Low(stream, 9));
    FastHit(ls, |ls|, Low(stream, 9));
    LowShr(e, 9);
    Pow2Values();
    MatchesLow(ls, e % 512, stream, 9);
  }

  /** When the acceleration table has no entry, the first preshifted limit above the stream, from
      length 10 on, is that of the length of the code the stream starts with. */
  lemma SlowDecode(ls: seq<nat>, stream: nat, s: nat) returns (i: nat)
    requires |ls| <= ZNSYMS && FastEntry(ls, |ls|, Low(stream, 9)) == 0
    requires 10 <= s <= 15 && Top(stream, 16) < Edge(ls, s)
    requires forall l | 10 <= l < s :: Edge(ls, l) <= Top(stream, 16)
    ensures i < |ls| && ls[i] == s && Matches(ls, i, stream)
    ensures First(ls, s) <= Top(stream, s) && Top(stream, s) - First(ls, s) + FirstSymbol(ls, s) == Slot(ls, i)
  {
    if s == 10 && Top(stream, 16) < Edge(ls, 9) {
      i := BelowEdge(ls, 9, stream);
      MatchesLow(ls, i, stream, 9);
      FastMiss(ls, |ls|, Low(stream, 9), i);
    }
    i := IntervalMatch(ls, s, stream);
  }

  /** No limit above the stream: no code matches. */
  lemma SlowFail(ls: seq<nat>, stream: nat)
    requires Lengths(ls) && Edge(ls, 15) <= Top(stream, 16)
    ensures forall i: nat | i < |ls| :: !Matches(ls, i, stream)
  {
    MatchIff(ls, 15, stream);
  }

  // ----- construction

  lemma Stride(j: nat, k: nat, s: nat)
    requires j < k < j + Pow2(s)
    ensures Low(j, s) != Low(k, s)
  {
    Split(j, s);
    Split(k, s);
    NoMultiple(Pow2(s), Shr(k, s), Shr(j, s), Low(j, s), Low(k, s));
  }

  lemma NoMultiple(p: nat, a: nat, b: nat, x: nat, y: nat)
    requires x + p * b < y + p * a < x + p * b + p
    ensures x != y
  {
    assert (b + 1) * p == b * p + p;
    if a > b { Scale(b + 1, a, p); } else { Scale(a, b, p); }
  }

  lemma StrideNext(j: nat, s: nat)
    ensures Low(j + Pow2(s), s) == Low(j, s)
  {
    LowBound(j, s);
    Split(j, s);
    var p, q := Pow2(s), Shr(j, s);
    assert p * (q + 1) == p * q + p;
    Join(Low(j, s), q + 1, s);
  }

  /** The cast `(stbi__uint16) x`. */
  function U16(x: nat): (r: nat)
    ensures r < 0x1_0000 && (x < 0x1_0000 ==> r == x)
  {
    x % 0x1_0000
  }

  lemma WordBound(l: nat)
    requires l < 16
    ensures Pow2(l) < 0x1_0000
    ensures Pow2(l + 1) == 2 * Pow2(l)
  {
    Pow2Mono(l, 15);
    Pow2Values();
  }

  lemma FastValue(s: nat, i: nat)
    requires s <= 15 && i < ZNSYMS
    ensures U16(Or(i, Shl(s, 9))) == s * 512 + i
  {
    Pow2Values();
    OrAdd(i, s, 9);
  }

  lemma LowShort(x: nat, n: nat)
    requires x < Pow2(n)
    ensures Low(x, n) == x
  {
    Join(x, 0, n);
  }

  /** A word starts with the code of `s` bits exactly when its low bits are the reversed code. */
  lemma StartsIff(j: nat, code: nat, s: nat)
    requires code < Pow2(s)
    ensures Top(j, s) == code <==> Low(j, s) == Top(code, s)
  {
    TopTop(code, s);
    TopLow(j, Top(code, s), s);
    TopBound(code, s);
    LowShort(Top(code, s), s);
  }

  /** The first word that starts with a code is the reversed code. */
  lemma ReversedFirst(code: nat, s: nat)
    requires code < Pow2(s)
    ensures Low(Top(code, s), s) == Top(code, s)
    ensures forall k: nat | k < Top(code, s) :: Top(k, s) != code
  {
    TopBound(code, s);
    LowShort(Top(code, s), s);
    forall k: nat | k < Top(code, s) ensures Top(k, s) != code {
      StartsIff(k, code, s);
      LowShort(k, s);
    }
  }

  /** The words that start with a code of `s` bits are 2^s apart. */
  lemma NextWord(j: nat, code: nat, s: nat)
    requires code < Pow2(s) && Low(j, s) == Top(code, s)
    ensures Low(j + Pow2(s), s) == Top(code, s)
    ensures forall k | j < k < j + Pow2(s) :: Top(k, s) != code
  {
    StrideNext(j, s);
    forall k | j < k < j + Pow2(s) ensures Top(k, s) != code {
      Stride(j, k, s);
      StartsIff(k, code, s);
    }
  }

  lemma FastStep(ls: seq<nat>, i: nat, j: nat)
    requires i < |ls|
    ensures FastEntry(ls, i + 1, j)
         == if 1 <= ls[i] <= FAST_BITS && Top(j, ls[i]) == Code(ls, i) then ls[i] * 512 + i else FastEntry(ls, i, j)
  {
  }

  /** What is computed for one length: how many codes, the first code, the first symbol number. */
  datatype Row = Row(total: nat, first: nat, symbol: nat)

  ghost predicate Recurrence(rows: seq<Row>) {
    && |rows| == 17 && rows[0].total == 0 && rows[1].first == 0 && rows[1].symbol == 0
    && (forall l | 1 <= l < 16 :: rows[l + 1].first == 2 * (rows[l].first + rows[l].total))
    && (forall l | 1 <= l < 16 :: rows[l + 1].symbol == rows[l].symbol + rows[l].total)
    && (forall l | 1 <= l < 16 :: rows[l].symbol < 0x1_0000)
  }

  ghost function Rows(ls: seq<nat>): (rows: seq<Row>)
    requires |ls| <= ZNSYMS
    ensures Recurrence(rows)
    ensures forall l | 0 <= l < 17 :: rows[l] == Row(Total(ls, l), First(ls, l), FirstSymbol(ls, l))
  {
    var rows := seq(17, l requires 0 <= l => Row(Total(ls, l), First(ls, l), FirstSymbol(ls, l)));
    assert forall l | 1 <= l < 16 :: rows[l].symbol < 0x1_0000 by {
      forall l | 1 <= l < 16 ensures rows[l].symbol < 0x1_0000 { SlotsBound(ls, l); }
    }
    rows
  }

  lemma CountNone(ls: seq<nat>)
    ensures forall l: nat :: Count(ls, 0, l) == 0
  {
  }

  lemma FastNone(ls: seq<nat>)
    ensures forall j: nat :: FastEntry(ls, 0, j) == 0
  {
  }

  lemma CountStep(ls: seq<nat>, i: nat)
    requires i < |ls|
    ensures forall l: nat :: Count(ls, i + 1, l) == Count(ls, i, l) + (if ls[i] == l then 1 else 0)
  {
  }

  lemma CodeRange(ls: seq<nat>, i: nat)
    requires Lengths(ls) && Fits(ls) && i < |ls| && ls[i] > 0
    ensures Code(ls, i) < Pow2(ls[i])
  {
    CodeInRange(ls, i);
    assert Past(ls, ls[i]) <= Pow2(ls[i]);
  }

  class Tables {
    const fast: array<nat>
    const firstcode: array<nat>
    const maxcode: array<nat>
    const firstsymbol: array<nat>
    const size: array<nat>
    const value: array<nat>
    ghost const Repr: set<object>

    constructor ()
      ensures Shape() && fresh(Repr)
    {
      fast := new nat[FAST_SIZE](_ => 0);
      firstcode := new nat[16](_ => 0);
      maxcode := new nat[17](_ => 0);
      firstsymbol := new nat[16](_ => 0);
      size := new nat[ZNSYMS](_ => 0);
      value := new nat[ZNSYMS](_ => 0);
      Repr := {fast, firstcode, maxcode, firstsymbol, size, value};
    }

    ghost predicate Shape() {
      && Repr == {fast, firstcode, maxcode, firstsymbol, size, value}
      && fast.Length == FAST_SIZE && firstcode.Length == 16 && maxcode.Length == 17
      && firstsymbol.Length == 16 && size.Length == ZNSYMS && value.Length == ZNSYMS
      && fast != firstcode && fast != maxcode && fast != firstsymbol && fast != size && fast != value
      && firstcode != maxcode && firstcode != firstsymbol && firstcode != size && firstcode != value
      && maxcode != firstsymbol && maxcode != size && maxcode != value
      && firstsymbol != size && firstsymbol != value && size != value
    }

    /** Rows 1 to `n - 1` of the per-length tables. */
    ghost predicate RowsFor(ls: seq<nat>, n: nat)
      requires Shape() && n <= 16
      reads firstcode, maxcode, firstsymbol
    {
      forall l | 1 <= l < n ::
        firstcode[l] == First(ls, l) && firstsymbol[l] == FirstSymbol(ls, l) && maxcode[l] == Edge(ls, l)
    }

    ghost predicate SymbolsFor(ls: seq<nat>, n: nat)
      requires Shape() && n <= |ls| <= ZNSYMS
      reads size, value
    {
      forall i | 0 <= i < n && ls[i] > 0 ::
        Slot(ls, i) < ZNSYMS && value[Slot(ls, i)] == i && size[Slot(ls, i)] == ls[i]
    }

    ghost predicate FastFor(ls: seq<nat>, n: nat)
      requires Shape() && n <= |ls|
      reads fast
    {
      forall j | 0 <= j < FAST_SIZE :: fast[j] == FastEntry(ls, n, j)
    }

    /** The tables decode the canonical code with lengths `ls`. */
    ghost predicate TablesFor(ls: seq<nat>)
      reads Repr
    {
      && Shape() && Lengths(ls) && Fits(ls) && |ls| <= ZNSYMS
      && RowsFor(ls, 16) && maxcode[16] == 0x1_0000
      && SymbolsFor(ls, |ls|) && FastFor(ls, |ls|)
    }

    lemma LengthsOf(ls: seq<nat>)
      requires TablesFor(ls)
      ensures Lengths(ls) && Fits(ls) && |ls| <= ZNSYMS
    {
    }

    static method CountSizes(sizelist: seq<nat>) returns (sizes: array<nat>)
      requires Lengths(sizelist)
      ensures fresh(sizes) && sizes.Length == 17
      ensures forall l | 0 <= l < 17 :: sizes[l] == Total(sizelist, l)
    {
      sizes := new nat[17](_ => 0);
      var i := 0;
      while i < |sizelist|
        invariant i <= |sizelist|
        invariant forall l | 0 <= l < 17 :: sizes[l] == Count(sizelist, i, l)
      {
        sizes[sizelist[i]] := sizes[sizelist[i]] + 1;
        i := i + 1;
      }
      sizes[0] := 0;
    }

    static method SizesOk(sizes: array<nat>) returns (ok: bool)
      requires sizes.Length == 17
      ensures ok <==> forall l | 1 <= l <= MAX_BITS :: sizes[l] <= Pow2(l)
    {
      hide Pow2;
      var i := 1;
      while i < 16
        invariant 1 <= i <= 16
        invariant forall l | 1 <= l < i :: sizes[l] <= Pow2(l)
      {
        if sizes[i] > Pow2(i) {
          return false;
        }
        i := i + 1;
      }
      return true;
    }

    /** First codes, symbol numbers and preshifted limits, one row per length. */
    static method AssignRows(sizes: array<nat>, next_code: array<nat>, firstcode: array<nat>,
                             maxcode: array<nat>, firstsymbol: array<nat>, ghost rows: seq<Row>)
      returns (ok: bool)
      requires sizes.Length == 17 && next_code.Length == 16
      requires firstcode.Length == 16 && maxcode.Length == 17 && firstsymbol.Length == 16
      requires sizes != next_code && sizes != firstcode && sizes != maxcode && sizes != firstsymbol
      requires next_code != firstcode && next_code != maxcode && next_code != firstsymbol
      requires firstcode != maxcode && firstcode != firstsymbol && maxcode != firstsymbol
      requires Recurrence(rows)
      requires forall l | 0 <= l < 17 :: sizes[l] == rows[l].total
      modifies next_code, firstcode, maxcode, firstsymbol
      ensures ok <==> forall l | 1 <= l < 16 && rows[l].total > 0 :: rows[l].first + rows[l].total <= Pow2(l)
      ensures ok ==> forall l | 1 <= l < 16 :: next_code[l] == firstcode[l] == rows[l].first
      ensures ok ==> forall l | 1 <= l < 16 :: firstsymbol[l] == rows[l].symbol
      ensures ok ==> forall l | 1 <= l < 16 :: maxcode[l] == Shl(rows[l].first + rows[l].total, 16 - l)
    {
      hide Shl, U16, Pow2;
      var code, k, i := 0, 0, 1;
      while i < 16
        invariant 1 <= i <= 16 && code == rows[i].first <= Pow2(i) && k == rows[i].symbol
        invariant forall l | 1 <= l < i && rows[l].total > 0 :: rows[l].first + rows[l].total <= Pow2(l)
        invariant forall l | 1 <= l < i :: next_code[l] == firstcode[l] == rows[l].first
        invariant forall l | 1 <= l < i :: firstsymbol[l] == rows[l].symbol
        invariant forall l | 1 <= l < i :: maxcode[l] == Shl(rows[l].first + rows[l].total, 16 - l)
      {
        WordBound(i);
        next_code[i] := code;
        firstcode[i] := U16(code);
        firstsymbol[i] := U16(k);
        code := code + sizes[i];
        if sizes[i] != 0 && code - 1 >= Pow2(i) {
          return false;
        }
        maxcode[i] := Shl(code, 16 - i);
        code := code * 2;
        k := k + sizes[i];
        i := i + 1;
      }
      return true;
    }

    /** Every word of 9 bits that starts with the code of symbol `i` gets the entry of `i`. */
    static method FillFast(fast: array<nat>, ghost ls: seq<nat>, i: nat, code: nat, s: nat)
      requires fast.Length == FAST_SIZE && i < |ls| <= ZNSYMS && ls[i] == s && 1 <= s <= FAST_BITS
      requires code == Code(ls, i) < Pow2(s)
      requires forall j | 0 <= j < FAST_SIZE :: fast[j] == FastEntry(ls, i, j)
      modifies fast
      ensures forall j | 0 <= j < FAST_SIZE :: fast[j] == FastEntry(ls, i + 1, j)
    {
      hide Top, Low, FastEntry, Or, Shl, U16, BitReverse, Pow2, Code;
      FastValue(s, i);
      var fastv := U16(Or(i, Shl(s, 9)));
      BitReverseCorrect(code, s);
      var j := BitReverse(code, s);
      ReversedFirst(code, s);
      while j < FAST_SIZE
        invariant Low(j, s) == Top(code, s)
        invariant forall k | 0 <= k < FAST_SIZE ::
                    fast[k] == if k < j && Top(k, s) == code then fastv else FastEntry(ls, i, k)
      {
        StartsIff(j, code, s);
        fast[j] := fastv;
        NextWord(j, code, s);
        j := j + Pow2(s);
      }
      forall k | 0 <= k < FAST_SIZE ensures fast[k] == FastEntry(ls, i + 1, k) {
        FastStep(ls, i, k);
      }
    }

    /** Number the symbols and fill the acceleration table. */
    method AssignSymbols(sizelist: seq<nat>, next_code: array<nat>)
      requires Shape() && Lengths(sizelist) && Fits(sizelist) && |sizelist| <= ZNSYMS
      requires RowsFor(sizelist, 16) && FastFor(sizelist, 0)
      requires next_code.Length == 16 && next_code !in Repr
      requires forall l | 1 <= l < 16 :: next_code[l] == First(sizelist, l)
      modifies next_code, size, value, fast
      ensures SymbolsFor(sizelist, |sizelist|) && FastFor(sizelist, |sizelist|)
    {
      hide Count, First, FirstSymbol, FastEntry, Fits, U16, Pow2;
      CountNone(sizelist);
      var i := 0;
      while i < |sizelist|
        invariant i <= |sizelist| && RowsFor(sizelist, 16)
        invariant forall l | 1 <= l < 16 :: next_code[l] == First(sizelist, l) + Count(sizelist, i, l)
        invariant SymbolsFor(sizelist, i) && FastFor(sizelist, i)
      {
        CountStep(sizelist, i);
        var s := sizelist[i];
        if s != 0 {
          SlotRange(sizelist, i);
          CodeRange(sizelist, i);
          var c := next_code[s] - firstcode[s] + firstsymbol[s];
          assert c == Slot(sizelist, i);
          forall k | 0 <= k < i && sizelist[k] > 0 ensures Slot(sizelist, k) != c {
            SlotInjective(sizelist, k, i);
          }
          size[c] := s;
          value[c] := U16(i);
          if s <= FAST_BITS {
            FillFast(fast, sizelist, i, next_code[s], s);
          }
          next_code[s] := next_code[s] + 1;
        }
        forall j | 0 <= j < FAST_SIZE && !(1 <= s <= FAST_BITS)
          ensures FastEntry(sizelist, i + 1, j) == FastEntry(sizelist, i, j)
        {
          FastStep(sizelist, i, j);
        }
        i := i + 1;
      }
    }

    /** `stbi__zbuild_huffman`: succeeds exactly on lengths that satisfy the Kraft inequality, and
        then holds the tables of their canonical code. */
    method Build(sizelist: seq<nat>) returns (ok: bool)
      requires Shape() && Lengths(sizelist) && |sizelist| <= ZNSYMS
      modifies Repr
      ensures ok <==> Kraft(sizelist, |sizelist|) <= Pow2(MAX_BITS)
      ensures ok ==> TablesFor(sizelist)
    {
      hide Count, Total, First, FirstSymbol, FastEntry, Fits, Kraft, Pow2, Shl, Recurrence, SymbolsFor;
      FitsIffKraft(sizelist);
      AcceptedIffFits(sizelist);
      var sizes := CountSizes(sizelist);
      forall j | 0 <= j < FAST_SIZE { fast[j] := 0; }
      ok := SizesOk(sizes);
      if !ok {
        return;
      }
      var next_code := new nat[16](_ => 0);
      ok := AssignRows(sizes, next_code, firstcode, maxcode, firstsymbol, Rows(sizelist));
      if !ok {
        return;
      }
      maxcode[16] := 0x1_0000;
      FastNone(sizelist);
      AssignSymbols(sizelist, next_code);
    }
  }
}
