/** LZW as GIF uses it: the textbook decoder of appendix F of GIF89a, and the code table of stb_image as a
    representation of its dictionary. */
module GifLzw {
  import opened Bits

  // ----- the textbook decoder

  const MAX_CODES := 4096

  /** The roots, then the clear code and the end code, which stand for nothing. */
  function Roots(cs: nat): (d: seq<seq<Byte>>)
    ensures |d| == Pow2(cs) + 2
  {
    seq(Pow2(cs), (i: nat) => Root(i)) + [[], []]
  }

  /** Symbols are stored in a byte. */
  function Root(i: nat): seq<Byte> {
    [i % 256]
  }

  function WidthFrom(w: nat, n: nat): (r: nat)
    ensures w <= r
    decreases 12 - w
  {
    if w >= 12 || n < Pow2(w) then w else WidthFrom(w + 1, n)
  }

  /** The width of the next code when the dictionary has `n` entries. */
  function Width(cs: nat, n: nat): nat {
    WidthFrom(cs + 1, n)
  }

  /** The decoder's state: whether a clear code was seen, the dictionary, and the last string ([] after a
      clear code). */
  datatype State = State(started: bool, dict: seq<seq<Byte>>, last: seq<Byte>)

  datatype End = Finished | NoClear | Illegal

  datatype Step = Emit(text: seq<Byte>, next: State) | Stop(end: End)

  /** One code. */
  function DecodeCode(cs: nat, st: State, code: nat): Step {
    var clear := Pow2(cs);
    if code == clear then Emit([], State(true, Roots(cs), []))
    else if code == clear + 1 then Stop(Finished)
    else if code > |st.dict| then Stop(Illegal)
    else if !st.started then Stop(NoClear)
    else if st.last == [] then
      if code < |st.dict| then Emit(st.dict[code], st.(last := st.dict[code])) else Stop(Illegal)
    else
      var text := if code < |st.dict| then st.dict[code] else st.last + [st.last[0]];
      if text == [] then Stop(Illegal)
      else Emit(text, State(true, Learn(st.dict, st.last + [text[0]]), text))
  }

  /** A full dictionary learns nothing more. */
  function Learn(dict: seq<seq<Byte>>, text: seq<Byte>): seq<seq<Byte>> {
    if |dict| < MAX_CODES then dict + [text] else dict
  }

  /** All codes in the first `n` bits of a stream: the symbols, and how decoding ended. */
  function Decode(cs: nat, stream: nat, n: nat, st: State): (seq<Byte>, End)
    decreases n
  {
    var w := Width(cs, |st.dict|);
    if n < w then ([], Finished)
    else
      match DecodeCode(cs, st, Low(stream, w))
      case Stop(e) => ([], e)
      case Emit(text, next) =>
        var (rest, e) := Decode(cs, Shr(stream, w), n - w, next);
        (text + rest, e)
  }

  function Start(cs: nat): State {
    State(false, Roots(cs), [])
  }

  /** Whether the textbook decoder comes to read the `limit`-th code since a clear code, with no clear code between;
      and if so, the symbols up to there.  `count` codes since the last clear code are decoded already. */
  datatype Overrun = Never | After(text: seq<Byte>)

  function Overruns(cs: nat, stream: nat, n: nat, st: State, count: nat, limit: nat): Overrun
    decreases n
  {
    var w := Width(cs, |st.dict|);
    if n < w then Never
    else
      match DecodeCode(cs, st, Low(stream, w))
      case Stop(_) => Never
      case Emit(text, next) =>
        if Low(stream, w) == Pow2(cs) then Overruns(cs, Shr(stream, w), n - w, next, 0, limit)
        else if count + 1 == limit then After([])
        else Behind(text, Overruns(cs, Shr(stream, w), n - w, next, count + 1, limit))
  }

  /** The code of a run since a clear code for which the table of 8192 entries has no room. */
  function TableLimit(cs: nat): (r: nat)
    requires cs <= 11
    ensures r == 8192 - Pow2(cs) && r > 2048
  {
    Pow2Mono(cs, 11);
    Pow2Values();
    8192 - Pow2(cs)
  }

  function Behind(text: seq<Byte>, o: Overrun): Overrun {
    if o.Never? then Never else After(text + o.text)
  }

  // ----- data sub-blocks, section 15 of GIF89a

  /** The data bytes from `pos` on, `len` of them left in the current sub-block. */
  function Payload(input: seq<Byte>, pos: nat, len: nat): seq<Byte>
    requires pos <= |input|
    decreases |input| - pos, len
  {
    if len > 0 then [ByteAt(input, pos)] + Payload(input, NextPos(input, pos), len - 1)
    else if ByteAt(input, pos) == 0 then []
    else Payload(input, NextPos(input, pos), ByteAt(input, pos))
  }

  // ----- the code table

  /** An entry: the code of all but the last symbol (-1 for a root), its first and its last symbol. */
  datatype Entry = Entry(prefix: int, first: Byte, suffix: Byte)

  predicate Live(clear: nat, avail: nat, i: int) {
    0 <= i < clear || clear + 2 <= i < avail
  }

  /** Every prefix is a live entry with a strictly smaller index. */
  predicate Linked(codes: seq<Entry>, clear: nat, avail: nat) {
    && clear + 2 <= avail <= |codes|
    && forall i | 0 <= i < avail && Live(clear, avail, i) ::
         codes[i].prefix == -1 || (Live(clear, avail, codes[i].prefix) && codes[i].prefix < i)
  }

  /** The string an entry stands for, found by following prefixes. */
  function Expand(codes: seq<Entry>, clear: nat, avail: nat, i: nat): (r: seq<Byte>)
    requires Linked(codes, clear, avail) && Live(clear, avail, i)
    ensures r != [] && r[|r| - 1] == codes[i].suffix
    decreases i
  {
    if codes[i].prefix < 0 then [codes[i].suffix]
    else Expand(codes, clear, avail, codes[i].prefix) + [codes[i].suffix]
  }

  /** Entries from 4096 on are written but have no code. */
  function Capped(avail: nat): nat {
    if avail < MAX_CODES then avail else MAX_CODES
  }

  /** The table represents the dictionary, and `first` is the head of each string. */
  ghost predicate Represents(codes: seq<Entry>, clear: nat, avail: nat, dict: seq<seq<Byte>>) {
    && Linked(codes, clear, avail)
    && |dict| == Capped(avail)
    && (forall i | 0 <= i < avail && Live(clear, avail, i) :: codes[i].first == Expand(codes, clear, avail, i)[0])
    && (forall i | 0 <= i < |dict| && Live(clear, avail, i) :: Expand(codes, clear, avail, i) == dict[i])
    && clear + 2 <= |dict| && dict[clear] == dict[clear + 1] == []
  }

  /** Entries below `avail` keep their meaning when the one at `avail` is written. */
  lemma {:induction false} ExpandKept(codes: seq<Entry>, codes': seq<Entry>, clear: nat, avail: nat, avail': nat, i: nat)
    requires Linked(codes, clear, avail) && Linked(codes', clear, avail') && avail <= avail'
    requires Live(clear, avail, i) && codes[..avail] == codes'[..avail]
    ensures Expand(codes', clear, avail', i) == Expand(codes, clear, avail, i)
    decreases i
  {
    assert codes'[i] == codes'[..avail][i] == codes[..avail][i] == codes[i];
    if codes[i].prefix >= 0 {
      ExpandKept(codes, codes', clear, avail, avail', codes[i].prefix);
    }
  }

  /** The entry written for `oldcode` followed by `code`. */
  function NewEntry(codes: seq<Entry>, clear: nat, avail: nat, oldcode: nat, code: nat): Entry
    requires avail < |codes| && oldcode < |codes| && code < |codes|
  {
    var first := codes[oldcode].first;
    Entry(oldcode, first, if code == avail then first else codes[code].first)
  }

  /** Writing the entry keeps the table in step with the dictionary, also when `code` is the very entry
      being written. */
  lemma Extended(codes: seq<Entry>, clear: nat, avail: nat, dict: seq<seq<Byte>>, oldcode: nat, code: nat, codes': seq<Entry>)
    requires Represents(codes, clear, avail, dict) && avail < |codes| && |codes| == |codes'|
    requires Live(clear, avail, oldcode) && oldcode < |dict| && ((Live(clear, avail, code) && code < |dict|) || code == avail == |dict|)
    requires codes' == codes[avail := NewEntry(codes, clear, avail, oldcode, code)]
    ensures var last := dict[oldcode];
            var text := if code < |dict| then dict[code] else last + [last[0]];
            && text != [] && last != [] && Represents(codes', clear, avail + 1, Learn(dict, last + [text[0]]))
            && Live(clear, avail + 1, code) && Expand(codes', clear, avail + 1, code) == text
  {
    hide Expand;
    var last := dict[oldcode];
    assert last == Expand(codes, clear, avail, oldcode);
    var text := if code < |dict| then dict[code] else last + [last[0]];
    assert code < |dict| ==> text == Expand(codes, clear, avail, code);
    assert last[0] == codes[oldcode].first;
    assert codes'[avail] == Entry(oldcode, last[0], text[0]);
    LinkedMore(codes, clear, avail, codes');
    KeptAll(codes, codes', clear, avail);
    ExpandStep(codes', clear, avail + 1, avail);
    assert Expand(codes', clear, avail + 1, avail) == last + [text[0]];
    RepresentsMore(codes, codes', clear, avail, dict);
  }

  lemma RepresentsMore(codes: seq<Entry>, codes': seq<Entry>, clear: nat, avail: nat, dict: seq<seq<Byte>>)
    requires avail < |codes| && avail < |codes'| && Live(clear, avail + 1, avail)
    requires Represents(codes, clear, avail, dict) && Linked(codes', clear, avail + 1) && codes[..avail] == codes'[..avail]
    requires codes'[avail].first == Expand(codes', clear, avail + 1, avail)[0]
    ensures Represents(codes', clear, avail + 1, Learn(dict, Expand(codes', clear, avail + 1, avail)))
  {
    hide Expand, Linked, Live;
    LinkedSize(codes, clear, avail);
    var added := Expand(codes', clear, avail + 1, avail);
    forall i | 0 <= i < avail + 1 && Live(clear, avail + 1, i)
      ensures codes'[i].first == Expand(codes', clear, avail + 1, i)[0]
      ensures i < |Learn(dict, added)| ==> Expand(codes', clear, avail + 1, i) == Learn(dict, added)[i]
    {
      if i < avail { EntryKept(codes, codes', clear, avail, dict, i); }
    }
  }

  lemma EntryKept(codes: seq<Entry>, codes': seq<Entry>, clear: nat, avail: nat, dict: seq<seq<Byte>>, i: nat)
    requires avail < |codes| && avail < |codes'|
    requires Represents(codes, clear, avail, dict) && Linked(codes', clear, avail + 1) && codes[..avail] == codes'[..avail]
    requires i < avail && Live(clear, avail + 1, i)
    ensures codes'[i].first == Expand(codes', clear, avail + 1, i)[0]
    ensures i < |dict| ==> Expand(codes', clear, avail + 1, i) == dict[i]
  {
    hide Expand, Linked;
    assert Live(clear, avail, i);
    ExpandKept(codes, codes', clear, avail, avail + 1, i);
    assert codes'[i] == codes'[..avail][i] == codes[i];
  }

  lemma LinkedSize(codes: seq<Entry>, clear: nat, avail: nat)
    requires Linked(codes, clear, avail)
    ensures clear + 2 <= avail <= |codes|
  {
  }

  lemma LinkedMore(codes: seq<Entry>, clear: nat, avail: nat, codes': seq<Entry>)
    requires Linked(codes, clear, avail) && avail < |codes| == |codes'| && codes[..avail] == codes'[..avail]
    requires Live(clear, avail, codes'[avail].prefix)
    ensures Linked(codes', clear, avail + 1)
  {
    forall i | 0 <= i < avail + 1 && Live(clear, avail + 1, i)
      ensures codes'[i].prefix == -1 || (Live(clear, avail + 1, codes'[i].prefix) && codes'[i].prefix < i)
    {
      if i < avail {
        assert codes'[i] == codes'[..avail][i] == codes[i];
        assert Live(clear, avail, i);
      }
    }
  }

  lemma KeptAll(codes: seq<Entry>, codes': seq<Entry>, clear: nat, avail: nat)
    requires Linked(codes, clear, avail) && Linked(codes', clear, avail + 1) && codes[..avail] == codes'[..avail]
    ensures forall i: nat | Live(clear, avail, i) :: Expand(codes', clear, avail + 1, i) == Expand(codes, clear, avail, i)
  {
    hide Expand;
    forall i: nat | Live(clear, avail, i)
      ensures Expand(codes', clear, avail + 1, i) == Expand(codes, clear, avail, i)
    {
      ExpandKept(codes, codes', clear, avail, avail + 1, i);
    }
  }

  lemma ExpandStep(codes: seq<Entry>, clear: nat, avail: nat, i: nat)
    requires Linked(codes, clear, avail) && Live(clear, avail, i) && codes[i].prefix >= 0
    ensures Expand(codes, clear, avail, i) == Expand(codes, clear, avail, codes[i].prefix) + [codes[i].suffix]
  {
  }

  /** After a clear code, and at the start, the table holds the roots. */
  lemma Cleared(codes: seq<Entry>, cs: nat)
    requires Pow2(cs) + 2 <= |codes| && Pow2(cs) + 2 <= MAX_CODES
    requires forall i | 0 <= i < Pow2(cs) :: codes[i] == Entry(-1, i % 256, i % 256)
    ensures Represents(codes, Pow2(cs), Pow2(cs) + 2, Roots(cs))
  {
    hide Pow2;
  }

  // ----- code widths

  /** `w` is the width for `n` entries: it fits them, and no smaller one allowed does. */
  predicate WidthOk(cs: nat, n: nat, w: nat) {
    cs + 1 <= w <= 12 && (n < Pow2(w) || w == 12) && (w == cs + 1 || Pow2(w - 1) <= n)
  }

  lemma {:induction false} WidthFromIs(v: nat, n: nat, w: nat)
    requires v <= w <= 12 && (n < Pow2(w) || w == 12) && (w == v || Pow2(w - 1) <= n)
    ensures WidthFrom(v, n) == w
    decreases w - v
  {
    if v < w {
      Pow2Mono(v, w - 1);
      WidthFromIs(v + 1, n, w);
    }
  }

  lemma WidthIs(cs: nat, n: nat, w: nat)
    requires WidthOk(cs, n, w)
    ensures Width(cs, n) == w
  {
    WidthFromIs(cs + 1, n, w);
  }

  /** The test `(avail & codemask) == 0 && avail <= 0x0FFF` widens codes exactly when they must be. */
  lemma Widened(cs: nat, avail: nat, w: nat)
    requires 2 <= cs <= 11 && Pow2(cs) + 2 <= avail
    requires WidthOk(cs, Capped(avail), w) || WidthOk(cs, Capped(avail - 1), w)
    ensures var w' := if Low(avail, w) == 0 && avail <= 0x0FFF then w + 1 else w;
            WidthOk(cs, Capped(avail), w')
  {
    hide Low, Shr;
    Pow2Values();
    Pow2Mono(cs, w);
    Split(avail, w);
    LowBound(avail, w);
    if avail < Pow2(w) {
      Join(avail, 0, w);
    } else if avail == Pow2(w) {
      Join(0, 1, w);
    } else {
      assert w == 12;
    }
    Pow2Mono(cs + 1, w);
    Pow2Mono(w, 12);
  }

  lemma StartWidth(cs: nat)
    requires 2 <= cs <= 11
    ensures WidthOk(cs, Pow2(cs) + 2, cs + 1)
  {
    Pow2Mono(2, cs);
    Pow2Values();
  }

  // ----- the decoder's variables and the textbook state

  /** The table, the next free entry, the last code (-1: none), the flag for a missing clear code and the
      code size stand for the state `st`. */
  ghost predicate Sync(cs: nat, codes: seq<Entry>, avail: nat, oldcode: int, first: bool, codesize: nat, st: State) {
    && Represents(codes, Pow2(cs), avail, st.dict) && WidthOk(cs, |st.dict|, codesize)
    && first == !st.started
    && (if oldcode < 0 then st.last == [] && avail == Pow2(cs) + 2
        else oldcode < |st.dict| && Live(Pow2(cs), avail, oldcode) && st.last == st.dict[oldcode] && st.started)
  }

  lemma SyncStart(cs: nat, codes: seq<Entry>, started: bool)
    requires 2 <= cs <= 11 && Pow2(cs) + 2 <= |codes|
    requires forall i | 0 <= i < Pow2(cs) :: codes[i] == Entry(-1, i % 256, i % 256)
    ensures Sync(cs, codes, Pow2(cs) + 2, -1, !started, cs + 1, State(started, Roots(cs), []))
  {
    hide Represents, WidthOk;
    Pow2Mono(cs, 11);
    Pow2Values();
    Cleared(codes, cs);
    StartWidth(cs);
  }

  /** The first code after a clear code has to be a root. */
  lemma SyncFirst(cs: nat, codes: seq<Entry>, avail: nat, codesize: nat, st: State, code: nat)
    requires 2 <= cs <= 11 && Sync(cs, codes, avail, -1, false, codesize, st) && code < avail && Live(Pow2(cs), avail, code)
    ensures var text := Expand(codes, Pow2(cs), avail, code);
            var next := st.(last := text);
            && DecodeCode(cs, st, code) == Emit(text, next)
            && Sync(cs, codes, avail, code, false, if Low(avail, codesize) == 0 && avail <= 0x0FFF then codesize + 1 else codesize, next)
  {
    hide Represents, WidthOk, Expand, Roots, Low, Linked;
    SmallAvail(cs);
    TableSays(codes, Pow2(cs), avail, st.dict, code);
    Widened(cs, avail, codesize);
  }

  lemma SmallAvail(cs: nat)
    requires cs <= 11
    ensures Pow2(cs) + 2 < MAX_CODES
  {
    Pow2Mono(cs, 11);
    Pow2Values();
  }

  lemma TableSays(codes: seq<Entry>, clear: nat, avail: nat, dict: seq<seq<Byte>>, code: nat)
    requires Represents(codes, clear, avail, dict) && Live(clear, avail, code) && code < MAX_CODES
    ensures Linked(codes, clear, avail) && code < |dict| == Capped(avail) && dict[code] == Expand(codes, clear, avail, code) != []
  {
  }

  /** A later code: the new entry is the last string and the first symbol of this one. */
  lemma SyncNext(cs: nat, codes: seq<Entry>, avail: nat, oldcode: nat, codesize: nat, st: State, code: nat, codes': seq<Entry>)
    requires 2 <= cs <= 11 && Sync(cs, codes, avail, oldcode, false, codesize, st)
    requires avail < |codes| && code < MAX_CODES && (Live(Pow2(cs), avail, code) || code == avail) && code != Pow2(cs) && code != Pow2(cs) + 1
    requires codes' == codes[avail := NewEntry(codes, Pow2(cs), avail, oldcode, code)]
    ensures Linked(codes', Pow2(cs), avail + 1) && Live(Pow2(cs), avail + 1, code)
    ensures DecodeCode(cs, st, code).Emit? && DecodeCode(cs, st, code).text == Expand(codes', Pow2(cs), avail + 1, code)
    ensures Sync(cs, codes', avail + 1, code, false, if Low(avail + 1, codesize) == 0 && avail + 1 <= 0x0FFF then codesize + 1 else codesize,
                 DecodeCode(cs, st, code).next)
  {
    hide Represents, WidthOk, Expand, Roots, Low, Linked;
    var clear := Pow2(cs);
    RepresentsSize(codes, clear, avail, st.dict);
    if code < |st.dict| { TableSays(codes, clear, avail, st.dict, code); }
    Extended(codes, clear, avail, st.dict, oldcode, code, codes');
    var last := st.dict[oldcode];
    var text := if code < |st.dict| then st.dict[code] else last + [last[0]];
    var next := State(true, Learn(st.dict, last + [text[0]]), text);
    assert DecodeCode(cs, st, code) == Emit(text, next);
    Widened(cs, avail + 1, codesize);
    RepresentsSize(codes', clear, avail + 1, next.dict);
    TableSays(codes', clear, avail + 1, next.dict, code);
  }

  /** With a full code table every code stands for something. */
  lemma SyncFull(cs: nat, codes: seq<Entry>, avail: nat, oldcode: nat, codesize: nat, st: State, code: nat)
    requires 2 <= cs <= 11 && Sync(cs, codes, avail, oldcode, false, codesize, st) && MAX_CODES <= avail
    requires code < MAX_CODES && code != Pow2(cs) && code != Pow2(cs) + 1
    ensures DecodeCode(cs, st, code).Emit?
  {
    hide Represents, WidthOk, Expand, Roots, Linked;
    TableSays(codes, Pow2(cs), avail, st.dict, code);
  }

  lemma RepresentsSize(codes: seq<Entry>, clear: nat, avail: nat, dict: seq<seq<Byte>>)
    requires Represents(codes, clear, avail, dict)
    ensures |dict| == Capped(avail) && clear + 2 <= |dict| && Linked(codes, clear, avail)
  {
  }

  /** Codes the textbook decoder refuses. */
  lemma SyncRefuses(cs: nat, codes: seq<Entry>, avail: nat, oldcode: int, first: bool, codesize: nat, st: State, code: nat)
    requires 2 <= cs <= 11 && Sync(cs, codes, avail, oldcode, first, codesize, st)
    requires code < MAX_CODES && code != Pow2(cs) && code != Pow2(cs) + 1
    ensures code > avail ==> DecodeCode(cs, st, code) == Stop(Illegal)
    ensures code <= avail && first ==> DecodeCode(cs, st, code) == Stop(NoClear)
    ensures code == avail && !first && oldcode < 0 ==> DecodeCode(cs, st, code) == Stop(Illegal)
  {
    hide Represents, WidthOk, Roots;
    RepresentsSize(codes, Pow2(cs), avail, st.dict);
    SmallAvail(cs);
  }

  // ----- deferred clear codes

  /** Nothing but zero bits: code 0 over and over, whatever the width. */
  lemma {:induction false} ZeroCode(w: nat)
    ensures Low(0, w) == 0 && Shr(0, w) == 0
  {
    if w > 0 { ZeroCode(w - 1); }
  }

  lemma {:induction false} WidthBound(w: nat, n: nat)
    requires w <= 12
    ensures WidthFrom(w, n) <= 12
    decreases 12 - w
  {
    if w < 12 && n >= Pow2(w) { WidthBound(w + 1, n); }
  }

  /** What code 0 does once a clear code was seen. */
  lemma ZeroStep(cs: nat, st: State)
    requires st.started && st.dict != [] && st.dict[0] == [0]
    ensures DecodeCode(cs, st, 0).Emit? && DecodeCode(cs, st, 0).text == [0]
    ensures var next := DecodeCode(cs, st, 0).next; next.started && next.dict != [] && next.dict[0] == [0]
  {
  }

  function Zeros(n: nat): (r: seq<Byte>)
    ensures |r| == n
  {
    seq(n, _ => 0)
  }

  lemma {:induction false} ZerosOverrun(cs: nat, n: nat, st: State, count: nat, limit: nat)
    requires cs <= 11 && st.started && st.dict != [] && st.dict[0] == [0] && count < limit && n >= 12 * (limit - count)
    ensures Overruns(cs, 0, n, st, count, limit) == After(Zeros(limit - 1 - count))
    decreases limit - count
  {
    hide DecodeCode, Low, Shr;
    var w := Width(cs, |st.dict|);
    WidthBound(cs + 1, |st.dict|);
    ZeroCode(w);
    ZeroStep(cs, st);
    if count + 1 < limit {
      var next := DecodeCode(cs, st, 0).next;
      ZerosOverrun(cs, n - w, next, count + 1, limit);
      assert [0] + Zeros(limit - 2 - count) == Zeros(limit - 1 - count);
    }
  }

  lemma {:induction false} ZerosFinish(cs: nat, n: nat, st: State)
    requires st.started && st.dict != [] && st.dict[0] == [0]
    ensures Decode(cs, 0, n, st).1 == Finished
    decreases n
  {
    hide DecodeCode, Low, Shr;
    var w := Width(cs, |st.dict|);
    if n >= w {
      ZeroCode(w);
      ZeroStep(cs, st);
      ZerosFinish(cs, n - w, DecodeCode(cs, st, 0).next);
    }
  }

  /** A clear code and then only zeros: GIF89a lets the encoder defer the next clear code, and the textbook decoder
      goes on to the end, but the code table is full after 8191 - 2^cs codes. */
  lemma DeferredClear(cs: nat, n: nat)
    requires 2 <= cs <= 11 && n >= 12 * 8192 + cs + 1
    ensures Decode(cs, Pow2(cs), n, Start(cs)).1 == Finished
    ensures Overruns(cs, Pow2(cs), n, Start(cs), 0, TableLimit(cs)) == After(Zeros(TableLimit(cs) - 1))
  {
    hide DecodeCode, Low, Shr, Pow2, Roots, WidthFrom, TableLimit;
    var st := State(true, Roots(cs), []);
    FirstWidth(cs);
    FirstClear(cs);
    ClearBits(cs);
    ZerosFinish(cs, n - (cs + 1), st);
    ZerosOverrun(cs, n - (cs + 1), st, 0, TableLimit(cs));
  }

  lemma FirstWidth(cs: nat)
    requires 2 <= cs
    ensures Width(cs, |Roots(cs)|) == cs + 1
  {
    hide Roots;
    Pow2Mono(2, cs);
    Pow2Values();
    assert Pow2(cs + 1) == 2 * Pow2(cs);
  }

  lemma FirstClear(cs: nat)
    ensures DecodeCode(cs, Start(cs), Pow2(cs)) == Emit([], State(true, Roots(cs), []))
    ensures Roots(cs) != [] && Roots(cs)[0] == [0]
  {
  }

  lemma ClearBits(cs: nat)
    ensures Low(Pow2(cs), cs + 1) == Pow2(cs) && Shr(Pow2(cs), cs + 1) == 0
  {
    hide Low, Shr;
    assert Pow2(cs) + Pow2(cs + 1) * 0 == Pow2(cs) < Pow2(cs + 1);
    Join(Pow2(cs), 0, cs + 1);
  }
}
