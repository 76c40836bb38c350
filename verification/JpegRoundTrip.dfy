/** The blocks of a restart interval from coefficients to bytes and back: whatever coefficients an encoder writes as
    ITU-T T.81 says, the decoder finds again. */
module JpegRoundTrip {
  import opened Bits
  import opened Canonical
  import opened JpegSpec
  import opened JpegEncode
  import opened JpegScan
  import JpegHuffman

  // ----- bytes

  /** The bits of the bytes, each most significant bit first. */
  function BitsOf(payload: seq<Byte>): (r: seq<bool>)
    ensures |r| == 8 * |payload|
  {
    if payload == [] then [] else CodeBits(payload[0], 8) + BitsOf(payload[1..])
  }

  /** A zero byte after every 0xFF, section F.1.2.3. */
  function Stuffed(payload: seq<Byte>): seq<Byte> {
    if payload == [] then [] else (if payload[0] == 0xFF then [0xFF, 0] else [payload[0]]) + Stuffed(payload[1..])
  }

  /** At `e` the file ends, or there is a marker: 0xFF, any number of times, and a byte that is neither 0 nor 0xFF. */
  ghost predicate EndsAt(bytes: seq<Byte>, e: nat) {
    e == |bytes| || exists m: nat | e < m < |bytes| :: bytes[m] != 0 && bytes[m] != 0xFF && forall i | e <= i < m :: bytes[i] == 0xFF
  }

  lemma {:induction false} UnfilledIs(bytes: seq<Byte>, p: nat, m: nat)
    requires p <= m < |bytes| && bytes[m] != 0xFF && forall i | p <= i < m :: bytes[i] == 0xFF
    ensures Unfilled(bytes, p) == m
    decreases m - p
  {
    if p < m { UnfilledIs(bytes, p + 1, m); }
  }

  lemma ByteCat(b: Byte, rest: nat)
    ensures Cat(CodeBits(b, 8), rest) == Top(b, 8) + 256 * rest
  {
    hide Cat, CodeBits, Top, Low, Shr;
    var x := Cat(CodeBits(b, 8), rest);
    Pow2Values();
    CatCode(b, 8, rest);
    Split(x, 8);
    LowBound(x, 8);
    LowLow(x, 8, 8);
    TopLow(x, Low(x, 8), 8);
    TopTop(Low(x, 8), 8);
  }

  /** The coded stream of stuffed bytes is their bits, and it ends where they do. */
  lemma {:induction false} StuffedBack(bytes: seq<Byte>, p: nat, payload: seq<Byte>)
    requires p + |Stuffed(payload)| <= |bytes| && bytes[p..p + |Stuffed(payload)|] == Stuffed(payload)
    requires EndsAt(bytes, p + |Stuffed(payload)|)
    ensures Coded(bytes, p) == Cat(BitsOf(payload), 0) && CodedBits(bytes, p) == |BitsOf(payload)|
    decreases |payload|
  {
    hide Cat, CodeBits, Top;
    if payload == [] {
      NothingWritten();
      if p < |bytes| {
        var m: nat :| p < m < |bytes| && bytes[m] != 0 && bytes[m] != 0xFF && forall i | p <= i < m :: bytes[i] == 0xFF;
        UnfilledIs(bytes, p + 1, m);
      }
    } else {
      var n := if payload[0] == 0xFF then 2 else 1;
      var all := Stuffed(payload);
      assert all[n..] == Stuffed(payload[1..]);
      assert bytes[p] == all[0] && (n == 2 ==> bytes[p + 1] == all[1]);
      if n == 2 { UnfilledIs(bytes, p + 1, p + 1); }
      assert bytes[p + n..p + |all|] == bytes[p..p + |all|][n..];
      StuffedBack(bytes, p + n, payload[1..]);
      CatCat(CodeBits(payload[0], 8), BitsOf(payload[1..]), 0);
      ByteCat(payload[0], Cat(BitsOf(payload[1..]), 0));
    }
  }

  lemma NothingWritten()
    ensures Cat([], 0) == 0
  {
  }

  /** Any bits can be filled up to whole bytes, with ones as section F.1.2.3 says. */
  lemma {:induction false} Padded(bits: seq<bool>) returns (payload: seq<Byte>, padding: seq<bool>)
    ensures BitsOf(payload) == bits + padding && |padding| < 8 && forall i | 0 <= i < |padding| :: padding[i]
    decreases |bits|
  {
    hide CodeBits;
    if bits == [] {
      payload, padding := [], [];
    } else if |bits| < 8 {
      padding := seq(8 - |bits|, _ => true);
      var b := ByteOf(bits + padding);
      payload := [b];
      assert BitsOf([b]) == CodeBits(b, 8) + BitsOf([]);
    } else {
      var b := ByteOf(bits[..8]);
      var more;
      more, padding := Padded(bits[8..]);
      payload := [b] + more;
      assert payload[1..] == more && bits == bits[..8] + bits[8..];
    }
  }

  lemma ByteOf(bits: seq<bool>) returns (b: Byte)
    requires |bits| == 8
    ensures CodeBits(b, 8) == bits
  {
    hide CodeBits, Cat, Top;
    var x := Cat(bits, 0);
    Pow2Values();
    TopBound(x, 8);
    b := Top(x, 8);
    TopCat(x, 8);
    CatSame(CodeBits(b, 8), Shr(x, 8), bits, 0);
  }

  // ----- blocks

  /** A component as the frame and scan headers describe it: its tables. */
  datatype Component = Component(hdc: JpegHuffman.Tables, hac: JpegHuffman.Tables, fac: array<int>, dequant: seq<nat>,
                                 ghost dc: HuffTable, ghost ac: HuffTable) {
    ghost function Objects(): set<object> {
      hdc.Repr + hac.Repr + {hdc.values as object, hac.values, fac}
    }
  }

  /** The acceleration tables of a component are those of its Huffman tables, and none of them is `data`. */
  ghost predicate Ready(c: Component, data: array<int>)
    reads c.Objects()
  {
    && c.dc.Ok() && c.ac.Ok() && Clean(c.dc, c.ac) && |c.dequant| == 64
    && c.hdc.TablesFor(c.dc.count) && c.hdc.values[..] == c.dc.values
    && c.hac.TablesFor(c.ac.count) && c.hac.values[..] == c.ac.values
    && c.fac.Length == 512 && JpegHuffman.FastAcFor(c.fac[..], c.ac)
    && data.Length == 64 && data != c.fac && data !in c.hac.Repr && data !in c.hdc.Repr
  }

  lemma Untouched(c: Component, data: array<int>, s: Scan)
    requires Ready(c, data)
    ensures s !in c.Objects() && data !in c.Objects()
  {
    hide HuffTable.Ok, Clean, JpegHuffman.FastAcFor;
    s.Apart(c.hdc, c.dc.count);
    s.Apart(c.hac, c.ac.count);
  }

  /** A block that was written is read, all 64 coefficients and the prediction for the next one. */
  method BlockRoundTrip(s: Scan, data: array<int>, c: Component, b: nat, ghost q: seq<int>, ghost later: nat) returns (ok: bool)
    requires s.Valid() && Ready(c, data) && b < 4 && |s.dc_pred| == 4 && BlockWritable(c.dc, c.ac, q, s.dc_pred[b])
    requires s.Stream() == Cat(BlockBits(c.dc, c.ac, q, s.dc_pred[b]), later)
    requires s.Available() >= |BlockBits(c.dc, c.ac, q, s.dc_pred[b])|
    modifies s, data
    ensures ok && s.Valid() && s.Stream() == later && s.Available() >= old(s.Available() - |BlockBits(c.dc, c.ac, q, s.dc_pred[b])|)
    ensures s.dc_pred == old(s.dc_pred)[b := q[0]] && BlockIs(data[..], q, c.dequant)
  {
    hide s.Valid, s.Stream, s.Available, Cat, BlockBits, WholeBlock, NextDc, Shr, Sizes, HuffTable.Ok, AcWritable, BlockIs, FitsWords;
    hide JpegHuffman.FastAcFor, Clean;
    ghost var pred := s.dc_pred[b];
    ghost var want := BlockBack(c.dc, c.ac, c.dequant, q, pred, later);
    ghost var used;
    ok, used := s.DecodeBlock(data, c.hdc, c.hac, c.fac, b, c.dequant, c.dc, c.ac);
  }

  // ----- a restart interval

  /** The components of the blocks in their order, with what is to be written: block `i` belongs to component `order[i]`. */
  ghost predicate IntervalWritable(comps: seq<Component>, order: seq<nat>, qs: seq<seq<int>>, pred: seq<int>)
    decreases |order|
  {
    && |order| == |qs| && |pred| == 4 && |comps| <= 4
    && (order != [] ==>
          && order[0] < |comps| && comps[order[0]].dc.Ok() && comps[order[0]].ac.Ok()
          && BlockWritable(comps[order[0]].dc, comps[order[0]].ac, qs[0], pred[order[0]])
          && IntervalWritable(comps, order[1..], qs[1..], pred[order[0] := qs[0][0]]))
  }

  /** Each block predicts from the one before it of the same component. */
  ghost function IntervalBits(comps: seq<Component>, order: seq<nat>, qs: seq<seq<int>>, pred: seq<int>): seq<bool>
    requires IntervalWritable(comps, order, qs, pred)
    decreases |order|
  {
    if order == [] then []
    else
      BlockBits(comps[order[0]].dc, comps[order[0]].ac, qs[0], pred[order[0]])
      + IntervalBits(comps, order[1..], qs[1..], pred[order[0] := qs[0][0]])
  }

  /** The written form of one more block. */
  lemma NextBlock(comps: seq<Component>, order: seq<nat>, qs: seq<seq<int>>, pred: seq<int>, rest: nat)
    requires IntervalWritable(comps, order, qs, pred) && order != []
    ensures order[0] < |comps| <= 4 == |pred| && comps[order[0]].dc.Ok() && comps[order[0]].ac.Ok()
    ensures BlockWritable(comps[order[0]].dc, comps[order[0]].ac, qs[0], pred[order[0]]) && |qs[0]| == 64
    ensures var c, q := comps[order[0]], qs[0];
            && IntervalWritable(comps, order[1..], qs[1..], pred[order[0] := q[0]])
            && Cat(IntervalBits(comps, order, qs, pred), rest)
            == Cat(BlockBits(c.dc, c.ac, q, pred[order[0]]), Cat(IntervalBits(comps, order[1..], qs[1..], pred[order[0] := q[0]]), rest))
            && |IntervalBits(comps, order, qs, pred)|
            == |BlockBits(c.dc, c.ac, q, pred[order[0]])| + |IntervalBits(comps, order[1..], qs[1..], pred[order[0] := q[0]])|
  {
    hide Cat, BlockBits, AcWritable, Has, Category, HuffTable.Ok;
    CatCat(BlockBits(comps[order[0]].dc, comps[order[0]].ac, qs[0], pred[order[0]]),
           IntervalBits(comps, order[1..], qs[1..], pred[order[0] := qs[0][0]]), rest);
  }

  ghost predicate AllReady(comps: seq<Component>, data: array<int>)
    reads set c, o | c in comps && o in c.Objects() :: o
  {
    forall i | 0 <= i < |comps| :: Ready(comps[i], data)
  }

  /** Block after block. */
  method ReadInterval(s: Scan, comps: seq<Component>, order: seq<nat>, data: array<int>, ghost qs: seq<seq<int>>, ghost later: nat)
    returns (ok: bool, blocks: seq<seq<int>>)
    requires s.Valid() && AllReady(comps, data) && IntervalWritable(comps, order, qs, s.dc_pred)
    requires s.Stream() == Cat(IntervalBits(comps, order, qs, s.dc_pred), later)
    requires s.Available() >= |IntervalBits(comps, order, qs, s.dc_pred)|
    modifies s, data
    ensures ok && s.Valid() && s.Stream() == later && BlocksAre(blocks, comps, order, qs)
  {
    hide s.Valid, s.Stream, s.Available, Cat, IntervalWritable, IntervalBits, Ready, BlockIs, BlockWritable, BlockBits;
    ok, blocks := true, [];
    var i := 0;
    NoBlocks(comps, order, qs, s.dc_pred);
    assert order[0..] == order && qs[0..] == qs;
    while i < |order|
      invariant 0 <= i <= |order| == |qs| && ok && s.Valid() && AllReady(comps, data)
      invariant IntervalWritable(comps, order[i..], qs[i..], s.dc_pred)
      invariant s.Stream() == Cat(IntervalBits(comps, order[i..], qs[i..], s.dc_pred), later)
      invariant s.Available() >= |IntervalBits(comps, order[i..], qs[i..], s.dc_pred)|
      invariant BlocksAre(blocks, comps, order[..i], qs[..i])
    {
      NextBlock(comps, order[i..], qs[i..], s.dc_pred, later);
      assert order[i..][1..] == order[i + 1..] && qs[i..][1..] == qs[i + 1..];
      forall k | 0 <= k < |comps| ensures s !in comps[k].Objects() && data !in comps[k].Objects() {
        Untouched(comps[k], data, s);
      }
      label Before:
      ok := BlockRoundTrip(s, data, comps[order[i]], order[i], qs[i],
                           Cat(IntervalBits(comps, order[i + 1..], qs[i + 1..], s.dc_pred[order[i] := qs[i][0]]), later));
      forall k | 0 <= k < |comps| ensures Ready(comps[k], data) {
        assert unchanged@Before(comps[k].Objects());
      }
      blocks := blocks + [data[..]];
      i := i + 1;
    }
    assert order[..i] == order && qs[..i] == qs && order[i..] == [] && qs[i..] == [];
    EmptyInterval(comps, s.dc_pred, later);
  }

  lemma NoBlocks(comps: seq<Component>, order: seq<nat>, qs: seq<seq<int>>, pred: seq<int>)
    requires IntervalWritable(comps, order, qs, pred)
    ensures |order| == |qs|
  {
  }

  lemma EmptyInterval(comps: seq<Component>, pred: seq<int>, rest: nat)
    requires IntervalWritable(comps, [], [], pred)
    ensures Cat(IntervalBits(comps, [], [], pred), rest) == rest
  {
  }

  /** Every block is the one that was written. */
  ghost predicate BlocksAre(blocks: seq<seq<int>>, comps: seq<Component>, order: seq<nat>, qs: seq<seq<int>>) {
    && |blocks| == |order| == |qs|
    && forall i | 0 <= i < |order| :: order[i] < |comps| && BlockIs(blocks[i], qs[i], comps[order[i]].dequant)
  }

  /** From the bytes of the interval to its coefficients: its bits are padded to whole bytes, stuffed, and followed by a marker
      or the end of the file. */
  method IntervalRoundTrip(bytes: seq<Byte>, start: nat, comps: seq<Component>, order: seq<nat>, data: array<int>,
                           ghost payload: seq<Byte>, ghost qs: seq<seq<int>>, ghost padding: seq<bool>)
    returns (ok: bool, blocks: seq<seq<int>>)
    requires AllReady(comps, data) && IntervalWritable(comps, order, qs, [0, 0, 0, 0])
    requires start + |Stuffed(payload)| <= |bytes| && bytes[start..start + |Stuffed(payload)|] == Stuffed(payload)
    requires EndsAt(bytes, start + |Stuffed(payload)|)
    requires BitsOf(payload) == IntervalBits(comps, order, qs, [0, 0, 0, 0]) + padding
    modifies data
    ensures ok && BlocksAre(blocks, comps, order, qs)
  {
    hide Stuffed, BitsOf, EndsAt, Cat, Coded, CodedBits, IntervalWritable, IntervalBits, Ready, BlocksAre;
    StuffedBack(bytes, start, payload);
    CatCat(IntervalBits(comps, order, qs, [0, 0, 0, 0]), padding, 0);
    var s := new Scan(bytes, start);
    forall i | 0 <= i < |comps| ensures Ready(comps[i], data) {
      assert unchanged(comps[i].Objects());
    }
    ok, blocks := ReadInterval(s, comps, order, data, qs, Cat(padding, 0));
  }
}
