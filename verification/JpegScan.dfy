/** The entropy decoder of a baseline JPEG scan: the 32-bit bit buffer with byte unstuffing, Huffman decoding,
    receive-and-extend, and one block of coefficients. */
module JpegScan {
  import opened Bits
  import opened Canonical
  import opened JpegSpec
  import JpegHuffman
  import JpegEncode

  // ----- the coded bits of a scan

  /** The next byte that is not a fill byte, from `p` on. */
  function Unfilled(bytes: seq<Byte>, p: nat): (r: nat)
    requires p <= |bytes|
    ensures p <= r <= |bytes|
    decreases |bytes| - p
  {
    if p < |bytes| && bytes[p] == 0xFF then Unfilled(bytes, p + 1) else p
  }

  /** At `p`: 0xFF, then perhaps fill bytes, then a byte that is not zero. */
  predicate MarkerAt(bytes: seq<Byte>, p: nat) {
    p < |bytes| && bytes[p] == 0xFF && ByteAt(bytes, Unfilled(bytes, p + 1)) != 0
  }

  /** Where the byte after the one at `p` starts: 0xFF is followed by a stuffed zero. */
  function AfterByte(bytes: seq<Byte>, p: nat): (r: nat)
    requires p < |bytes|
    ensures p < r <= |bytes|
  {
    if bytes[p] == 0xFF then NextPos(bytes, Unfilled(bytes, p + 1)) else p + 1
  }

  /** The bits from `p` to the next marker or the end of the file, and zeros after them; every byte starts with
      its most significant bit (sections B.1.1.5 and F.2.2.5). */
  function Coded(bytes: seq<Byte>, p: nat): nat
    decreases |bytes| - p
  {
    if p >= |bytes| || MarkerAt(bytes, p) then 0
    else Top(bytes[p], 8) + 256 * Coded(bytes, AfterByte(bytes, p))
  }

  /** How many bits come before the marker or the end of the file. */
  function CodedBits(bytes: seq<Byte>, p: nat): nat
    decreases |bytes| - p
  {
    if p >= |bytes| || MarkerAt(bytes, p) then 0 else 8 + CodedBits(bytes, AfterByte(bytes, p))
  }

  // ----- the bit buffer

  /** `buffer` holds the `bits` first bits of a stream, most significant bit first. */
  predicate Buffered(buffer: nat, bits: nat, held: nat) {
    bits <= 32 && held < Pow2(bits) && buffer == Top(held, 32)
  }

  function Joined(held: nat, bits: nat, ahead: nat): nat {
    held + Pow2(bits) * ahead
  }

  lemma BufferWord(buffer: nat, bits: nat, held: nat)
    requires Buffered(buffer, bits, held)
    ensures held < Pow2(32) && buffer < Pow2(32)
  {
    Pow2Mono(bits, 32);
    TopBound(held, 32);
  }

  /** One byte put behind the bits of the buffer. */
  lemma PutByte(buffer: nat, bits: nat, held: nat, b: Byte)
    requires Buffered(buffer, bits, held) && bits <= 24
    ensures Buffered(Or(Shl(b, 24 - bits), buffer), bits + 8, Joined(held, bits, Top(b, 8)))
  {
    hide Or, Top, Low, Shr, Pow2;
    var r := Top(b, 8);
    var x := held + Pow2(bits) * r;
    assert b < Pow2(8) by { Pow2Values(); }
    TopBound(b, 8);
    TopTop(b, 8);
    Widen(held, bits, r);
    TopSplit(x, bits, 32 - bits);
    Join(held, r, bits);
    TopLow(x, held, bits);
    JoinShr(held, r, bits, bits);
    NoBits(held);
    TopShort(held, bits, 32 - bits);
    TopShort(r, 8, 24 - bits);
    Pow2Add(8, 24 - bits);
    StrictScale(b, Pow2(8), Pow2(24 - bits));
    OrAdd(Shl(b, 24 - bits), Top(held, bits), 32 - bits);
    assert 8 + (24 - bits) == 32 - bits;
  }

  lemma Widen(held: nat, bits: nat, r: nat)
    requires held < Pow2(bits) && r < Pow2(8)
    ensures held + Pow2(bits) * r < Pow2(bits + 8)
  {
    hide Pow2;
    Pow2Add(bits, 8);
    Scale(r, Pow2(8) - 1, Pow2(bits));
    assert (Pow2(8) - 1) * Pow2(bits) == Pow2(8) * Pow2(bits) - Pow2(bits);
  }

  lemma JoinedByte(held: nat, bits: nat, r: nat, rest: nat)
    ensures Joined(held, bits, r + 256 * rest) == Joined(Joined(held, bits, r), bits + 8, rest)
  {
    hide Pow2;
    Pow2Add(bits, 8);
    assert Pow2(8) == 256 by { Pow2Values(); }
    var p := Pow2(bits);
    assert p * (r + 256 * rest) == p * r + p * (256 * rest);
    assert (p * 256) * rest == p * (256 * rest);
  }

  lemma JoinedNone(held: nat, bits: nat)
    ensures Joined(held, bits, 0) == held
  {
  }

  lemma NothingHeld(ahead: nat)
    ensures Joined(0, 0, ahead) == ahead
  {
  }

  lemma PutNothing(n: nat)
    ensures Or(Shl(0, n), 0) == 0 && forall bits: nat | bits <= 32 :: Buffered(0, bits, 0)
  {
    TopZero(32);
  }

  lemma ByteIs(b: Byte)
    ensures Top(b, 8) < 256 && Top(0, 8) == 0
  {
    TopBound(b, 8);
    TopZero(8);
    Pow2Values();
  }

  /** `n` bits leave the buffer. */
  lemma Dropped(buffer: nat, bits: nat, held: nat, n: nat)
    requires Buffered(buffer, bits, held)
    ensures Low(Shl(buffer, n), 32) == Top(Shr(held, n), 32)
    ensures n <= bits ==> Buffered(Low(Shl(buffer, n), 32), bits - n, Shr(held, n))
    ensures n > bits ==> Shr(held, n) == 0
  {
    hide Top, Low, Shr, Pow2, Shl;
    BufferWord(buffer, bits, held);
    TopShift(held, 32, n);
    if n <= bits {
      JoinShr(held, 0, bits, n);
    } else {
      Pow2Mono(bits, n);
      ShrSmall(held, n);
    }
  }

  lemma JoinedDrop(held: nat, bits: nat, ahead: nat, n: nat)
    requires held < Pow2(bits) && n <= bits
    ensures Shr(Joined(held, bits, ahead), n) == Joined(Shr(held, n), bits - n, ahead)
    ensures Top(Joined(held, bits, ahead), n) == Top(held, n)
  {
    hide Top, Low, Shr, Pow2;
    JoinShr(held, ahead, bits, n);
    TopLow(held + Pow2(bits) * ahead, held, n);
  }

  /** The top of the buffer is the start of what it holds. */
  lemma Peeked(buffer: nat, bits: nat, held: nat, n: nat)
    requires Buffered(buffer, bits, held) && n <= 32
    ensures Shr(buffer, 32 - n) == Top(held, n)
  {
    TopPrefix(held, n, 32);
  }

  class Scan {
    const bytes: seq<Byte>
    var pos: nat
    var code_buffer: nat
    var code_bits: int
    var marker: nat
    var nomore: bool
    var dc_pred: seq<int>
    ghost var held: nat

    ghost predicate Valid()
      reads this
    {
      && pos <= |bytes| && code_bits <= 32 && |dc_pred| == 4
      && (code_bits >= 0 ==> Buffered(code_buffer, code_bits, held))
      && (code_bits < 0 ==> nomore && held == 0 && code_buffer == 0)
    }

    /** Everything still to be read, as one stream. */
    ghost function Stream(): nat
      reads this
    {
      if nomore || code_bits < 0 then held else Joined(held, code_bits, Coded(bytes, pos))
    }

    /** The bits there are at least: what is padded with zeros after a marker counts from then on. */
    ghost function Available(): int
      reads this
    {
      code_bits + if nomore then 0 else CodedBits(bytes, pos)
    }

    /** `stbi__jpeg_reset` at the start of a scan. */
    constructor (bytes: seq<Byte>, start: nat)
      requires start <= |bytes|
      ensures Valid() && Stream() == Coded(bytes, start) && Available() == CodedBits(bytes, start) && dc_pred == [0, 0, 0, 0]
    {
      hide Coded, CodedBits, Buffered, Joined;
      this.bytes := bytes;
      pos := start;
      code_buffer, code_bits, marker, nomore := 0, 0, 0xFF, false;
      dc_pred := [0, 0, 0, 0];
      held := 0;
      new;
      assert Valid() && Stream() == Coded(bytes, start) by {
        PutNothing(0);
        NothingHeld(Coded(bytes, start));
      }
    }

    method Get8() returns (b: Byte)
      requires pos <= |bytes|
      modifies this`pos
      ensures b == ByteAt(bytes, old(pos)) && pos == NextPos(bytes, old(pos))
    {
      if pos < |bytes| {
        b := bytes[pos];
        pos := pos + 1;
      } else {
        b := 0;
      }
    }

    /** The next coded byte, without its stuffed zero; or, instead of it, a marker. */
    method ReadCoded() returns (b: Byte, found: Byte)
      requires pos <= |bytes|
      modifies this`pos
      ensures pos <= |bytes| && (found != 0 <==> MarkerAt(bytes, old(pos)))
      ensures found == 0 ==> b == ByteAt(bytes, old(pos)) && pos == if old(pos) < |bytes| then AfterByte(bytes, old(pos)) else old(pos)
    {
      ghost var p0 := pos;
      b := Get8();
      found := 0;
      if b == 0xFF {
        var c := Get8();
        while c == 0xFF
          invariant p0 < pos <= |bytes|
          invariant c == 0xFF ==> Unfilled(bytes, p0 + 1) == Unfilled(bytes, pos)
          invariant c != 0xFF ==> c == ByteAt(bytes, Unfilled(bytes, p0 + 1)) && pos == NextPos(bytes, Unfilled(bytes, p0 + 1))
          decreases |bytes| - pos, c
        {
          c := Get8();
        }
        if c != 0 {
          found := c;
        }
      }
    }

    /** One turn of the loop of `stbi__grow_buffer_unsafe`; `stop` at a marker. */
    method GrowByte() returns (stop: bool)
      requires Valid() && code_bits <= 24
      modifies `pos, `code_buffer, `code_bits, `marker, `nomore, `held
      ensures Valid() && Stream() == old(Stream()) && Available() >= old(Available())
      ensures stop ==> nomore && !old(nomore) && code_bits == old(code_bits)
      ensures !stop ==> nomore == old(nomore) && code_bits == old(code_bits) + 8
    {
      hide Buffered, Or, Top, Pow2, Joined, Shl, MarkerAt, AfterByte;
      JoinedNone(held, if code_bits < 0 then 0 else code_bits);
      ByteIs(0);
      var b: Byte := 0;
      if !nomore {
        var found: Byte;
        b, found := ReadCoded();
        if found != 0 {
          marker := found;
          nomore := true;
          return true;
        }
      }
      if code_bits >= 0 {
        PutByte(code_buffer, code_bits, held, b);
        JoinedByte(held, code_bits, Top(b, 8), if nomore then 0 else Coded(bytes, pos));
        held := Joined(held, code_bits, Top(b, 8));
        JoinedNone(held, code_bits + 8);
      }
      PutNothing(24 - code_bits);
      code_buffer := Or(Shl(b, 24 - code_bits), code_buffer);
      code_bits := code_bits + 8;
      return false;
    }

    /** `stbi__grow_buffer_unsafe`: the stream stays, and there are more than 24 bits in the buffer unless a
        marker has just been met. */
    method Grow()
      requires Valid() && code_bits <= 24
      modifies `pos, `code_buffer, `code_bits, `marker, `nomore, `held
      ensures Valid() && Stream() == old(Stream()) && Available() >= old(Available())
      ensures code_bits > 24 || (nomore && code_bits >= old(code_bits))
    {
      hide Valid, Stream, Available;
      var stop := GrowByte();
      while !stop && code_bits <= 24
        invariant Valid() && Stream() == old(Stream()) && Available() >= old(Available()) && code_bits >= old(code_bits)
        invariant stop ==> nomore
        decreases 32 - code_bits, !stop
      {
        stop := GrowByte();
      }
    }

    /** The first bits of the buffer are the first bits of the stream. */
    lemma Peek(n: nat)
      requires Valid() && n <= 32 && (nomore || n <= code_bits)
      ensures Shr(code_buffer, 32 - n) == Top(Stream(), n)
    {
      hide Shr, Top, Pow2, Joined;
      if code_bits >= 0 {
        Peeked(code_buffer, code_bits, held, n);
        if !nomore { JoinedDrop(held, code_bits, Coded(bytes, pos), n); }
      } else {
        TopZero(n);
        TopZero(32 - n);
      }
    }

    /** Drop `n` bits; `buffer` is the buffer shifted to the left. */
    method Consume(n: nat, buffer: nat)
      requires Valid() && (nomore || n <= code_bits) && buffer == Low(Shl(code_buffer, n), 32)
      modifies `code_buffer, `code_bits, `held
      ensures Valid() && Stream() == Shr(old(Stream()), n) && Available() == old(Available()) - n
    {
      hide Shr, Top, Pow2, Joined, Low, Shl, Buffered, Coded, CodedBits;
      DropNothing(n);
      if code_bits >= 0 {
        Dropped(code_buffer, code_bits, held, n);
        TopZero(32);
        if !nomore {
          HeldBound(code_buffer, code_bits, held);
          JoinedDrop(held, code_bits, Coded(bytes, pos), n);
        }
      }
      code_buffer := buffer;
      code_bits := code_bits - n;
      held := Shr(held, n);
    }

    /** The search for the length of the code, from 10 bits on. */
    static method SearchLength(t: JpegHuffman.Tables, temp: nat, ghost count: seq<nat>) returns (k: nat)
      requires Counts(count) && t.TablesFor(count) && temp < 0x1_0000
      ensures 10 <= k <= 17 && (k <= 16 ==> temp < Edge(Sizes(count), k))
      ensures forall l | 10 <= l < k && l <= 16 :: Edge(Sizes(count), l) <= temp
    {
      hide Sizes, Upto, First, Edge, JpegHuffman.FastIndex, FitsWords;
      k := JpegHuffman.FAST_BITS + 1;
      while temp >= t.maxcode[k]
        invariant 10 <= k <= 17
        invariant forall l | 10 <= l < k && l <= 16 :: Edge(Sizes(count), l) <= temp
        decreases 17 - k
      {
        k := k + 1;
      }
    }

    /** Decoding when the table of short codes has no entry. */
    method SlowSymbol(t: JpegHuffman.Tables, ghost h: HuffTable) returns (r: int)
      requires Valid() && (nomore || code_bits >= 16) && h.Ok() && t.TablesFor(h.count) && t.values[..] == h.values
      requires Miss(h, Stream())
      modifies `code_buffer, `code_bits, `held
      ensures Symbol(h, old(Stream()), r)
      ensures r >= 0 ==> Valid() && Stream() == Shr(old(Stream()), Taken(h, old(Stream()))) && Available() == old(Available()) - Taken(h, old(Stream()))
      ensures r < 0 && NextValue(h, old(Stream())) >= 0 ==> Taken(h, old(Stream())) > old(code_bits)
    {
      hide Valid, Stream, Available, Sizes, Upto, First, Edge, JpegHuffman.Tables.TablesFor, HuffTable.Ok, Top, Shr, T81Decode, FitsWords, NextValue, NextLen;
      ghost var v := Stream();
      JpegHuffman.TableOk(h);
      Peek(16);
      Word16(v);
      var temp := Shr(code_buffer, 16);
      var k := SearchLength(t, temp, h.count);
      if k == 17 {
        NoSymbol(h, v);
        code_bits := code_bits - 16;
        return -1;
      }
      FoundSymbol(t, h, v, k);
      if k > code_bits {
        return -1;
      }
      Peek(k);
      LowTop(v, k);
      var c := Low(Shr(code_buffer, 32 - k), k) + t.delta[k];
      assert JpegHuffman.Sound(h.count, v) ==> Low(Shr(code_buffer, 32 - t.size[c]), t.size[c]) == t.code[c];
      assert t.values[c] == t.values[..][c];
      Consume(k, Low(Shl(code_buffer, k), 32));
      r := t.values[c];
    }

    /** `stbi__jpeg_huff_decode`: the value of the symbol whose code starts the stream; -1 when no code does, or
        when the code does not end before the marker. */
    method HuffDecode(t: JpegHuffman.Tables, ghost h: HuffTable) returns (r: int)
      requires Valid() && h.Ok() && t.TablesFor(h.count) && t.values[..] == h.values
      modifies `pos, `code_buffer, `code_bits, `marker, `nomore, `held
      ensures Symbol(h, old(Stream()), r)
      ensures r >= 0 ==> Valid() && Stream() == Shr(old(Stream()), Taken(h, old(Stream()))) && Available() >= old(Available()) - Taken(h, old(Stream()))
      ensures r < 0 && NextValue(h, old(Stream())) >= 0 ==> nomore && Taken(h, old(Stream())) > old(Available())
    {
      hide Valid, Stream, Available, Sizes, Upto, First, Edge, JpegHuffman.Tables.TablesFor, HuffTable.Ok, Top, Shr, T81Decode, FitsWords, NextValue, NextLen, Symbol, Taken;
      ghost var v := Stream();
      Apart(t, h.count);
      if code_bits < 16 {
        Grow();
      }
      assert unchanged(t.Repr);
      AvailableNow();
      Peek(JpegHuffman.FAST_BITS);
      LowTop(v, JpegHuffman.FAST_BITS);
      TakenShort(h, v);
      var c := Low(Shr(code_buffer, 32 - JpegHuffman.FAST_BITS), JpegHuffman.FAST_BITS);
      FastEntry(t, h, v);
      var k := t.fast[c];
      if k < 255 {
        var s := t.size[k];
        if s > code_bits {
          return -1;
        }
        assert t.values[k] == t.values[..][k];
        Consume(s, Low(Shl(code_buffer, s), 32));
        r := t.values[k];
      } else {
        r := SlowSymbol(t, h);
      }
    }

    /** `stbi__extend_receive`: RECEIVE and EXTEND in one go. */
    method ExtendReceive(n: nat) returns (r: int)
      requires Valid() && 1 <= n <= 15
      modifies `pos, `code_buffer, `code_bits, `marker, `nomore, `held
      ensures Valid() && r == ExtendSign(ReceiveBits(old(Stream()), n), n)
      ensures Stream() == Shr(old(Stream()), n) && Available() >= old(Available()) - n
    {
      hide Valid, Stream, Available, Shr, Low, Top, Shl, Or, JBIAS, Pow2;
      if code_bits < n {
        Grow();
      }
      var sgn := Shr(code_buffer, 31);
      Peek(1);
      Peek(n);
      BufferSmall();
      Rotated(code_buffer, n);
      ExtendIs(Stream(), n);
      var k := RotateLeft(code_buffer, n);
      Consume(n, k - Low(k, n));
      k := Low(k, n);
      r := k + if sgn == 0 then JBIAS[n] else 0;
    }

    lemma BufferSmall()
      requires Valid()
      ensures code_buffer < Pow2(32)
    {
      if code_bits >= 0 { BufferWord(code_buffer, code_bits, held); }
    }

    /** A turn that takes the code and the magnitude one after the other. */
    method SlowTurn(data: array<int>, hac: JpegHuffman.Tables, dequant: seq<nat>, k: nat, ghost ac: HuffTable)
      returns (ok: bool, more: bool, next: nat, ghost used: nat)
      requires Valid() && ac.Ok() && hac.TablesFor(ac.count) && hac.values[..] == ac.values
      requires |dequant| == 64 && data.Length == 64 && data !in hac.Repr && k < 64
      modifies `pos, `code_buffer, `code_bits, `marker, `nomore, `held, data
      ensures ok ==> Valid() && next > k
      ensures ok && JpegHuffman.NoClash(Sizes(ac.count)) ==>
                && Advanced(ac, dequant, old(Stream()), k, old(data[..]), used, Stream(), more, next, data[..])
                && Available() >= old(Available()) - used
      ensures !ok && JpegHuffman.NoClash(Sizes(ac.count)) ==>
                var want := AcBlock(ac, dequant, old(Stream()), k, old(data[..]));
                want.Corrupt? || (nomore && want.used > old(Available()))
    {
      hide *;
      ghost var v, d := Stream(), data[..];
      TakenIs(ac, v);
      SlowStep(ac, dequant, v, k, d);
      var rs := HuffDecode(hac, ac);
      SymbolIs(ac, v, rs);
      ok, more, next, used := true, true, k + 16, NextLen(ac, v);
      if rs < 0 {
        ok := false;
        return;
      }
      var s := rs % 16;
      var r := rs / 16;
      if s == 0 {
        if rs != 0xF0 {
          more := false;
        }
      } else {
        var at := k + r;
        DezigzagIsZigzag(at);
        var zig := DEZIGZAG[at];
        var value := ExtendReceive(s);
        data[zig] := Short(value * dequant[zig]);
        PlacedIs(dequant, d, at, value);
        ShrShr(v, NextLen(ac, v), s);
        next, used := at + 1, used + s;
      }
    }

    /** One turn of the loop over the coefficients: `more` unless the block has ended, `ok` unless the code is bad. */
    method AcTurn(data: array<int>, hac: JpegHuffman.Tables, fac: array<int>, dequant: seq<nat>, k: nat, ghost ac: HuffTable)
      returns (ok: bool, more: bool, next: nat, ghost used: nat)
      requires Valid() && ac.Ok() && hac.TablesFor(ac.count) && hac.values[..] == ac.values
      requires fac.Length == 512 && JpegHuffman.FastAcFor(fac[..], ac) && |dequant| == 64
      requires data.Length == 64 && data != fac && data !in hac.Repr && k < 64
      modifies `pos, `code_buffer, `code_bits, `marker, `nomore, `held, data
      ensures ok ==> Valid() && next > k
      ensures ok && JpegHuffman.NoClash(Sizes(ac.count)) ==>
                && Advanced(ac, dequant, old(Stream()), k, old(data[..]), used, Stream(), more, next, data[..])
                && Available() >= old(Available()) - used
      ensures !ok && JpegHuffman.NoClash(Sizes(ac.count)) ==>
                var want := AcBlock(ac, dequant, old(Stream()), k, old(data[..]));
                want.Corrupt? || (nomore && want.used > old(Available()))
    {
      hide Valid, Stream, Available, Sizes, JpegHuffman.Tables.TablesFor, JpegHuffman.NoClash, HuffTable.Ok, Top, Shr, Low, Shl;
      hide AcBlock, Advanced, Placed, DEZIGZAG, Short, Pow2;
      ghost var v, d := Stream(), data[..];
      Apart(hac, ac.count);
      if code_bits < 16 {
        Grow();
      }
      assert unchanged(hac.Repr);
      Peek(JpegHuffman.FAST_BITS);
      LowTop(v, JpegHuffman.FAST_BITS);
      var c := Low(Shr(code_buffer, 32 - JpegHuffman.FAST_BITS), JpegHuffman.FAST_BITS);
      var r := fac[c];
      ok, more := true, true;
      if r != 0 {
        FastStep(fac[..], ac, dequant, v, k, d);
        var at := k + r / 16 % 16;
        var s := r % 16;
        Consume(s, Low(Shl(code_buffer, s), 32));
        DezigzagIsZigzag(at);
        var zig := DEZIGZAG[at];
        data[zig] := Short(r / 256 * dequant[zig]);
        PlacedIs(dequant, d, at, r / 256);
        next, used := at + 1, s;
      } else {
        ok, more, next, used := SlowTurn(data, hac, dequant, k, ac);
      }
    }

    /** The difference of the first coefficient. */
    method DecodeDc(hdc: JpegHuffman.Tables, ghost dc: HuffTable) returns (ok: bool, diff: int, ghost used: nat)
      requires Valid() && dc.Ok() && hdc.TablesFor(dc.count) && hdc.values[..] == dc.values
      modifies `pos, `code_buffer, `code_bits, `marker, `nomore, `held
      ensures ok ==> Valid()
      ensures ok && JpegHuffman.NoClash(Sizes(dc.count)) ==>
                NextDc(dc, old(Stream())) == Dc(diff, used) && Stream() == Shr(old(Stream()), used) && Available() >= old(Available()) - used
      ensures !ok && JpegHuffman.NoClash(Sizes(dc.count)) ==>
                var want := NextDc(dc, old(Stream()));
                want.BadDc? || (nomore && want.used > old(Available()))
    {
      hide Valid, Stream, Available, Sizes, JpegHuffman.Tables.TablesFor, JpegHuffman.NoClash, HuffTable.Ok, Shr, NextValue, NextLen, ExtendSign, ReceiveBits, Taken, Symbol;
      ghost var v := Stream();
      Apart(hdc, dc.count);
      if code_bits < 16 {
        Grow();
      }
      assert unchanged(hdc.Repr);
      TakenIs(dc, v);
      var t := HuffDecode(hdc, dc);
      SymbolIs(dc, v, t);
      diff, used := 0, NextLen(dc, v);
      if t < 0 || t > 15 {
        ok := false;
        return;
      }
      ok := true;
      ReceiveNone(Shr(v, used));
      if t != 0 {
        ShrShr(v, used, t);
        diff := ExtendReceive(t);
        used := used + t;
      }
    }

    /** The loop over the other coefficients. */
    method DecodeAc(data: array<int>, hac: JpegHuffman.Tables, fac: array<int>, dequant: seq<nat>, ghost ac: HuffTable)
      returns (ok: bool, ghost used: nat)
      requires Valid() && ac.Ok() && hac.TablesFor(ac.count) && hac.values[..] == ac.values
      requires fac.Length == 512 && JpegHuffman.FastAcFor(fac[..], ac) && |dequant| == 64
      requires data.Length == 64 && data != fac && data !in hac.Repr
      modifies `pos, `code_buffer, `code_bits, `marker, `nomore, `held, data
      ensures ok ==> Valid()
      ensures ok && JpegHuffman.NoClash(Sizes(ac.count)) ==>
                && AcBlock(ac, dequant, old(Stream()), 1, old(data[..])) == Block(data[..], used)
                && Stream() == Shr(old(Stream()), used) && Available() >= old(Available()) - used
      ensures !ok && JpegHuffman.NoClash(Sizes(ac.count)) ==>
                var want := AcBlock(ac, dequant, old(Stream()), 1, old(data[..]));
                want.Corrupt? || (nomore && want.used > old(Available()))
    {
      hide Valid, Stream, Available, Sizes, JpegHuffman.Tables.TablesFor, JpegHuffman.FastAcFor, JpegHuffman.NoClash, HuffTable.Ok, Shr, AcBlock, Advanced;
      ghost var v, avail, want, entries := Stream(), Available(), AcBlock(ac, dequant, Stream(), 1, data[..]), fac[..];
      Apart(hac, ac.count);
      JpegHuffman.TableOk(ac);
      NoBits(v);
      var k, more := 1, true;
      used, ok := 0, true;
      while more && k < 64
        invariant ok && Valid() && 1 <= k && fac[..] == entries
        invariant hac.TablesFor(ac.count) && hac.values[..] == ac.values
        invariant JpegHuffman.NoClash(Sizes(ac.count)) ==>
                    && want == After(used, if more then AcBlock(ac, dequant, Stream(), k, data[..]) else Block(data[..], 0))
                    && Stream() == Shr(v, used) && Available() >= avail - used
        decreases more, if k < 64 then 64 - k else 0
      {
        ghost var was, s, k0, d, step := used, Stream(), k, data[..], 0;
        ok, more, k, step := AcTurn(data, hac, fac, dequant, k, ac);
        assert unchanged(hac.Repr);
        if !ok {
          return;
        }
        ShrShr(v, was, step);
        GoneOn(ac, dequant, s, k0, d, step, Stream(), more, k, data[..], was);
        used := was + step;
      }
      BlockEnds(ac, dequant, Stream(), k, data[..]);
    }

    /** `stbi__jpeg_decode_block`: the block that reading the stream bit by bit gives, whichever tables the codes
        are looked up in; it fails only if that fails or needs more bits than come before the marker. */
    method DecodeBlock(data: array<int>, hdc: JpegHuffman.Tables, hac: JpegHuffman.Tables, fac: array<int>, b: nat, dequant: seq<nat>,
                       ghost dc: HuffTable, ghost ac: HuffTable)
      returns (ok: bool, ghost used: nat)
      requires Valid() && dc.Ok() && ac.Ok() && hdc.TablesFor(dc.count) && hdc.values[..] == dc.values
      requires hac.TablesFor(ac.count) && hac.values[..] == ac.values
      requires fac.Length == 512 && JpegHuffman.FastAcFor(fac[..], ac) && |dequant| == 64 && b < 4
      requires data.Length == 64 && data != fac && data !in hac.Repr && data !in hdc.Repr
      modifies this, data
      ensures ok ==> Valid()
      ensures ok && Clean(dc, ac) ==>
                && WholeBlock(dc, ac, dequant, old(Stream()), old(dc_pred)[b]) == Block(data[..], used)
                && Stream() == Shr(old(Stream()), used) && Available() >= old(Available()) - used
                && dc_pred == old(dc_pred)[b := old(dc_pred)[b] + NextDc(dc, old(Stream())).diff]
      ensures ok && Clean(dc, ac) ==> |dc_pred| == 4 && JpegEncode.IsWord(data[0], dc_pred[b] * dequant[0])
      ensures !ok && Clean(dc, ac) ==>
                var want := WholeBlock(dc, ac, dequant, old(Stream()), old(dc_pred)[b]);
                want.Corrupt? || (nomore && want.used > old(Available()))
    {
      hide Valid, Stream, Available, Sizes, JpegHuffman.Tables.TablesFor, JpegHuffman.FastAcFor, HuffTable.Ok, Shr, NextDc, AcBlock, Clean;
      ghost var v, entries := Stream(), fac[..];
      Apart(hdc, dc.count);
      Apart(hac, ac.count);
      CleanIs(dc, ac);
      Components();
      var diff;
      ok, diff, used := DecodeDc(hdc, dc);
      if !ok {
        return;
      }
      forall i | 0 <= i < 64 { data[i] := 0; }
      var pred := dc_pred[b] + diff;
      SetPred(b, pred);
      data[0] := Short(pred * dequant[0]);
      assert data[..] == Start(dequant, pred);
      assert unchanged(hac.Repr) && fac[..] == entries;
      ghost var first := used;
      ok, used := DecodeAc(data, hac, fac, dequant, ac);
      ShrShr(v, first, used);
      used := first + used;
      JpegEncode.FirstIs(dc, ac, dequant, v, old(dc_pred)[b]);
    }

    lemma Components()
      requires Valid()
      ensures |dc_pred| == 4
    {
    }

    method SetPred(b: nat, pred: int)
      requires Valid() && b < 4
      modifies `dc_pred
      ensures Valid() && dc_pred == old(dc_pred)[b := pred] && Stream() == old(Stream()) && Available() == old(Available())
    {
      hide Coded, CodedBits, Buffered, Joined;
      dc_pred := dc_pred[b := pred];
    }

    lemma Apart(t: JpegHuffman.Tables, count: seq<nat>)
      requires t.TablesFor(count)
      ensures this !in t.Repr
    {
    }

    lemma AvailableNow()
      requires Valid()
      ensures nomore ==> Available() == code_bits
    {
    }
  }

  // ----- receive and extend

  const JBIAS: seq<int> := [0, -1, -3, -7, -15, -31, -63, -127, -255, -511, -1023, -2047, -4095, -8191, -16383, -32767]

  function RotateLeft(x: nat, n: nat): nat
    requires n <= 32
  {
    Or(Shr(x, 32 - n), Low(Shl(x, n), 32))
  }

  /** Rotation puts the first `n` bits below the others, shifted. */
  lemma Rotated(x: nat, n: nat)
    requires x < Pow2(32) && n <= 32
    ensures Low(RotateLeft(x, n), n) == Shr(x, 32 - n)
    ensures RotateLeft(x, n) - Low(RotateLeft(x, n), n) == Low(Shl(x, n), 32)
  {
    hide Low, Shr, Pow2, Or;
    var m := 32 - n;
    var lo, hi := Low(x, m), Shr(x, m);
    Split(x, m);
    LowBound(x, m);
    Pow2Add(n, m);
    assert Pow2(m) * hi == hi * Pow2(m);
    JpegHuffman.Carry(hi, lo, Pow2(m), Pow2(n));
    Join(lo * Pow2(n), hi, 32);
    JoinShr(x, 0, 32, m);
    OrAdd(hi, lo, n);
    assert lo * Pow2(n) == Pow2(n) * lo;
    Join(hi, lo, n);
  }

  lemma BiasIs(n: nat)
    requires 1 <= n <= 15
    ensures |JBIAS| == 16 && JBIAS[n] == 1 - Pow2(n)
  {
    hide Pow2;
    Pow2Values();
  }

  /** The bias applies exactly to the magnitudes whose first bit is zero. */
  lemma ExtendIs(v: nat, n: nat)
    requires 1 <= n <= 15
    ensures |JBIAS| == 16
    ensures ExtendSign(Top(v, n), n) == Top(v, n) + if Top(v, 1) == 0 then JBIAS[n] else 0
  {
    hide Top, Shr, Pow2, JBIAS;
    TopPrefix(v, 1, n);
    BiasIs(n);
    if Top(v, 1) > 0 { Scale(1, Top(v, 1), Pow2(n - 1)); }
  }

  // ----- coefficients

  /** From the state `(v, k, data)` the block goes on at `(v', next, data')`, or has ended there. */
  ghost predicate Advanced(ac: HuffTable, dequant: seq<nat>, v: nat, k: nat, data: seq<int>, used: nat, v': nat, more: bool, next: nat, data': seq<int>)
    requires ac.Ok() && |dequant| == 64 && |data| == 64 && |data'| == 64
  {
    && v' == Shr(v, used)
    && AcBlock(ac, dequant, v, k, data) == After(used, if more then AcBlock(ac, dequant, v', next, data') else Block(data', 0))
  }

  lemma PlacedIs(dequant: seq<nat>, data: seq<int>, k: nat, value: int)
    requires k < 79 && |dequant| == 64 && |data| == 64
    ensures |DEZIGZAG| == 79 && DEZIGZAG[k] < 64 && Placed(dequant, data, k, value) == data[DEZIGZAG[k] := Short(value * dequant[DEZIGZAG[k]])]
  {
    hide DEZIGZAG;
    DezigzagIsZigzag(k);
  }

  lemma TakenIs(h: HuffTable, v: nat)
    requires h.Ok()
    ensures Counts(h.count) && (JpegHuffman.NoClash(Sizes(h.count)) ==> Taken(h, v) == NextLen(h, v))
  {
  }

  lemma SymbolIs(h: HuffTable, v: nat, r: int)
    requires h.Ok() && Symbol(h, v, r)
    ensures -1 <= r < 256 && (JpegHuffman.NoClash(Sizes(h.count)) && r >= 0 ==> r == NextValue(h, v))
  {
  }

  /** The next step of the block, by the value of the next symbol. */
  lemma SlowStep(ac: HuffTable, dequant: seq<nat>, v: nat, k: nat, data: seq<int>)
    requires ac.Ok() && |dequant| == 64 && |data| == 64 && k < 64
    ensures var rs, len, s := NextValue(ac, v), NextLen(ac, v), NextValue(ac, v) % 16;
            && (rs < 0 ==> AcBlock(ac, dequant, v, k, data).Corrupt?)
            && (AcBlock(ac, dequant, v, k, data).Block? ==> AcBlock(ac, dequant, v, k, data).used >= len)
            && (rs >= 0 && s == 0 && rs != 0xF0 ==> Advanced(ac, dequant, v, k, data, len, Shr(v, len), false, k + 16, data))
            && (rs == 0xF0 ==> Advanced(ac, dequant, v, k, data, len, Shr(v, len), true, k + 16, data))
            && (rs >= 0 && s != 0 ==>
                  Advanced(ac, dequant, v, k, data, len + s, Shr(v, len + s), true, k + rs / 16 + 1,
                           Placed(dequant, data, k + rs / 16, ExtendSign(ReceiveBits(Shr(v, len), s), s))))
  {
    hide NextValue, NextLen, Shr, ExtendSign, ReceiveBits, Placed, HuffTable.Ok;
  }

  /** Neither table has the number 255 for a short code. */
  ghost predicate Clean(dc: HuffTable, ac: HuffTable) {
    && Counts(dc.count) && JpegHuffman.NoClash(Sizes(dc.count))
    && Counts(ac.count) && JpegHuffman.NoClash(Sizes(ac.count))
  }

  lemma CleanIs(dc: HuffTable, ac: HuffTable)
    requires dc.Ok() && ac.Ok()
    ensures Clean(dc, ac) <==> JpegHuffman.NoClash(Sizes(dc.count)) && JpegHuffman.NoClash(Sizes(ac.count))
  {
  }

  lemma ReceiveNone(v: nat)
    ensures ExtendSign(ReceiveBits(v, 0), 0) == 0
  {
  }

  lemma GoneOn(ac: HuffTable, dequant: seq<nat>, v: nat, k: nat, data: seq<int>, used: nat, v': nat, more: bool, next: nat, data': seq<int>, was: nat)
    requires ac.Ok() && |dequant| == 64 && |data| == 64 && |data'| == 64
    ensures Advanced(ac, dequant, v, k, data, used, v', more, next, data') ==>
              && v' == Shr(v, used)
              && After(was, AcBlock(ac, dequant, v, k, data)) == After(was + used, if more then AcBlock(ac, dequant, v', next, data') else Block(data', 0))
  {
    hide AcBlock, Shr;
  }

  lemma BlockEnds(ac: HuffTable, dequant: seq<nat>, v: nat, k: nat, data: seq<int>)
    requires ac.Ok() && |dequant| == 64 && |data| == 64
    ensures k >= 64 ==> AcBlock(ac, dequant, v, k, data) == Block(data, 0)
  {
  }

  /** A nonzero entry of the table of small coefficients is the next step of the block. */
  lemma FastStep(fac: seq<int>, ac: HuffTable, dequant: seq<nat>, v: nat, k: nat, data: seq<int>)
    requires JpegHuffman.FastAcFor(fac, ac) && |dequant| == 64 && |data| == 64 && k < 64
    requires Top(v, JpegHuffman.FAST_BITS) < 512 && fac[Top(v, JpegHuffman.FAST_BITS)] != 0
    ensures var r := fac[Top(v, JpegHuffman.FAST_BITS)];
            && r % 16 <= 9 && r / 16 % 16 <= 15
            && Advanced(ac, dequant, v, k, data, r % 16, Shr(v, r % 16), true, k + r / 16 % 16 + 1,
                        Placed(dequant, data, k + r / 16 % 16, r / 256))
  {
    hide Top, Shr, NextAc, After, Placed;
    assert JpegHuffman.AcEntry(fac[Top(v, JpegHuffman.FAST_BITS)], ac, v);
  }

  /** The table of short codes has no entry for the start of the stream. */
  ghost predicate Miss(h: HuffTable, v: nat)
    requires h.Ok()
  {
    JpegHuffman.FastIndex(Sizes(h.count), |Sizes(h.count)|, Top(v, JpegHuffman.FAST_BITS)) >= JpegHuffman.NOT_FAST
  }

  /** How many bits of the stream `v` a decoded symbol takes. */
  ghost function Taken(h: HuffTable, v: nat): nat
    requires h.Ok()
  {
    if JpegHuffman.Sound(h.count, v) then NextLen(h, v) else 10
  }

  /** The symbol number the search ends with when it starts behind a short code. */
  ghost function ClashAt(count: seq<nat>, v: nat): int
    requires Counts(count)
  {
    Top(v, 10) + Upto(count, 9) - First(Sizes(count), 10)
  }

  /** `r` is -1, or the value that reading the stream bit by bit gives, and another one where the tables are wrong. */
  ghost predicate Symbol(h: HuffTable, v: nat, r: int)
    requires h.Ok()
  {
    && -1 <= r < 256
    && (r >= 0 ==> if JpegHuffman.Sound(h.count, v) then r == NextValue(h, v)
                   else 0 <= ClashAt(h.count, v) < 256 && r == h.values[ClashAt(h.count, v)])
  }

  /** 255 codes of 8 bits, and one of 9. */
  const CLASHING: seq<nat> := [0, 0, 0, 0, 0, 0, 0, 255, 1, 0, 0, 0, 0, 0, 0, 0]

  lemma ClashingUpto()
    ensures Counts(CLASHING) && Upto(CLASHING, 7) == 0 && Upto(CLASHING, 8) == 255 && Upto(CLASHING, 9) == Upto(CLASHING, 16) == 256
  {
    assert Upto(CLASHING, 3) == 0;
    assert Upto(CLASHING, 7) == 0;
    assert Upto(CLASHING, 12) == 256;
  }

  lemma ClashingFirst()
    ensures First(Sizes(CLASHING), 8) == 0 && First(Sizes(CLASHING), 9) == 510 && First(Sizes(CLASHING), 10) == 1022
  {
    hide Sizes, Upto;
    ClashingUpto();
    FirstZero(CLASHING, 8);
    TotalIs(CLASHING, 8);
    TotalIs(CLASHING, 9);
  }

  lemma {:induction false} ClashingFits(l: nat)
    requires 1 <= l <= 16
    ensures Past(Sizes(CLASHING), l) <= Pow2(l)
  {
    hide Sizes, Upto, Pow2;
    if l > 1 { ClashingFits(l - 1); }
    TotalIs(CLASHING, l);
    if l == 8 || l == 9 {
      ClashingFirst();
      Pow2Values();
    } else {
      JpegHuffman.PastFits(Sizes(CLASHING), l);
    }
  }

  /** Such a table is accepted.  On a stream that starts with its last code ten bits are taken for the nine of the
      code, and if a zero follows them the value is that of the symbol before it. */
  lemma LastOf256(h: HuffTable, rest: nat)
    requires h.Ok() && h.count == CLASHING
    ensures FitsWords(Sizes(h.count))
    ensures var v := Cat(CodeBits(510, 9), rest);
            T81Decode(h.count, v) == 255 && NextLen(h, v) == 9 && Taken(h, v) == 10 && ClashAt(h.count, v) == 254 + rest % 2
  {
    hide Sizes, Upto, Pow2, HuffTable.Ok, T81Decode, First, Top, Cat;
    var v := Cat(CodeBits(510, 9), rest);
    ClashingUpto();
    ClashingFirst();
    forall l | 1 <= l <= 16 ensures Past(Sizes(CLASHING), l) <= Pow2(l) { ClashingFits(l); }
    CodeIs(CLASHING, 255, 9);
    Pow2Values();
    CatCode(510, 9, rest);
    SizesLength(CLASHING);
    T81DecodeIs(CLASHING, v, 255);
    OneBitMore(v, 9);
  }

  lemma SizesLength(count: seq<nat>)
    requires Counts(count)
    ensures |Sizes(count)| == Upto(count, 16)
  {
  }

  lemma OneBitMore(v: nat, n: nat)
    ensures Top(v, n + 1) == 2 * Top(v, n) + Shr(v, n) % 2
  {
  }

  lemma TakenShort(h: HuffTable, v: nat)
    requires h.Ok()
    ensures Taken(h, v) <= 16
  {
    hide Sizes, T81Decode;
    SizesBounded(h.count);
  }

  lemma Word16(v: nat)
    ensures Top(v, 16) < 0x1_0000
  {
    TopBound(v, 16);
    Pow2Values();
  }

  lemma LowTop(v: nat, n: nat)
    ensures Low(Top(v, n), n) == Top(v, n)
    ensures n <= JpegHuffman.FAST_BITS ==> Top(v, n) < 512
  {
    TopBound(v, n);
    Join(Top(v, n), 0, n);
    if n <= JpegHuffman.FAST_BITS { JpegHuffman.SmallCode(n); }
  }

  lemma NoSymbol(h: HuffTable, v: nat)
    requires h.Ok() && Edge(Sizes(h.count), 16) <= Top(v, 16)
    ensures NextValue(h, v) < 0 && Symbol(h, v, -1)
  {
    JpegHuffman.NoneFound(h.count, v);
  }

  lemma FoundSymbol(t: JpegHuffman.Tables, h: HuffTable, v: nat, k: nat)
    requires h.Ok() && t.TablesFor(h.count) && t.values[..] == h.values && Miss(h, v)
    requires 10 <= k <= 16 && Top(v, 16) < Edge(Sizes(h.count), k)
    requires forall l | 10 <= l < k :: Edge(Sizes(h.count), l) <= Top(v, 16)
    ensures t.delta.Length == 17 && 0 <= Top(v, k) + t.delta[k] < 256 == t.values.Length
    ensures t.values[Top(v, k) + t.delta[k]] < 256 && Symbol(h, v, t.values[Top(v, k) + t.delta[k]]) && Symbol(h, v, -1)
    ensures Taken(h, v) == k
    ensures JpegHuffman.Sound(h.count, v) ==>
              var i := Top(v, k) + t.delta[k]; i < t.code.Length && i < t.size.Length && t.size[i] == k && t.code[i] == Top(v, k)
  {
    hide Top, T81Decode, Edge, First, FitsWords, HuffSize, JpegHuffman.FastIndex;
    JpegHuffman.SlowIndex(h.count, v, k);
    var i := Top(v, k) + t.delta[k];
    assert t.values[i] == t.values[..][i];
    if JpegHuffman.Sound(h.count, v) {
      T81DecodeMatches(h.count, v);
      assert t.size[i] == t.size[..|Sizes(h.count)|][i];
      ShortWord(v, k);
    }
  }

  lemma ShortWord(v: nat, k: nat)
    requires k <= 16
    ensures Top(v, k) < 0x1_0000
  {
    TopBound(v, k);
    Pow2Mono(k, 16);
    Pow2Values();
  }

  /** A fast hit is the symbol whose code starts the stream. */
  lemma FastEntry(t: JpegHuffman.Tables, h: HuffTable, v: nat)
    requires h.Ok() && t.TablesFor(h.count) && t.values[..] == h.values && Top(v, JpegHuffman.FAST_BITS) < 512
    ensures t.fast.Length == 512 && t.size.Length == 257 && t.values.Length == 256
    ensures Symbol(h, v, -1)
    ensures t.fast[Top(v, JpegHuffman.FAST_BITS)] >= 255 ==> Miss(h, v)
    ensures t.fast[Top(v, JpegHuffman.FAST_BITS)] < 255 ==>
              var k := t.fast[Top(v, JpegHuffman.FAST_BITS)];
              t.values[k] < 256 && Symbol(h, v, t.values[k]) && Taken(h, v) == t.size[k]
  {
    hide Top, T81Decode, Edge, First, FitsWords, HuffSize, JpegHuffman.FastIndex;
    var k := t.fast[Top(v, JpegHuffman.FAST_BITS)];
    if k < 255 {
      JpegHuffman.FastFound(h.count, v);
      assert t.values[k] == t.values[..][k];
      assert t.size[k] == t.size[..|Sizes(h.count)|][k];
    }
  }

  lemma DropNothing(n: nat)
    ensures Low(Shl(0, n), 32) == 0 && Shr(0, n) == 0 && forall bits: nat | bits <= 32 :: Buffered(0, bits, 0)
  {
    TopZero(n);
    TopZero(32);
    Join(0, 0, 32);
  }

  lemma HeldBound(buffer: nat, bits: nat, held: nat)
    requires Buffered(buffer, bits, held)
    ensures held < Pow2(bits)
  {
  }
}
