/** The inflate decoder of stb_image: `stbi__zbuf` and the functions that read it.

    Ghost arguments named `want` are arbitrary: whatever is passed, a method promises what follows if
    that item comes next in the input.  Ghost results named `got` are what was read. */
module Inflate {
  import opened Bits
  import opened Canonical
  import opened ZHuffman
  import opened Deflate
  import opened InflateSteps
  import opened InflateBlocks

  class ZBuf {
    const input: seq<Byte>
    var zpos: nat
    var num_bits: nat
    var code_buffer: nat

    var out: array<Byte>
    var zout: nat
    const expandable: bool
    const heap: nat         // the largest block the allocator gives

    const z_length: Tables
    const z_distance: Tables

    ghost predicate Valid()
      reads this
    {
      && BitsValid() && OutValid() && z_length.Shape() && z_distance.Shape()
      && z_length.Repr !! z_distance.Repr
      && {this, out} !! z_length.Repr && {this, out} !! z_distance.Repr
    }

    ghost predicate BitsValid()
      reads this`zpos, this`num_bits, this`code_buffer
    {
      zpos <= |input| && num_bits <= 32 && code_buffer < Pow2(num_bits)
    }

    ghost predicate OutValid()
      reads this`out, this`zout
    {
      zout <= out.Length <= UINT_MAX && (expandable ==> out.Length > 0)
    }

    ghost function At(): Reader
      requires zpos <= |input|
      reads this`zpos, this`num_bits, this`code_buffer
    {
      Reader(Pending(code_buffer, num_bits, input[zpos..]), num_bits + 8 * (|input| - zpos), num_bits)
    }

    ghost function Written(): Sink
      requires zout <= out.Length
      reads this`out, this`zout, out
    {
      Sink(out[..zout], out.Length, expandable, heap)
    }

    /** `stbi__do_zlib` on an input and an output buffer of `olen` bytes. */
    constructor (input: seq<Byte>, olen: nat, expandable: bool, heap: nat)
      requires olen <= UINT_MAX && (expandable ==> olen > 0)
      ensures Valid() && fresh(out) && fresh(z_length.Repr) && fresh(z_distance.Repr)
      ensures this.input == input && zpos == 0 && num_bits == 0 && code_buffer == 0
      ensures Written() == Sink([], olen, expandable, heap)
    {
      this.input := input;
      this.expandable := expandable;
      this.heap := heap;
      zpos, num_bits, code_buffer, zout := 0, 0, 0, 0;
      z_length := new Tables();
      z_distance := new Tables();
      out := new Byte[olen];
    }

    // ----- bits

    predicate Eof()
      reads this`zpos
    {
      zpos >= |input|
    }

    method Get8() returns (b: Byte)
      requires zpos <= |input|
      modifies this`zpos
      ensures zpos <= |input|
      ensures if old(Eof()) then b == 0 && zpos == old(zpos) else b == input[old(zpos)] && zpos == old(zpos) + 1
    {
      if Eof() {
        b := 0;
      } else {
        b := input[zpos];
        zpos := zpos + 1;
      }
    }

    /** One byte, or a zero behind the end of the input, is put on top of the bits buffered. */
    method AddByte()
      requires BitsValid() && num_bits <= 24
      modifies this`zpos, this`num_bits, this`code_buffer
      ensures BitsValid() && num_bits == old(num_bits) + 8 && zpos == old(if Eof() then zpos else zpos + 1)
      ensures At().stream == old(At()).stream
    {
      hide Pow2, Or, Shl, Pending;
      FillStep(code_buffer, num_bits, input[zpos..]);
      ghost var unread := input[zpos..];
      var b := Get8();
      assert input[zpos..] == if unread == [] then [] else unread[1..];
      code_buffer := Or(code_buffer, Shl(b, num_bits));
      num_bits := num_bits + 8;
    }

    /** `stbi__fill_bits`.  On a buffer that holds no bits above `num_bits` it loses nothing of the
        stream, and leaves more than 24 bits; otherwise it gives up by going to the end of input. */
    method FillBits()
      requires zpos <= |input| && num_bits <= 24
      modifies this`zpos, this`num_bits, this`code_buffer
      ensures old(code_buffer) < Pow2(old(num_bits)) ==> BitsValid() && num_bits == FilledTo(old(num_bits)) && zpos >= old(zpos)
      ensures old(code_buffer) < Pow2(old(num_bits)) ==> Over(old(At()), [], At())
      ensures old(code_buffer) < Pow2(old(num_bits)) ==> At().avail == if old(At()).avail < num_bits then num_bits else old(At()).avail
      ensures old(code_buffer) >= Pow2(old(num_bits)) ==> zpos == |input| && num_bits == old(num_bits) && code_buffer == old(code_buffer)
    {
      hide Pow2, Pending, Over, FilledTo;
      ghost var clean, r0 := code_buffer < Pow2(num_bits), At();
      while true
        invariant old(zpos) <= zpos <= |input| && num_bits <= 24 && FilledTo(num_bits) == FilledTo(old(num_bits))
        invariant clean ==> code_buffer < Pow2(num_bits) && At().stream == r0.stream
        invariant clean ==> if zpos == |input| then num_bits >= r0.avail else At().avail == r0.avail
        invariant !clean ==> num_bits == old(num_bits) && code_buffer == old(code_buffer)
        decreases 32 - num_bits
      {
        if code_buffer >= Pow2(num_bits) {
          zpos := |input|;
          return;
        }
        FilledStep(num_bits);
        AddByte();
        if num_bits > 24 {
          OverFilled(r0, |input| - old(zpos), At());
          return;
        }
      }
    }

    /** `stbi__zreceive`: the next `n` bits of the stream, least significant first. */
    method Receive(n: nat) returns (k: nat)
      requires BitsValid() && n <= 16
      modifies this`zpos, this`num_bits, this`code_buffer
      ensures BitsValid() && num_bits == Filled(old(num_bits), n) - n && zpos >= old(zpos)
      ensures k < Pow2(n) && Over(old(At()), DataBits(k, n), At()) && At().avail == Available(old(At()), n) - n
    {
      hide Pow2, Low, Shr, Pending, DataBits;
      if num_bits < n {
        FillBits();
      }
      TakeBits(code_buffer, num_bits, input[zpos..], n);
      k := Low(code_buffer, n);
      code_buffer := Shr(code_buffer, n);
      num_bits := num_bits - n;
      TakeData(old(At()), At(), k, n);
    }

    /** The extra bits of a symbol that has `n` of them. */
    method ReceiveExtra(n: nat) returns (k: nat)
      requires BitsValid() && n <= 16
      modifies this`zpos, this`num_bits, this`code_buffer
      ensures BitsValid() && num_bits == Filled(old(num_bits), n) - n && zpos >= old(zpos)
      ensures k < Pow2(n) && Over(old(At()), DataBits(k, n), At())
    {
      k := 0;
      if n != 0 {
        k := Receive(n);
      }
    }

    /** `stbi__zhuffman_decode_slowpath`, entered when the acceleration table has no entry. */
    method DecodeSlowPath(z: Tables, ghost ls: seq<nat>) returns (r: int)
      requires BitsValid() && num_bits >= 16 && z.TablesFor(ls)
      requires FastEntry(ls, |ls|, Low(At().stream, 9)) == 0
      modifies this`num_bits, this`code_buffer
      ensures BitsValid()
      ensures r >= 0 ==> HasCode(ls, r) && Over(old(At()), SymBits(ls, r), At()) && num_bits == old(num_bits) - ls[r]
      ensures r < 0 ==> r == -1 && At() == old(At())
      ensures r == -1 <==> NoMatch(ls, old(At()).stream)
    {
      hide Pow2, Low, Shr, Top, Pending, BitReverse, FastEntry, Edge, Fits, First, FirstSymbol, Slot, Matches, Tables.FastFor, Over, SymBits;
      ghost var stream := At().stream;
      SameTop(code_buffer, num_bits, input[zpos..]);
      var k := BitReverse(code_buffer, 16);
      var s := FAST_BITS + 1;
      while k >= z.maxcode[s]
        invariant 10 <= s <= 16
        invariant forall l | 10 <= l < s :: Edge(ls, l) <= k
        decreases 16 - s
      {
        s := s + 1;
      }
      if s >= 16 {
        SlowFail(ls, stream);
        return -1;
      }
      ghost var i := SlowDecode(ls, stream, s);
      SlotRange(ls, i);
      TopPrefix(stream, s, 16);
      var b := Shr(k, 16 - s) - z.firstcode[s] + z.firstsymbol[s];
      if b >= ZNSYMS {
        assert false;
      }
      if z.size[b] != s {
        assert false;
      }
      TakeBits(code_buffer, num_bits, input[zpos..], s);
      code_buffer := Shr(code_buffer, s);
      num_bits := num_bits - s;
      TakeCode(old(At()), At(), ls, i);
      return z.value[b];
    }

    /** `stbi__zhuffman_decode`: the symbol of the canonical code that starts the stream.  It fails exactly
        when there is none, or when the input is used up with fewer than 16 bits buffered. */
    method Decode(z: Tables, ghost ls: seq<nat>) returns (r: int)
      requires BitsValid() && z.TablesFor(ls)
      modifies this`zpos, this`num_bits, this`code_buffer
      ensures BitsValid()
      ensures r >= 0 ==> HasCode(ls, r) && Over(old(At()), SymBits(ls, r), At())
      ensures r >= 0 ==> num_bits == Filled(old(num_bits), 16) - ls[r] && zpos >= old(zpos)
      ensures r < 0 ==> r == -1 && At().stream == old(At()).stream
      ensures r == -1 <==> old(num_bits < 16 && Eof()) || NoMatch(ls, old(At()).stream)
    {
      hide Pow2, Low, Shr, Pending, FastEntry, Fits, Matches, Tables.RowsFor, Tables.SymbolsFor, SymBits;
      if num_bits < 16 {
        if Eof() {
          return -1;
        }
        FillBits();
      }
      ghost var start := At();
      assert start.stream == old(At()).stream;
      TakeBits(code_buffer, num_bits, input[zpos..], 9);
      Low9(code_buffer);
      var b := z.fast[Low(code_buffer, 9)];
      if b != 0 {
        FastDecode(ls, start.stream);
        var s := Shr(b, 9);
        TakeBits(code_buffer, num_bits, input[zpos..], s);
        code_buffer := Shr(code_buffer, s);
        num_bits := num_bits - s;
        r := Low(b, 9);
        TakeCode(start, At(), ls, r);
      } else {
        r := DecodeSlowPath(z, ls);
      }
      if r >= 0 && old(num_bits) < 16 {
        OverTwice(old(At()), [], start, SymBits(ls, r), At());
        assert [] + SymBits(ls, r) == SymBits(ls, r);
      }
    }

    // ----- output

    /** `stbi__zexpand`: make room for `n` more bytes. */
    method ZExpand(n: nat) returns (ok: bool)
      requires OutValid() && zout + n > out.Length
      modifies this`out
      ensures OutValid() && out[..zout] == old(out[..zout])
      ensures ok <==> old(Written()).Holds(zout + n)
      ensures if ok then fresh(out) && out.Length == Grown(old(out.Length), zout + n) else out == old(out)
    {
      if !expandable {
        return false;
      }
      var cur, limit := zout, out.Length;
      if UINT_MAX - cur < n {
        return false;
      }
      while cur + n > limit
        invariant 0 < limit <= UINT_MAX
        invariant Grown(limit, cur + n) == Grown(out.Length, cur + n)
        decreases UINT_MAX - limit
      {
        if limit > UINT_MAX / 2 {
          return false;
        }
        limit := limit * 2;
      }
      if limit > heap {
        return false;
      }
      var q := new Byte[limit];
      forall i | 0 <= i < out.Length { q[i] := out[i]; }
      assert q[..zout] == out[..zout];
      out := q;
      return true;
    }

    /** One literal byte. */
    method PutLiteral(b: Byte) returns (ok: bool)
      requires OutValid()
      modifies this`out, this`zout, out
      ensures OutValid() && (out == old(out) || fresh(out))
      ensures ok <==> old(Written()).Holds(old(zout) + 1)
      ensures ok ==> Written() == old(Written()).Holding(old(Written()).output + [b])
    {
      hide Grown;
      if zout >= out.Length {
        ok := ZExpand(1);
        if !ok {
          return;
        }
      }
      out[zout] := b;
      zout := zout + 1;
      return true;
    }

    /** The run of one byte, for distance 1. */
    static method CopyRun(out: array<Byte>, start: nat, length: nat) returns (zout: nat)
      requires 1 <= start && start + length <= out.Length
      modifies out
      ensures zout == start + length && out[..zout] == CopyBack(old(out[..start]), 1, length)
    {
      zout := start;
      var v, len := out[zout - 1], length;
      while len > 0
        invariant 0 <= len <= length && zout == start + length - len && out[zout - 1] == v
        invariant out[..zout] == CopyBack(old(out[..start]), 1, length - len)
      {
        out[zout] := v;
        zout := zout + 1;
        len := len - 1;
      }
    }

    /** The forward byte copy; source and target may overlap. */
    static method CopyForward(out: array<Byte>, start: nat, dist: nat, length: nat) returns (zout: nat)
      requires dist <= start && start + length <= out.Length
      modifies out
      ensures zout == start + length && out[..start] == old(out[..start])
      ensures dist >= 1 ==> out[..zout] == CopyBack(old(out[..start]), dist, length)
    {
      zout := start;
      var p, len := zout - dist, length;
      while len > 0
        invariant 0 <= len <= length && zout == start + length - len && p == zout - dist
        invariant out[..start] == old(out[..start])
        invariant dist >= 1 ==> out[..zout] == CopyBack(old(out[..start]), dist, length - len)
      {
        out[zout] := out[p];
        p := p + 1;
        zout := zout + 1;
        len := len - 1;
      }
    }

    /** A match of `len` bytes from `dist` bytes back. */
    method CopyMatch(len: nat, dist: nat) returns (ok: bool)
      requires OutValid() && dist <= zout
      modifies this`out, this`zout, out
      ensures OutValid() && (out == old(out) || fresh(out))
      ensures ok <==> old(Written()).Holds(old(zout) + len)
      ensures ok ==> zout == old(zout) + len && Written() == old(Written()).Holding(Written().output)
      ensures len == 0 ==> ok && Written() == old(Written()) && out == old(out)
      ensures ok && dist >= 1 ==> Written().output == CopyBack(old(Written()).output, dist, len)
    {
      hide Grown, CopyBack;
      if zout + len > out.Length {
        ok := ZExpand(len);
        if !ok {
          return;
        }
      }
      if dist == 1 {
        zout := CopyRun(out, zout, len);
      } else {
        zout := CopyForward(out, zout, dist, len);
      }
      return true;
    }

    // ----- compressed blocks

    /** The distance of a match: its code, then its extra bits. */
    method ReadDistance(ghost dl: seq<nat>, ghost wantSym: nat, ghost wantExtra: nat, ghost later: nat)
      returns (z: int, d: nat)
      requires BitsValid() && z_distance.TablesFor(dl) && this !in z_distance.Repr && |dl| <= 32
      modifies this`zpos, this`num_bits, this`code_buffer
      ensures BitsValid()
      ensures z >= 0 ==> z < 32 && HasCode(dl, z) && d < Pow2(DIST_EXTRA[z]) && Over(old(At()), DistanceBits(dl, z, d), At())
      ensures wantSym < 32 && HasCode(dl, wantSym) && wantExtra < Pow2(DIST_EXTRA[wantSym])
              && Ahead(old(At()), DistanceBits(dl, wantSym, wantExtra), later)
              ==> z == wantSym && d == wantExtra
      ensures old(At()) == Reader(0, 16, 16) && IdleTail(dl, zout) ==> z == 29 && d == 0 && At() == Reader(0, 17, 17)
    {
      hide Pending, Cat, DataBits, SymBits, Over, Ahead, Matches, Fits, Lengths, Pow2, Tables.TablesFor, DIST_EXTRA;
      TableSizes();
      z_distance.LengthsOf(dl);
      ghost var r1 := At();
      ghost var hoped := wantSym < 32 && HasCode(dl, wantSym) && wantExtra < Pow2(DIST_EXTRA[wantSym])
        && Ahead(r1, DistanceBits(dl, wantSym, wantExtra), later);
      ghost var last := if hoped then DataBits(wantExtra, DIST_EXTRA[wantSym]) else [];
      if hoped { WantCode(r1, dl, wantSym, last, later); }
      ghost var idle := r1 == Reader(0, 16, 16) && IdleTail(dl, zout);
      d := 0;
      z := Decode(z_distance, dl);
      if z < 0 {
        return;
      }
      ghost var r2 := At();
      if hoped { GotCode(r1, dl, z, r2, wantSym, last, later); }
      if idle { ZeroSymbol(dl, 29, r1, z, r2); }
      d := ReceiveExtra(DIST_EXTRA[z]);
      OverTwice(r1, SymBits(dl, z), r2, DataBits(d, DIST_EXTRA[z]), At());
      if idle { IdleDistance(d, r2, At()); }
      if hoped {
        assert last + [] == last;
        WantData(r2, d, At(), wantExtra, DIST_EXTRA[z], [], later);
      }
    }

    /** The rest of a match whose length symbol `lsym` was read: extra bits, distance code, extra bits. */
    method ReadMatch(lsym: nat, ghost dl: seq<nat>, ghost want: Token, ghost later: nat)
      returns (ok: bool, len: nat, dist: nat, ghost got: Token)
      requires BitsValid() && z_distance.TablesFor(dl) && this !in z_distance.Repr && |dl| <= 32 && 257 <= lsym < 288
      modifies this`zpos, this`num_bits, this`code_buffer
      ensures BitsValid()
      ensures ok ==> got.Match? && got.lsym == lsym && MatchWritable(got, dl)
      ensures ok ==> len == LengthOf(got) && dist == DistOf(got)
      ensures ok ==> Over(old(At()), MatchTail(got, dl), At())
      ensures want.Match? && want.lsym == lsym && MatchWritable(want, dl) && Ahead(old(At()), MatchTail(want, dl), later)
              ==> ok && got == want
      ensures lsym == 286 && old(At()) == Reader(0, 16, 16) && IdleTail(dl, old(zout))
              ==> ok && len == 0 && dist == 24577 && At() == Reader(0, 17, 17)
    {
      hide Pending, Cat, DataBits, SymBits, Over, Ahead, Pow2, Tables.TablesFor, IdleTail, DistanceBits;
      hide LENGTH_BASE, LENGTH_EXTRA, DIST_BASE, DIST_EXTRA;
      TableSizes();
      ghost var hoped := want.Match? && want.lsym == lsym && MatchWritable(want, dl) && Ahead(old(At()), MatchTail(want, dl), later);
      ghost var r0, e0 := At(), LENGTH_EXTRA[lsym - 257];
      got, dist := want, 0;
      var k := ReceiveExtra(LENGTH_EXTRA[lsym - 257]);
      len := LENGTH_BASE[lsym - 257] + k;
      ghost var r1 := At();
      if lsym == 286 && r0 == Reader(0, 16, 16) { IdleLength(k, r0, r1); IdleEntries(); }
      if hoped { WantData(r0, k, r1, want.lextra, e0, DistanceBits(dl, want.dsym, want.dextra), later); }
      assert unchanged(z_distance.Repr);
      ghost var wantSym, wantExtra := if hoped then want.dsym else 0, if hoped then want.dextra else 0;
      var z, d := ReadDistance(dl, wantSym, wantExtra, later);
      ok := z >= 0;
      if ok {
        dist, got := DIST_BASE[z] + d, Match(lsym, k, z, d);
        OverTwice(r0, DataBits(k, e0), r1, DistanceBits(dl, z, d), At());
      }
    }

    /** A match whose length symbol was read, from its extra bits to the copy. */
    method ParseMatch(lsym: nat, ghost dl: seq<nat>, ghost want: Token, ghost later: nat)
      returns (ok: bool, ghost got: Token)
      requires BitsValid() && OutValid() && {this, out} !! z_distance.Repr
      requires z_distance.TablesFor(dl) && |dl| <= 32 && 257 <= lsym < 288
      modifies this`zpos, this`num_bits, this`code_buffer, this`out, this`zout, out
      ensures BitsValid() && OutValid() && (out == old(out) || fresh(out))
      ensures ok ==> got.Match? && got.lsym == lsym && MatchWritable(got, dl) && Over(old(At()), MatchTail(got, dl), At())
      ensures ok ==> Copied(old(Written()), got, Written())
      ensures want.Match? && want.lsym == lsym && MatchWritable(want, dl) && Legal(want, old(zout))
              && Ahead(old(At()), MatchTail(want, dl), later)
              ==> if old(Written()).Holds(old(zout) + LengthOf(want)) then ok && got == want else !ok
      ensures lsym == 286 && old(At()) == Reader(0, 16, 16) && IdleTail(dl, old(zout))
              ==> ok && At() == Reader(0, 17, 17) && Written() == old(Written()) && out == old(out)
    {
      hide Pending, Cat, MatchTail, Over, Ahead, Tables.TablesFor, Pow2, LENGTH_BASE, LENGTH_EXTRA, DIST_BASE, DIST_EXTRA, Grown, CopyBack, Matches;
      var len, dist;
      ok, len, dist, got := ReadMatch(lsym, dl, want, later);
      if !ok {
        return;
      }
      LegalDist(got);
      if zout < dist {
        return false, got;
      }
      ok := CopyMatch(len, dist);
    }

    /** What is done with a literal/length symbol: `r0` is where it was read. */
    method UseSymbol(z: nat, ghost ll: seq<nat>, ghost dl: seq<nat>, ghost r0: Reader, ghost want: Token, ghost later: nat)
      returns (st: Status, ghost got: Token)
      requires Valid() && z_length.TablesFor(ll) && z_distance.TablesFor(dl) && |dl| <= 32
      requires z < 288 && HasCode(ll, z) && Over(r0, SymBits(ll, z), At())
      modifies this`zpos, this`num_bits, this`code_buffer, this`out, this`zout, out
      ensures Valid() && (out == old(out) || fresh(out))
      ensures z_length.TablesFor(ll) && z_distance.TablesFor(dl)
      ensures SymbolRead(ll, dl, r0, old(Written()), st, got, At(), Written())
      ensures SymbolDue(ll, dl, r0, old(Written()), want, later, st, got)
      ensures z == 286 && old(At()) == Reader(0, 16, 16) && IdleTail(dl, old(zout))
              ==> st.More? && At() == Reader(0, 17, 17) && Written() == old(Written()) && out == old(out)
    {
      hide Pending, Cat, SymBits, TokenBits, TailOf, Over, Ahead, Matches, NoMatch, Fits, Lengths, Pow2, Tables.TablesFor;
      hide Grown, SymbolRead, Produced, Copied, Sink.Holds, Sink.Holding, Writable, Legal, LengthOf, ZeroProduces, MatchWritable, Tables.Shape, IdleTail, TokenAhead, EndAhead, ExpandToken;
      z_length.LengthsOf(ll);
      ghost var r1, s0 := At(), Written();
      got, st := want, Failed;
      ghost var hoped := TokenAhead(ll, dl, r0, want, |s0.output|, later);
      if hoped { TokenCame(ll, dl, r0, want, s0.output, later, z, r1); }
      if EndAhead(ll, r0, later) { EndCame(ll, r0, later, z, r1); }
      if z < 256 {
        var ok := PutLiteral(z);
        assert unchanged(z_length.Repr) && unchanged(z_distance.Repr);
        if !ok {
          FailedRead(ll, dl, r0, s0, got, At(), Written());
          return;
        }
        st, got := More, Literal(z);
        LiteralRead(ll, dl, r0, s0, z, r1, Written());
      } else if z == END_OF_BLOCK {
        st := Ended;
        EndRead(ll, dl, r0, s0, got, r1);
      } else {
        var ok;
        ok, got := ParseMatch(z, dl, want, later);
        assert unchanged(z_length.Repr) && unchanged(z_distance.Repr);
        if !ok {
          FailedRead(ll, dl, r0, s0, got, At(), Written());
          return;
        }
        st := More;
        MatchRead(ll, dl, r0, s0, got, r1, At(), Written());
      }
    }

    /** One turn of the loop of `stbi__parse_huffman_block`. */
    method ParseSymbol(ghost ll: seq<nat>, ghost dl: seq<nat>, ghost want: Token, ghost later: nat)
      returns (st: Status, ghost got: Token)
      requires Valid() && z_length.TablesFor(ll) && z_distance.TablesFor(dl) && |dl| <= 32
      modifies this`zpos, this`num_bits, this`code_buffer, this`out, this`zout, out
      ensures Valid() && (out == old(out) || fresh(out))
      ensures z_length.TablesFor(ll) && z_distance.TablesFor(dl)
      ensures SymbolRead(ll, dl, old(At()), old(Written()), st, got, At(), Written())
      ensures SymbolDue(ll, dl, old(At()), old(Written()), want, later, st, got)
      ensures Idle(ll, dl, old(At()), old(zout)) ==> st.More? && At() == old(At()) && Written() == old(Written()) && out == old(out)
    {
      hide Pending, Cat, SymBits, Over, NoMatch, Fits, Lengths, Pow2, Tables.TablesFor, Tables.Shape;
      hide Grown, SymbolRead, TokenAhead, EndAhead, Sink.Holds, Idle, IdleTail;
      z_length.LengthsOf(ll);
      ghost var r0, s0, idle := At(), Written(), Idle(ll, dl, At(), zout);
      got, st := want, Failed;
      if TokenAhead(ll, dl, r0, want, |s0.output|, later) { TokenComes(ll, dl, r0, want, |s0.output|, later); }
      if EndAhead(ll, r0, later) { EndComes(ll, r0, later); }
      if idle { IdleComes(ll, dl, r0, zout); }
      var z := Decode(z_length, ll);
      assert unchanged(z_length.Repr) && unchanged(z_distance.Repr);
      if z < 0 {
        FailedRead(ll, dl, r0, s0, got, At(), Written());
        return;
      }
      if idle { IdleCame(ll, dl, r0, zout, z, At()); }
      st, got := UseSymbol(z, ll, dl, r0, want, later);
    }

    /** The loop need not end: however many turns it makes from such a state, it is still there. */
    method NoProgress(ghost ll: seq<nat>, ghost dl: seq<nat>, turns: nat)
      requires Valid() && z_length.TablesFor(ll) && z_distance.TablesFor(dl) && |dl| <= 32
      requires Idle(ll, dl, At(), zout)
      modifies this`zpos, this`num_bits, this`code_buffer, this`out, this`zout, out
      ensures Valid() && At() == old(At()) && Written() == old(Written()) && out == old(out)
    {
      hide Pending, Tables.TablesFor, Tables.Shape, Pow2, SymbolRead, SymbolDue, Idle, Grown;
      for i := 0 to turns
        invariant Valid() && z_length.TablesFor(ll) && z_distance.TablesFor(dl)
        invariant At() == old(At()) && Written() == old(Written()) && out == old(out)
      {
        ghost var got;
        var st;
        st, got := ParseSymbol(ll, dl, Literal(0), 0);
        if !st.More? {
          assert false;
        }
      }
    }

    /** `stbi__parse_huffman_block`. */
    method ParseHuffmanBlock(ghost ll: seq<nat>, ghost dl: seq<nat>, ghost want: seq<Token>, ghost later: nat)
      returns (ok: bool, ghost got: seq<Token>)
      requires Valid() && z_length.TablesFor(ll) && z_distance.TablesFor(dl) && |dl| <= 32 && ZeroProduces(ll)
      modifies this`zpos, this`num_bits, this`code_buffer, this`out, this`zout, out
      ensures Valid() && (out == old(out) || fresh(out))
      ensures ok ==> TokensRead(ll, dl, old(At()), old(Written()), got, At(), Written())
      ensures TokensAhead(ll, dl, old(At()), old(Written()), want, later) ==> TokensDue(old(Written()), want, ok, got)
    {
      hide Pending, Tables.TablesFor, Tables.Shape, Pow2, Grown, SymbolRead, SymbolDue, TokensAhead, TokensDue, TokensRead, SeqRead, ZeroProduces;
      hide AllWritable, Sink.Holds, Sink.Holding;
      ghost var r0, s0 := At(), Written();
      ghost var hoped := TokensAhead(ll, dl, r0, s0, want, later);
      got := [];
      NothingRead(ll, dl, r0, s0);
      while true
        invariant Valid() && (out == old(out) || fresh(out))
        invariant z_length.TablesFor(ll) && z_distance.TablesFor(dl)
        invariant SeqRead(ll, dl, r0, s0, got, At(), Written())
        invariant hoped ==> got <= want
        decreases At().stream, UINT_MAX - zout
      {
        ghost var r, s := At(), Written();
        ghost var next, rest := Literal(0), later;
        if hoped { next, rest := NextDue(ll, dl, r0, s0, want, later, got, r, s); }
        var st;
        ghost var t;
        st, t := ParseSymbol(ll, dl, next, rest);
        match st
        case Failed =>
          if hoped { DueFailed(ll, dl, r0, s0, want, later, got, r, s, next, rest, t); }
          return false, got;
        case Ended =>
          EndReached(ll, dl, r0, s0, got, r, s, t, At(), Written());
          if hoped { DueEnded(ll, dl, r0, s0, want, later, got, r, s, next, rest, t); }
          return true, got;
        case More =>
          OneMore(ll, dl, r0, s0, got, r, s, t, At(), Written());
          if hoped { DueMore(ll, dl, r0, s0, want, later, got, r, s, next, rest, t); }
          got := got + [t];
      }
    }

    // ----- dynamic code lengths

    method ReadCounts(ghost hl: nat, ghost hd: nat, ghost hc: nat, ghost y: seq<bool>, ghost later: nat)
      returns (hlit: nat, hdist: nat, hclen: nat)
      requires BitsValid()
      modifies this`zpos, this`num_bits, this`code_buffer
      ensures BitsValid() && CountsOk(hlit, hdist, hclen) && Over(old(At()), CountsBits(hlit, hdist, hclen), At())
      ensures CountsOk(hl, hd, hc) && Ahead(old(At()), CountsBits(hl, hd, hc) + y, later)
              ==> hlit == hl && hdist == hd && hclen == hc && Ahead(At(), y, later)
    {
      hide Pending, Pow2, DataBits, Over, Ahead;
      Powers5();
      ghost var r0 := At();
      ghost var hoped := CountsOk(hl, hd, hc) && Ahead(r0, CountsBits(hl, hd, hc) + y, later);
      var a := Receive(5);
      ghost var r1 := At();
      var b := Receive(5);
      ghost var r2 := At();
      var c := Receive(4);
      hlit, hdist, hclen := a + 257, b + 1, c + 4;
      OverTwice(r1, DataBits(b, 5), r2, DataBits(c, 4), At());
      OverTwice(r0, DataBits(a, 5), r1, DataBits(b, 5) + DataBits(c, 4), At());
      if hoped {
        ghost var x2, x1, x0 := DataBits(hc - 4, 4), DataBits(hd - 1, 5), DataBits(hl - 257, 5);
        assert CountsBits(hl, hd, hc) + y == x0 + (x1 + (x2 + y));
        WantData(r0, a, r1, hl - 257, 5, x1 + (x2 + y), later);
        WantData(r1, b, r2, hd - 1, 5, x2 + y, later);
        WantData(r2, c, At(), hc - 4, 4, y, later);
      }
    }

    method ReadClens(hclen: nat, ghost want: seq<nat>, ghost y: seq<bool>, ghost later: nat)
      returns (sizes: array<nat>, ghost got: seq<nat>)
      requires BitsValid() && hclen <= 19
      modifies this`zpos, this`num_bits, this`code_buffer
      ensures BitsValid() && |got| == hclen && Small(got) && Over(old(At()), ClenBits(got), At())
      ensures fresh(sizes) && sizes[..] == CodeLengths(got, hclen)
      ensures |want| == hclen && Small(want) && Ahead(old(At()), ClenBits(want) + y, later) ==> got == want && Ahead(At(), y, later)
    {
      hide Pending, Pow2, DataBits, Over, Ahead, ClenBits;
      ghost var r0 := At();
      ghost var hoped := |want| == hclen && Small(want) && Ahead(r0, ClenBits(want) + y, later);
      sizes := new nat[19](_ => 0);
      got := [];
      NoClens(r0);
      assert sizes[..] == CodeLengths(got, 0);
      var i := 0;
      while i < hclen
        invariant i <= hclen && BitsValid() && fresh(sizes) && sizes.Length == 19
        invariant |got| == i && Small(got) && Over(r0, ClenBits(got), At())
        invariant sizes[..] == CodeLengths(got, i)
        invariant hoped ==> got <= want
      {
        ghost var r := At();
        var s := Receive(3);
        sizes[ORDER[i]] := s;
        CodeLengthsPrefix(got, s, i);
        ClenSnoc(got, s);
        OverTwice(r0, ClenBits(got), r, DataBits(s, 3), At());
        Powers5();
        if hoped { NextClen(r0, want, y, later, got, r, s, At()); }
        got := got + [s];
        i := i + 1;
      }
      if hoped { assert got == want; AheadAfter(r0, ClenBits(got), At(), y, later); }
    }

    /** What follows the symbol `c` of a run of code lengths, read from `r0` on. */
    method RunExtra(c: nat, ghost cl: seq<nat>, ghost r0: Reader, ghost want: Run, ghost y: seq<bool>, ghost later: nat)
      returns (count: nat, ghost got: Run)
      requires BitsValid() && c < 19 && HasCode(cl, c) && Over(r0, SymBits(cl, c), At())
      modifies this`zpos, this`num_bits, this`code_buffer
      ensures BitsValid() && RunWritable(got, cl) && RunSymbol(got) == c && RunCount(got) == count
      ensures Over(r0, RunBits(got, cl), At())
      ensures RunWritable(want, cl) && RunSymbol(want) == c && Ahead(old(At()), RunTail(want) + y, later) ==> got == want
    {
      hide Pending, Pow2, DataBits, Over, Ahead, SymBits;
      Powers5();
      ghost var r1 := At();
      ghost var hoped := RunWritable(want, cl) && RunSymbol(want) == c && Ahead(r1, RunTail(want) + y, later);
      if c < 16 {
        got, count := Length(c), 1;
        assert SymBits(cl, c) + [] == SymBits(cl, c);
      } else if c == 16 {
        var k := Receive(2);
        got, count := Again(k + 3), k + 3;
        OverTwice(r0, SymBits(cl, c), r1, DataBits(k, 2), At());
        if hoped { WantData(r1, k, At(), want.n - 3, 2, y, later); }
      } else if c == 17 {
        var k := Receive(3);
        got, count := Zeros(k + 3), k + 3;
        OverTwice(r0, SymBits(cl, c), r1, DataBits(k, 3), At());
        if hoped { WantData(r1, k, At(), want.n - 3, 3, y, later); }
      } else if c == 18 {
        var k := Receive(7);
        got, count := Zeros(k + 11), k + 11;
        OverTwice(r0, SymBits(cl, c), r1, DataBits(k, 7), At());
        if hoped { WantData(r1, k, At(), want.n - 11, 7, y, later); }
      } else {
        assert false;
      }
    }

    /** One symbol of the code length alphabet with its extra bits: the symbol, or -1, and the repeat count. */
    method ReadRun(z: Tables, ghost cl: seq<nat>, ghost want: Run, ghost y: seq<bool>, ghost later: nat)
      returns (c: int, count: nat, ghost got: Run)
      requires BitsValid() && z.TablesFor(cl) && |cl| == 19
      modifies this`zpos, this`num_bits, this`code_buffer
      ensures BitsValid() && -1 <= c < 19
      ensures c >= 0 ==> RunWritable(got, cl) && RunSymbol(got) == c && RunCount(got) == count
      ensures c >= 0 ==> Over(old(At()), RunBits(got, cl), At())
      ensures RunWritable(want, cl) && Ahead(old(At()), RunBits(want, cl) + y, later) ==> c >= 0 && got == want
    {
      hide Pending, Pow2, DataBits, Over, Ahead, SymBits, Tables.TablesFor, Fits, Lengths, NoMatch, RunTail;
      z.LengthsOf(cl);
      ghost var r0 := At();
      ghost var hoped := RunWritable(want, cl) && Ahead(r0, RunBits(want, cl) + y, later);
      got, count := want, 0;
      if hoped {
        assert RunBits(want, cl) + y == SymBits(cl, RunSymbol(want)) + (RunTail(want) + y);
        WantCode(r0, cl, RunSymbol(want), RunTail(want) + y, later);
      }
      c := Decode(z, cl);
      if c < 0 || c >= 19 {
        return;
      }
      if hoped { GotCode(r0, cl, c, At(), RunSymbol(want), RunTail(want) + y, later); }
      count, got := RunExtra(c, cl, r0, want, y, later);
    }

    /** Append what one run stands for to the lengths read so far. */
    static method StoreRun(lencodes: array<nat>, n: nat, ntot: nat, c: nat, count: nat, ghost got: seq<Run>, ghost run: Run, ghost cl: seq<nat>)
      returns (ok: bool, m: nat)
      requires n < ntot <= 320 && lencodes.Length == 455 && lencodes[..n] == Lens(got)
      requires RunWritable(run, cl) && RunSymbol(run) == c && RunCount(run) == count && (n == 0 <==> got == [])
      modifies lencodes
      ensures ok <==> |Extend(Lens(got), run)| <= ntot && !(run.Again? && got == [])
      ensures ok ==> n < m <= ntot && lencodes[..m] == Extend(Lens(got), run)
    {
      hide Lens, Extend, RunWritable, RunSymbol, RunCount;
      RunGives(got, run, c, count, cl);
      if c < 16 {
        lencodes[n] := c;
        m := n + 1;
      } else {
        var fill := 0;
        if c == 16 {
          if n == 0 {
            return false, n;
          }
          fill := lencodes[n - 1];
        }
        if ntot - n < count {
          return false, n;
        }
        forall i | n <= i < n + count { lencodes[i] := fill; }
        m := n + count;
      }
      assert lencodes[..n] == Lens(got);
      ok := true;
    }

    /** The loop that reads all code lengths. */
    method ReadLengths(z: Tables, ntot: nat, ghost cl: seq<nat>, ghost want: seq<Run>, ghost later: nat)
      returns (ok: bool, lencodes: array<nat>, ghost got: seq<Run>)
      requires BitsValid() && z.TablesFor(cl) && this !in z.Repr && |cl| == 19 && ntot <= 320
      modifies this`zpos, this`num_bits, this`code_buffer
      ensures BitsValid() && fresh(lencodes) && lencodes.Length == 455
      ensures ok ==> RunsOk(got, cl, ntot) && lencodes[..ntot] == Lens(got) && Over(old(At()), RunsBits(got, cl), At())
      ensures RunsOk(want, cl, ntot) && Ahead(old(At()), RunsBits(want, cl), later) ==> ok && got == want
    {
      hide Pending, Pow2, Over, Ahead, RunBits, RunsBits, Lens, Extend, Tables.TablesFor, RunWritable, RunSymbol, RunCount;
      ghost var r0 := At();
      ghost var hoped := RunsOk(want, cl, ntot) && Ahead(r0, RunsBits(want, cl), later);
      lencodes := new nat[286 + 32 + 137](_ => 0);
      got := [];
      NoRuns(r0, cl);
      var n := 0;
      while n < ntot
        invariant n <= ntot && BitsValid() && z.TablesFor(cl) && fresh(lencodes) && lencodes.Length == 455
        invariant AllRunsWritable(got, cl) && StartsWell(got) && lencodes[..n] == Lens(got) && Over(r0, RunsBits(got, cl), At())
        invariant n == 0 <==> got == []
        invariant hoped ==> got <= want
      {
        ghost var r := At();
        ghost var next, tail := Zeros(3), [];
        if hoped { next, tail := NextRun(r0, want, cl, ntot, later, got, r); }
        var c, count;
        ghost var run;
        c, count, run := ReadRun(z, cl, next, tail, later);
        assert unchanged(z.Repr);
        if c < 0 {
          return false, lencodes, got;
        }
        RunsSnoc(got, run, cl);
        OverTwice(r0, RunsBits(got, cl), r, RunBits(run, cl), At());
        if hoped { RunFits(want, cl, ntot, got, run); }
        ok, n := StoreRun(lencodes, n, ntot, c, count, got, run, cl);
        if !ok {
          return false, lencodes, got;
        }
        got := got + [run];
      }
      ok := true;
      if hoped { AllRuns(want, got, cl, ntot); }
    }

    /** The part of a dynamic block that gives the code lengths. */
    method ReadHeader(ghost want: Header, ghost later: nat)
      returns (ok: bool, hlit: nat, hdist: nat, lencodes: array<nat>, ghost got: Header)
      requires BitsValid()
      modifies this`zpos, this`num_bits, this`code_buffer
      ensures BitsValid() && fresh(lencodes)
      ensures ok ==> got.Readable() && hlit == got.hlit && hdist == got.hdist && Over(old(At()), got.Encoded(), At())
      ensures ok ==> lencodes.Length == 455 && lencodes[..hlit + hdist] == Lens(got.runs)
      ensures want.Readable() && Ahead(old(At()), want.Encoded(), later) ==> ok && got == want
    {
      hide Pending, Pow2, Over, Ahead, CountsBits, ClenBits, RunsBits, Lens, Tables.TablesFor, Tables.Shape, Kraft, Fits, Lengths, CodeLengths;
      hide AllRunsWritable, StartsWell, Small;
      got := want;
      ghost var hoped := want.Readable() && Ahead(old(At()), want.Encoded(), later);
      ghost var r0 := At();
      ghost var y1 := if hoped then RunsBits(want.runs, want.Cl()) else [];
      var hclen;
      hlit, hdist, hclen := ReadCounts(want.hlit, want.hdist, |want.clens|, ClenBits(want.clens) + y1, later);
      ghost var r1 := At();
      lencodes := new nat[0];
      var sizes;
      ghost var clens;
      sizes, clens := ReadClens(hclen, want.clens, y1, later);
      ghost var r2, cl := At(), sizes[..];
      SmallLengths(clens);
      FitsIffKraft(cl);
      var z := new Tables();
      ok := z.Build(sizes[..]);
      if !ok {
        return;
      }
      ghost var runs;
      ok, lencodes, runs := ReadLengths(z, hlit + hdist, cl, want.runs, later);
      if !ok {
        return;
      }
      got := Header(hlit, hdist, clens, runs);
      OverTwice(r1, ClenBits(clens), r2, RunsBits(runs, cl), At());
      OverTwice(r0, CountsBits(hlit, hdist, hclen), r1, ClenBits(clens) + RunsBits(runs, cl), At());
      RunsLengths(runs, cl, hlit, hdist);
    }

    /** `stbi__compute_huffman_codes`. */
    method ComputeHuffmanCodes(ghost want: Header, ghost later: nat) returns (ok: bool, ll: seq<nat>, ghost got: Header)
      requires Valid()
      modifies this`zpos, this`num_bits, this`code_buffer, z_length.Repr, z_distance.Repr
      ensures Valid()
      ensures ok ==> got.Ok() && ll == got.Ll() && Over(old(At()), got.Encoded(), At())
      ensures ok ==> z_length.TablesFor(got.Ll()) && z_distance.TablesFor(got.Dl())
      ensures want.Ok() && Ahead(old(At()), want.Encoded(), later) ==> ok && got == want
    {
      hide Pending, Pow2, Over, Ahead, Lens, Tables.TablesFor, Tables.Shape, Kraft, Fits, Lengths, Header.Encoded, Header.Readable;
      var hlit, hdist, lencodes;
      ll := [];
      ok, hlit, hdist, lencodes, got := ReadHeader(want, later);
      if !ok {
        return;
      }
      ReadableSizes(got);
      assert lencodes[..hlit] == got.Ll() && lencodes[hlit..hlit + hdist] == got.Dl();
      FitsIffKraft(got.Ll());
      FitsIffKraft(got.Dl());
      ll := lencodes[..hlit];
      ok := z_length.Build(ll);
      if !ok {
        return;
      }
      ok := z_distance.Build(lencodes[hlit..hlit + hdist]);
    }

    // ----- stored blocks

    /** The four header bytes: first those still buffered, at most three, then those of the input. */
    method StoredHeader() returns (header: array<Byte>)
      requires BitsValid() && num_bits % 8 == 0 && num_bits <= 24
      modifies this`zpos, this`num_bits, this`code_buffer
      ensures BitsValid() && num_bits == 0 && fresh(header) && header.Length == 4
      ensures Over(old(At()), BytesBits(header[..]), At())
    {
      hide Pending, Pow2, Low, Shr, Over, BytesBits;
      header := new Byte[4](_ => 0);
      var k := 0;
      ghost var r0 := At();
      NoBytes(r0);
      assert header[..0] == [];
      while num_bits > 0
        invariant BitsValid() && num_bits % 8 == 0 && num_bits + 8 * k == old(num_bits) && k <= 3
        invariant fresh(header) && Over(r0, BytesBits(header[..k]), At())
      {
        ghost var r, h := At(), header[..k];
        TakeBits(code_buffer, num_bits, input[zpos..], 8);
        LowByte(code_buffer);
        header[k] := Low(code_buffer, 8);
        code_buffer := Shr(code_buffer, 8);
        num_bits := num_bits - 8;
        TakeByte(r0, h, r, header[k], At());
        assert header[..k + 1] == h + [header[k]];
        k := k + 1;
      }
      while k < 4
        invariant BitsValid() && num_bits == 0 && k <= 4
        invariant fresh(header) && Over(r0, BytesBits(header[..k]), At())
      {
        ghost var r, h, unread := At(), header[..k], input[zpos..];
        NextByte(code_buffer, unread);
        var b := Get8();
        assert input[zpos..] == if unread == [] then [] else unread[1..];
        header[k] := b;
        TakeByte(r0, h, r, header[k], At());
        assert header[..k + 1] == h + [header[k]];
        k := k + 1;
      }
      assert header[..4] == header[..];
    }

    method SkipToByte() returns (ghost pad: seq<bool>)
      requires BitsValid() && num_bits <= 30
      modifies this`zpos, this`num_bits, this`code_buffer
      ensures BitsValid() && num_bits % 8 == 0 && num_bits <= 24 && |pad| == old(num_bits) % 8
      ensures Over(old(At()), pad, At())
    {
      hide Pending, Pow2, DataBits;
      pad := [];
      if num_bits % 8 != 0 {
        var skipped := Receive(num_bits % 8);
        pad := DataBits(skipped, old(num_bits) % 8);
      } else {
        OverNothing(At());
      }
    }

    static method CopyBytes(out: array<Byte>, at: nat, input: seq<Byte>, from: nat, len: nat)
      requires at + len <= out.Length && from + len <= |input|
      modifies out
      ensures out[..at + len] == old(out[..at]) + input[from..from + len]
    {
      forall i | 0 <= i < len { out[at + i] := input[from + i]; }
    }

    /** Copy `len` bytes from the input to the output. */
    method CopyStored(len: nat) returns (ok: bool)
      requires BitsValid() && num_bits == 0 && OutValid() && zpos + len <= |input|
      modifies this`zpos, this`out, this`zout, out
      ensures BitsValid() && OutValid() && (out == old(out) || fresh(out))
      ensures ok <==> old(Written()).Holds(old(zout) + len)
      ensures ok ==> Written() == old(Written()).Holding(old(Written()).output + input[old(zpos)..old(zpos) + len])
      ensures ok ==> Over(old(At()), BytesBits(input[old(zpos)..old(zpos) + len]), At())
    {
      hide Pending, Pow2, Grown, BytesBits, Over;
      if zout + len > out.Length {
        ok := ZExpand(len);
        if !ok {
          return;
        }
      }
      ghost var r := At();
      CopyBytes(out, zout, input, zpos, len);
      zpos := zpos + len;
      zout := zout + len;
      ok := true;
      OverBytes(r, input, old(zpos), len, code_buffer, At());
    }

    /** The padding and the two length words of a stored block. */
    method StoredSizes(ghost wantPad: seq<bool>, ghost want: seq<Byte>, ghost later: nat)
      returns (len: nat, nlen: nat, ghost pad: seq<bool>)
      requires BitsValid() && num_bits <= 30
      modifies this`zpos, this`num_bits, this`code_buffer
      ensures BitsValid() && num_bits == 0 && |pad| == old(num_bits) % 8 && len < 0x1_0000 && nlen < 0x1_0000
      ensures Over(old(At()), pad + DataBits(len + 0x1_0000 * nlen, 32), At())
      ensures |wantPad| == old(num_bits) % 8 && |want| < 0x1_0000 && Ahead(old(At()), StoredBits(wantPad, want), later)
              ==> pad == wantPad && len == |want| && nlen == 0xFFFF - |want| && Ahead(At(), BytesBits(want), later)
    {
      hide Pending, Pow2, Over, Ahead, BytesBits, DataBits;
      ghost var r0 := At();
      ghost var hoped := |wantPad| == num_bits % 8 && |want| < 0x1_0000 && Ahead(r0, StoredBits(wantPad, want), later);
      pad := SkipToByte();
      ghost var r1 := At();
      if hoped { SkipPad(r0, wantPad, pad, want, later, r1); }
      var header := StoredHeader();
      HeaderBytes(header[..]);
      len, nlen := Word(header[0], header[1]), Word(header[2], header[3]);
      if hoped { WantStored(r1, want, later, len, nlen, At()); }
      OverTwice(r0, pad, r1, BytesBits(header[..]), At());
    }

    /** `stbi__parse_uncompressed_block`. */
    method ParseUncompressedBlock(ghost wantPad: seq<bool>, ghost want: seq<Byte>, ghost later: nat)
      returns (ok: bool, ghost pad: seq<bool>, ghost got: seq<Byte>)
      requires Valid() && num_bits <= 30
      modifies this`zpos, this`num_bits, this`code_buffer, this`out, this`zout, out
      ensures Valid() && (out == old(out) || fresh(out))
      ensures ok ==> |pad| == old(num_bits) % 8 && StoredRead(old(At()), old(Written()), pad, got, At(), Written())
      ensures |wantPad| == old(num_bits) % 8 && |want| < 0x1_0000 && Ahead(old(At()), StoredBits(wantPad, want), later)
              ==> (ok <==> old(Written()).Holds(|old(Written()).output + want|)) && (ok ==> pad == wantPad && got == want)
    {
      hide Pending, Pow2, Over, Ahead, BytesBits, DataBits, StoredBits, Tables.Shape, Grown;
      ghost var r0 := At();
      ghost var hoped := |wantPad| == num_bits % 8 && |want| < 0x1_0000 && Ahead(r0, StoredBits(wantPad, want), later);
      got := want;
      var len, nlen;
      len, nlen, pad := StoredSizes(wantPad, want, later);
      ghost var r2 := At();
      if hoped { WantBytes(r2, code_buffer, input[zpos..], want, later, len); }
      if nlen != 0xFFFF - len {
        return false, pad, got;
      }
      if zpos + len > |input| {
        return false, pad, got;
      }
      got := input[zpos..zpos + len];
      ok := CopyStored(len);
      if ok {
        OverTwice(r0, pad + DataBits(len + 0x1_0000 * nlen, 32), r2, BytesBits(got), At());
        StoredForm(pad, got);
      }
    }

    // ----- blocks

    method ParseFixedBlock(ghost want: seq<Token>, ghost later: nat) returns (ok: bool, ghost got: seq<Token>)
      requires Valid()
      modifies this`zpos, this`num_bits, this`code_buffer, this`out, this`zout, out, z_length.Repr, z_distance.Repr
      ensures Valid() && (out == old(out) || fresh(out))
      ensures ok ==> TokensRead(FIXED_LENGTHS, FIXED_DISTANCES, old(At()), old(Written()), got, At(), Written())
      ensures TokensAhead(FIXED_LENGTHS, FIXED_DISTANCES, old(At()), old(Written()), want, later) ==> TokensDue(old(Written()), want, ok, got)
    {
      hide Pending, Tables.TablesFor, Tables.Shape, Pow2, Fits, Lengths, Kraft, TokensRead, TokensAhead, TokensDue, ZeroProduces, FIXED_LENGTHS, FIXED_DISTANCES;
      FixedFits();
      FixedSizes();
      ghost var r0, s0 := At(), Written();
      ok := z_length.Build(FIXED_LENGTHS);
      if !ok {
        assert false;
      }
      ok := z_distance.Build(FIXED_DISTANCES);
      if !ok {
        assert false;
      }
      assert unchanged(out);
      ok, got := ParseHuffmanBlock(FIXED_LENGTHS, FIXED_DISTANCES, want, later);
    }

    method ParseDynamicBlock(ghost want: Header, ghost tokens: seq<Token>, ghost later: nat)
      returns (st: Outcome, ghost h: Header, ghost got: seq<Token>)
      requires Valid()
      modifies this`zpos, this`num_bits, this`code_buffer, this`out, this`zout, out, z_length.Repr, z_distance.Repr
      ensures Valid() && (out == old(out) || fresh(out))
      ensures st.Done? ==> DynamicRead(old(At()), old(Written()), h, got, At(), Written())
      ensures st.Unmodelled? ==> Endless(Dynamic(h, got))
      ensures DynamicAhead(old(At()), old(Written()), want, tokens, later) ==> DynamicDue(old(Written()), want, tokens, st, h, got)
    {
      hide Pending, Tables.TablesFor, Tables.Shape, Pow2, Fits, Lengths, TokensRead, TokensAhead, ZeroProduces, Over, Ahead, Header.Encoded;
      hide AllWritable, TokensBits;
      ghost var r0, s0 := At(), Written();
      ghost var hoped := DynamicAhead(r0, s0, want, tokens, later);
      ghost var rest := 0;
      got := tokens;
      if hoped { rest := HeaderAhead(r0, s0, want, tokens, later); }
      var ok, ll;
      ok, ll, h := ComputeHuffmanCodes(want, rest);
      assert unchanged(out);
      if !ok {
        return Corrupt, h, got;
      }
      if !ZeroProduces(ll) {
        return Unmodelled, h, got;
      }
      ghost var r1 := At();
      if hoped { TokensComeNext(r0, s0, want, tokens, later, r1); }
      ok, got := ParseHuffmanBlock(h.Ll(), h.Dl(), tokens, later);
      st := if ok then Done else Corrupt;
      if ok { DynamicWas(r0, s0, h, got, r1, At(), Written()); }
    }

    /** The body of a block of the given kind. */
    method ParseBody(kind: nat, ghost want: Block, ghost later: nat) returns (st: Outcome, ghost got: Block)
      requires Valid() && num_bits <= 30 && kind < 4
      modifies this`zpos, this`num_bits, this`code_buffer, this`out, this`zout, out, z_length.Repr, z_distance.Repr
      ensures Valid() && (out == old(out) || fresh(out))
      ensures st.Done? ==> kind == BlockType(got) && BodyRead(old(At()), old(Written()), got, old(num_bits) % 8, At(), Written())
      ensures st.Unmodelled? ==> Endless(got)
      ensures kind == BlockType(want) && BodyAhead(old(At()), old(Written()), want, old(num_bits) % 8, later) ==> BodyDue(old(Written()), want, st, got)
    {
      hide Pending, Tables.Shape, Pow2, BodyRead, BodyAhead, BodyDue, DynamicAhead, DynamicDue, DynamicRead, TokensAhead, TokensDue, TokensRead, StoredRead, StoredBits;
      hide Ahead, Sink.Holds, FIXED_LENGTHS, FIXED_DISTANCES;
      ghost var r0, s0, pad := At(), Written(), num_bits % 8;
      ghost var hoped := kind == BlockType(want) && BodyAhead(r0, s0, want, pad, later);
      got := want;
      if kind == 0 {
        ghost var p, data := [], [];
        if hoped { StoredComes(r0, s0, want, pad, later); p, data := want.pad, want.data; }
        var ok;
        ok, p, data := ParseUncompressedBlock(p, data, later);
        if ok { StoredWas(r0, s0, pad, p, data, At(), Written()); }
        if hoped { StoredWanted(s0, want, ok, p, data); }
        st, got := if ok then Done else Corrupt, Stored(p, data);
      } else if kind == 3 {
        st := Corrupt;
      } else if kind == 1 {
        ghost var ts := [];
        if hoped { FixedComes(r0, s0, want, pad, later); ts := want.tokens; }
        var ok;
        ok, ts := ParseFixedBlock(ts, later);
        if ok { FixedWas(r0, s0, pad, ts, At(), Written()); }
        if hoped { FixedWanted(s0, want, ok, ts); }
        st, got := if ok then Done else Corrupt, Fixed(ts);
      } else {
        ghost var h, ts := Header(0, 0, [], []), [];
        if hoped { DynamicComes(r0, s0, want, pad, later); h, ts := want.header, want.tokens; }
        st, h, ts := ParseDynamicBlock(h, ts, later);
        if st.Done? { DynamicBlockWas(r0, s0, pad, h, ts, At(), Written()); }
        if hoped { DynamicWanted(s0, want, st, h, ts); }
        got := Dynamic(h, ts);
      }
    }

    /** One turn of the loop of `stbi__parse_zlib`. */
    method ParseBlock(ghost want: Block, ghost wantFinal: bool, ghost later: nat) returns (st: Outcome, final: bool, ghost got: Block)
      requires Valid()
      modifies this`zpos, this`num_bits, this`code_buffer, this`out, this`zout, out, z_length.Repr, z_distance.Repr
      ensures Valid() && (out == old(out) || fresh(out))
      ensures st.Done? ==> BlockRead(old(At()), old(Written()), got, final, At(), Written())
      ensures st.Unmodelled? ==> Endless(got)
      ensures BlockAhead(old(At()), old(Written()), want, wantFinal, later) ==> BlockDue(old(Written()), want, wantFinal, st, final, got)
    {
      hide Pending, Tables.Shape, Pow2, Over, BlockRead, BlockAhead, BodyRead, BodyAhead, BodyDue, DataBits, BlockType;
      Powers5();
      ghost var r0, s0 := At(), Written();
      var f := Receive(1);
      ghost var r1 := At();
      var kind := Receive(2);
      ghost var r2 := At();
      final := f == 1;
      AlignedAfter(r0, f, r1, kind, r2);
      ghost var hoped := BlockAhead(r0, s0, want, wantFinal, later);
      if hoped { BodyComes(r0, s0, want, wantFinal, later, f, r1, kind, r2); }
      st, got := ParseBody(kind, want, later);
      if st.Done? { BlockWas(r0, s0, f, r1, r2, got, At(), Written()); }
    }

    /** `stbi__parse_zlib_header`. */
    method ParseZlibHeader() returns (ok: bool)
      requires BitsValid()
      modifies this`zpos
      ensures BitsValid() && (ok <==> HeaderGood(input[old(zpos)..])) && (ok ==> zpos == old(zpos) + 2)
    {
      var cmf := Get8();
      var cm := cmf % 16;
      var flg := Get8();
      if Eof() {
        return false;
      }
      if Word(flg, cmf) % 31 != 0 {
        return false;
      }
      if flg / 32 % 2 == 1 {
        return false;
      }
      if cm != 8 {
        return false;
      }
      return true;
    }

    /** The loop of `stbi__parse_zlib`. */
    method ParseBlocks(ghost want: seq<Block>, ghost later: nat) returns (st: Outcome, ghost got: seq<Block>)
      requires Valid() && num_bits == 0
      modifies this`zpos, this`num_bits, this`code_buffer, this`out, this`zout, out, z_length.Repr, z_distance.Repr
      ensures Valid() && (out == old(out) || fresh(out))
      ensures st.Done? ==> StreamRead(old(At()), old(Written()), got, At(), Written())
      ensures st.Unmodelled? ==> got != [] && Endless(got[|got| - 1])
      ensures StreamAhead(old(At()), old(Written()), want, later) ==> StreamDue(old(Written()), want, st, got)
    {
      hide Pending, Tables.Shape, Pow2, PartRead, StreamRead, StreamAhead, StreamDue, BlockRead, BlockAhead, BlockDue, Sink.Holds, Sink.Holding, Grown, Endless;
      got := [];
      ghost var r0, s0 := At(), Written();
      NoBlocks(r0, s0);
      ghost var hoped := StreamAhead(r0, s0, want, later);
      if hoped { SomeBlock(r0, s0, want, later); }
      var final := false;
      while !final
        invariant Valid() && (out == old(out) || fresh(out))
        invariant final ==> StreamRead(r0, s0, got, At(), Written()) && (hoped ==> StreamDue(s0, want, Done, got))
        invariant !final ==> PartRead(r0, s0, got, At(), Written()) && (hoped ==> got < want)
        decreases !final, At().stream
      {
        ghost var r, s := At(), Written();
        ghost var next, last, rest := Fixed([]), false, later;
        if hoped { next, last, rest := NextBlock(r0, s0, want, later, got, r, s); }
        ghost var b;
        st, final, b := ParseBlock(next, last, rest);
        if !st.Done? {
          if hoped { BlocksFailed(r0, s0, want, later, got, r, s, next, last, rest, st, final, b); }
          return st, got + [b];
        }
        OneBlock(r0, s0, got, r, s, b, final, At(), Written());
        if hoped { OneBlockDue(r0, s0, want, later, got, r, s, next, last, rest, final, b); }
        got := got + [b];
      }
      st := Done;
    }

    /** `stbi__parse_zlib`. */
    method ParseZlib(parse_header: bool, ghost want: seq<Block>, ghost later: nat) returns (st: Outcome, ghost got: seq<Block>)
      requires Valid()
      modifies this`zpos, this`num_bits, this`code_buffer, this`out, this`zout, out, z_length.Repr, z_distance.Repr
      ensures Valid() && (out == old(out) || fresh(out))
      ensures parse_header && !HeaderGood(input[old(zpos)..]) ==> st.Corrupt?
      ensures st.Done? ==> StreamRead(StartOf(Body(input[old(zpos)..], parse_header)), old(Written()), got, At(), Written())
      ensures st.Done? ==> var n, body := |BlocksBits(got, true)|, Body(input[old(zpos)..], parse_header);
                8 * |body| >= n + 25 ==> 8 * zpos - num_bits == 8 * (|input| - |body|) + n
      ensures st.Unmodelled? ==> got != [] && Endless(got[|got| - 1])
      ensures (parse_header ==> HeaderGood(input[old(zpos)..]))
              && StreamAhead(StartOf(Body(input[old(zpos)..], parse_header)), old(Written()), want, later)
              ==> StreamDue(old(Written()), want, st, got)
    {
      hide Pending, Tables.Shape, Pow2, StreamRead, StreamAhead, StreamDue, Sink.Holds, Sink.Holding, Grown, BlocksShaped, BlocksBits, HeaderGood, Endless;
      got := [];
      if parse_header {
        var ok := ParseZlibHeader();
        if !ok {
          return Corrupt, got;
        }
        HeaderLong(input[old(zpos)..]);
      }
      num_bits := 0;
      code_buffer := 0;
      ghost var body := Body(input[old(zpos)..], parse_header);
      Started(input, old(zpos), parse_header, zpos);
      assert At() == StartOf(body);
      ghost var s0 := Written();
      st, got := ParseBlocks(want, later);
      if st.Done? { StreamEnd(body, s0, got, At(), Written()); }
    }
  }

  /** The bytes hold the blocks, written in the layout of RFC 1951, and at least two bytes more; with a
      header, they start with one of RFC 1950. */
  ghost predicate Compresses(input: seq<Byte>, parse_header: bool, blocks: seq<Block>) {
    && (parse_header ==> HeaderGood(input))
    && blocks != [] && BlocksShaped(blocks)
    && BlocksBits(blocks, true) <= BytesBits(Body(input, parse_header))
    && |BlocksBits(blocks, true)| + 16 <= 8 * |Body(input, parse_header)|
  }

  lemma CompressesAhead(input: seq<Byte>, parse_header: bool, blocks: seq<Block>, s: Sink) returns (later: nat)
    requires Compresses(input, parse_header, blocks) && BlocksLegal(blocks, s.output)
    ensures StreamAhead(StartOf(Body(input, parse_header)), s, blocks, later)
  {
    hide BlocksShaped, BlocksBits, BlocksLegal, Body, Cat;
    var body := Body(input, parse_header);
    var bits := BlocksBits(blocks, true);
    var tail := BytesBits(body)[|bits|..];
    assert BytesBits(body) == bits + tail;
    BytesCat(body);
    CatCat(bits, tail, 0);
    later := Cat(tail, 0);
  }

  /** `stbi_zlib_decode_malloc_guesssize_headerflag` and `stbi_zlib_decode_buffer`.  On the compressed form
      of any stream it gives exactly the bytes the stream stands for, unless the output cannot be made to
      hold them.  Whatever it decodes, the input, continued with zeros, starts with the compressed form of some
      stream; and if that uses only symbols with a meaning, every distance in it stays within the bytes written
      before it and the result is what it stands for. */
  method ZlibDecode(input: seq<Byte>, olen: nat, expandable: bool, heap: nat, parse_header: bool, ghost want: seq<Block>)
    returns (st: Outcome, output: seq<Byte>, ghost got: seq<Block>, ghost rest: nat)
    requires olen <= UINT_MAX && (expandable ==> olen > 0)
    ensures Compresses(input, parse_header, want) && BlocksLegal(want, []) ==>
              if Sink([], olen, expandable, heap).Holds(|BlocksOutput(want, [])|)
              then st.Done? && output == BlocksOutput(want, []) else st.Corrupt?
    ensures Compresses(input, parse_header, want) && BlocksLegal(want, []) && st.Done? ==> got == want
    ensures st.Done? ==> (parse_header ==> HeaderGood(input)) && got != [] && BlocksShaped(got)
    ensures st.Done? ==> BytesValue(Body(input, parse_header)) == Cat(BlocksBits(got, true), rest)
    ensures st.Done? && BlocksDefined(got) ==> BlocksLegal(got, []) && output == BlocksOutput(got, [])
    ensures st.Unmodelled? ==> got != [] && Endless(got[|got| - 1])
  {
    hide BlocksShaped, BlocksBits, Compresses, HeaderGood, Sink.Holds, Grown, Cat;
    var z := new ZBuf(input, olen, expandable, heap);
    ghost var later := 0;
    ghost var hoped := Compresses(input, parse_header, want) && BlocksLegal(want, []);
    if hoped {
      later := CompressesAhead(input, parse_header, want, z.Written());
      CompressesHeader(input, parse_header, want);
    }
    assert input[0..] == input;
    st, got := z.ParseZlib(parse_header, want, later);
    rest := z.At().stream;
    output := z.out[..z.zout];
  }

  lemma CompressesHeader(input: seq<Byte>, parse_header: bool, blocks: seq<Block>)
    requires Compresses(input, parse_header, blocks)
    ensures parse_header ==> HeaderGood(input)
  {
  }

  /** Near the end of the input the position is not kept: in a three-byte input, the first bit read is
      counted as the eighth bit before the start. */
  method FirstOfThree(input: seq<Byte>) returns (zpos: nat, num_bits: nat)
    requires |input| == 3
    ensures 8 * zpos - num_bits == 1 - 8
  {
    var z := new ZBuf(input, 0, false, 0);
    var bit := z.Receive(1);
    zpos, num_bits := z.zpos, z.num_bits;
  }
}
