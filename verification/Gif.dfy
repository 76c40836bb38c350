/** The GIF raster decoder of stb_image: `stbi__out_gif_code` and `stbi__process_gif_raster`. */
module Gif {
  import opened Bits
  import opened GifLzw
  import opened GifCursor

  /** Four bytes of the canvas, or of a colour table entry. */
  datatype Pixel = Pixel(b0: Byte, b1: Byte, b2: Byte, b3: Byte)

  /** Transparent colours leave the canvas as it is. */
  function Drawn(was: Pixel, c: Pixel): Pixel {
    if c.b3 > 128 then Pixel(c.b2, c.b1, c.b0, c.b3) else was
  }

  /** Only the pixel at `p` may change: it gets the colour, first and third byte exchanged, if that is not transparent. */
  ghost predicate PixelSet(was: seq<Pixel>, out: seq<Pixel>, c: Pixel, p: nat) {
    && p < |out| == |was| && (forall q | 0 <= q < |out| && q != p :: out[q] == was[q])
    && if c.b3 > 128 then out[p].b0 == c.b2 && out[p].b1 == c.b1 && out[p].b2 == c.b0 && out[p].b3 == c.b3 else out[p] == was[p]
  }

  /** The canvas `out0` after the symbols were drawn at `visits`, one each, and nothing anywhere else. */
  ghost predicate Painted(out: seq<Pixel>, history: seq<bool>, out0: seq<Pixel>, table: seq<Pixel>, visits: seq<nat>, symbols: seq<Byte>) {
    && |out| == |history| == |out0| && |table| == 256 && |visits| <= |symbols|
    && (forall k | 0 <= k < |visits| :: visits[k] < |out|)
    && (forall k | 0 <= k < |visits| :: out[visits[k]] == Drawn(out0[visits[k]], table[symbols[k]]) && history[visits[k]])
    && (forall p | 0 <= p < |out| && p !in visits :: out[p] == out0[p] && !history[p])
  }

  lemma PaintedStep(out: seq<Pixel>, history: seq<bool>, out0: seq<Pixel>, table: seq<Pixel>, visits: seq<nat>, symbols: seq<Byte>, p: nat, s: Byte)
    requires Painted(out, history, out0, table, visits, symbols) && |visits| == |symbols| && p !in visits && p < |out|
    ensures Painted(out[p := Drawn(out[p], table[s])], history[p := true], out0, table, visits + [p], symbols + [s])
  {
    var out', history', visits' := out[p := Drawn(out[p], table[s])], history[p := true], visits + [p];
    forall k | 0 <= k < |visits'|
      ensures visits'[k] < |out| && out'[visits'[k]] == Drawn(out0[visits'[k]], table[(symbols + [s])[k]]) && history'[visits'[k]]
    {
      if k < |visits| { assert visits[k] in visits; }
    }
    forall q | 0 <= q < |out'| && q !in visits' ensures out'[q] == out0[q] && !history'[q] {
      assert visits'[|visits|] == p;
      assert q !in visits;
    }
  }

  lemma PaintedMore(out: seq<Pixel>, history: seq<bool>, out0: seq<Pixel>, table: seq<Pixel>, visits: seq<nat>, symbols: seq<Byte>, s: Byte)
    requires Painted(out, history, out0, table, visits, symbols)
    ensures Painted(out, history, out0, table, visits, symbols + [s])
  {
  }

  /** The pixel in row `r` and column `c` of the frame shows symbol `Rank(r) * w + c`: its colour, with the first and the third
      byte of the entry exchanged, unless it is transparent or there is no such symbol. */
  ghost predicate ShowsAt(out: seq<Pixel>, canvas: seq<Pixel>, table: seq<Pixel>, f: Frame, symbols: seq<Byte>, r: nat, c: nat) {
    var p, n := f.At(r, c), Rank(r, f.h, f.interlaced) * f.w + c;
    && |table| == 256 && p < |out| == |canvas|
    && if n < |symbols| && table[symbols[n]].b3 > 128
       then out[p].b0 == table[symbols[n]].b2 && out[p].b1 == table[symbols[n]].b1
            && out[p].b2 == table[symbols[n]].b0 && out[p].b3 == table[symbols[n]].b3
       else out[p] == canvas[p]
  }

  /** So does every pixel of the frame, and the rest of the canvas is as it was. */
  ghost predicate Picture(out: seq<Pixel>, canvas: seq<Pixel>, table: seq<Pixel>, f: Frame, symbols: seq<Byte>) {
    && |out| == |canvas| && (forall r: nat, c: nat | r < f.h && c < f.w :: ShowsAt(out, canvas, table, f, symbols, r, c))
    && forall p: nat | p < |out| && !Inside(f, p) :: out[p] == canvas[p]
  }

  lemma NotYet(all: seq<nat>, k: nat, n: nat)
    requires Distinct(all) && k <= n < |all|
    ensures all[n] !in all[..k]
  {
  }

  // ----- arithmetic of the cursor

  /** The distance in bytes of `rows` rows of `size` bytes. */
  function Offset(rows: nat, size: nat): nat {
    rows * size
  }

  /** The byte index computed from the two cursor coordinates is that of the pixel. */
  lemma IndexIs(f: Frame, row: nat, col: nat)
    ensures 4 * f.x0 + 4 * col + (Offset(f.y0, 4 * f.width) + Offset(row, 4 * f.width)) == 4 * f.At(row, col)
  {
    var w := f.width;
    assert (f.y0 + row) * w == f.y0 * w + row * w;
    assert f.y0 * (4 * w) == 4 * (f.y0 * w) && row * (4 * w) == 4 * (row * w);
  }

  lemma RowBefore(row: nat, h: nat, size: nat)
    requires size > 0
    ensures Offset(row, size) < Offset(h, size) <==> row < h
  {
    if row < h { StrictScale(row, h, size); } else { Scale(h, row, size); }
  }

  lemma InCanvas(f: Frame, height: nat, p: nat)
    requires f.Ok() && f.y0 + f.h <= height && Inside(f, p)
    ensures p < f.width * height
  {
    var r: nat, c: nat :| r < f.h && c < f.w && p == f.At(r, c);
    Scale(f.y0 + r + 1, height, f.width);
    assert (f.y0 + r + 1) * f.width == (f.y0 + r) * f.width + f.width;
  }

  lemma AllInCanvas(f: Frame, height: nat)
    requires f.Ok() && f.y0 + f.h <= height
    ensures forall p: nat | Inside(f, p) :: p < f.width * height
  {
    hide Inside;
    forall p: nat | Inside(f, p) ensures p < f.width * height { InCanvas(f, height, p); }
  }

  /** When a pass is over, what is left is what the next pass starts with. */
  lemma NextPass(row: nat, stride: nat, parse: nat, h: nat)
    requires stride > 0 && row >= h && parse > 0
    ensures Left(row, stride, parse, h) == Left(Pow2(parse) / 2, Pow2(parse), parse - 1, h)
  {
  }

  lemma RowOver(row: nat, stride: nat, parse: nat, h: nat)
    requires stride > 0 && row < h
    ensures Left(row, stride, parse, h)[1..] == Left(row + stride, stride, parse, h)
  {
    assert PassRows(row, stride, h) == [row] + PassRows(row + stride, stride, h);
    assert ([row] + PassRows(row + stride, stride, h) + Later(parse, h))[1..] == PassRows(row + stride, stride, h) + Later(parse, h);
  }

  lemma Distribute(a: nat, b: nat, p: nat)
    ensures Offset(a + b, p) == Offset(a, p) + Offset(b, p)
  {
  }

  lemma LeftHead(row: nat, stride: nat, parse: nat, h: nat)
    requires stride > 0
    ensures row < h ==> Left(row, stride, parse, h) != [] && Left(row, stride, parse, h)[0] == row
    ensures row >= h && parse == 0 ==> Left(row, stride, parse, h) == []
  {
  }

  lemma HalfStep(parse: nat, size: nat)
    requires parse > 0
    ensures Offset(Pow2(parse), size) / 2 == Offset(Pow2(parse) / 2, size)
  {
    var p := Pow2(parse - 1);
    assert Pow2(parse) == 2 * p;
    assert Pow2(parse) * size == 2 * (p * size);
  }

  class Raster {
    const line_size: nat
    const start_x: nat
    const start_y: nat
    const max_x: nat
    const max_y: nat
    var cur_x: nat
    var cur_y: nat
    var step: nat
    var parse: nat
    const out: array<Pixel>
    const history: array<bool>
    const codes: array<Entry>
    const color_table: seq<Pixel>

    ghost const f: Frame
    ghost const canvas: seq<Pixel>   // the canvas before the frame
    ghost var rows: seq<nat>         // rows left, the current one first
    ghost var col: nat
    ghost var stride: nat
    ghost var visited: seq<nat>      // pixels filled so far
    ghost var emitted: seq<Byte>     // symbols decoded so far

    /** The cursor of an image descriptor (x, y, w, h) on a canvas, lines 6778 to 6801. */
    constructor (width: nat, height: nat, x: nat, y: nat, w: nat, h: nat, interlaced: bool, canvas: array<Pixel>, table: seq<Pixel>)
      requires x + w <= width && y + h <= height && canvas.Length == width * height && |table| == 256
      ensures CursorValid() && PaintValid() && f == Frame(width, x, y, w, h, interlaced)
      ensures out == canvas && this.canvas == canvas[..] && color_table == table && emitted == []
      ensures fresh(codes) && fresh(history) && codes.Length == 8192
    {
      hide Remaining, AllVisits, Left, RowOrder, Inside;
      line_size := width * 4;
      start_x := x * 4;
      start_y := y * (width * 4);
      max_x := x * 4 + w * 4;
      max_y := y * (width * 4) + h * (width * 4);
      cur_x := x * 4;
      cur_y := if w == 0 then y * (width * 4) + h * (width * 4) else y * (width * 4);
      step := if interlaced then 8 * (width * 4) else width * 4;
      parse := if interlaced then 3 else 0;
      out := canvas;
      history := new bool[canvas.Length](_ => false);
      codes := new Entry[8192](_ => Entry(0, 0, 0));
      color_table := table;
      f := Frame(width, x, y, w, h, interlaced);
      this.canvas := canvas[..];
      stride := if interlaced then 8 else 1;
      rows := if w == 0 then [] else RowOrder(h, interlaced);
      col, visited, emitted := 0, [], [];
      new;
      StartLeft(f);
      AllInCanvas(f, height);
      NothingLeft(f);
    }

    ghost predicate FrameValid()
      reads this
    {
      && f.Ok() && line_size == 4 * f.width && start_x == 4 * f.x0 && start_y == Offset(f.y0, line_size)
      && max_x == start_x + 4 * f.w && max_y == start_y + Offset(f.h, line_size)
    }

    /** The row coordinate, the step and the passes left agree with the rows left. */
    ghost predicate RowValid()
      reads this
    {
      if rows == [] then cur_y >= max_y
      else
        && stride > 0 && rows[0] < f.h && rows == Left(rows[0], stride, parse, f.h)
        && step == Offset(stride, line_size) && cur_y == start_y + Offset(rows[0], line_size)
    }

    ghost predicate CursorValid()
      reads this
    {
      && FrameValid() && RowValid() && col <= f.w
      && (rows != [] ==> col < f.w && cur_x == start_x + 4 * col)
      && visited + Remaining(f, rows, col) == AllVisits(f)
    }

    ghost predicate PaintValid()
      reads this, out, history
    {
      && col <= f.w
      && out.Length == history.Length && |color_table| == 256
      && (forall p: nat | Inside(f, p) :: p < out.Length)
      && (Remaining(f, rows, col) != [] ==> |visited| == |emitted|)
      && Painted(out[..], history[..], canvas, color_table, visited, emitted)
    }

    /** The end of a row: go to the next row of the pass, or to the first row of the next pass that has one. */
    method NextRow()
      requires FrameValid() && RowValid() && rows != [] && line_size > 0
      modifies this`cur_x, this`cur_y, this`step, this`parse, this`rows, this`col, this`stride
      ensures RowValid() && rows == old(rows)[1..] && col == 0 && cur_x == start_x
    {
      hide Left, Pow2, Remaining, AllVisits, Offset;
      ghost var row: nat := rows[0] + stride;
      RowOver(rows[0], stride, parse, f.h);
      Distribute(rows[0], stride, line_size);
      rows := rows[1..];
      col := 0;
      cur_x := start_x;
      cur_y := cur_y + step;
      RowBefore(row, f.h, line_size);
      while cur_y >= max_y && parse > 0
        invariant rows == old(rows)[1..] && col == 0 && cur_x == start_x
        invariant stride > 0 && rows == Left(row, stride, parse, f.h)
        invariant step == Offset(stride, line_size) && cur_y == start_y + Offset(row, line_size)
        invariant cur_y >= max_y <==> row >= f.h
        decreases parse
      {
        NextPass(row, stride, parse, f.h);
        HalfStep(parse, line_size);
        step := Offset(Pow2(parse), line_size);
        cur_y := start_y + step / 2;
        stride := Pow2(parse);
        row := Pow2(parse) / 2;
        parse := parse - 1;
        RowBefore(row, f.h, line_size);
      }
      LeftHead(row, stride, parse, f.h);
    }

    lemma AtEnd()
      requires CursorValid() && cur_y >= max_y
      ensures rows == [] && Remaining(f, rows, col) == []
    {
      if rows != [] { RowBefore(rows[0], f.h, line_size); }
    }

    lemma NotAtEnd()
      requires CursorValid() && cur_y < max_y
      ensures rows != [] && line_size > 0
    {
    }

    /** The part of `stbi__out_gif_code` that writes one symbol. */
    method PutSymbol(symbol: Byte)
      requires CursorValid() && PaintValid()
      modifies this`cur_x, this`cur_y, this`step, this`parse, this`rows, this`col, this`stride, this`visited, this`emitted, out, history
      ensures CursorValid() && PaintValid() && emitted == old(emitted) + [symbol]
      ensures old(rows) == [] ==> out[..] == old(out[..])
      ensures old(rows) != [] ==> PixelSet(old(out[..]), out[..], color_table[symbol], f.At(old(rows)[0], old(col)))
    {
      hide Left, Remaining, AllVisits, Painted, Inside, Frame.At, Offset;
      if cur_y >= max_y {
        PaintedMore(out[..], history[..], canvas, color_table, visited, emitted, symbol);
        AtEnd();
        emitted := emitted + [symbol];
        return;
      }
      NotAtEnd();
      ghost var p := f.At(rows[0], col);
      IndexIs(f, rows[0], col);
      RemainingStep(f, rows, col);
      ghost var rest := Remaining(f, rows, col);
      Unvisited(f, visited, rest);
      assert visited + rest == (visited + [rest[0]]) + rest[1..];
      PaintedStep(out[..], history[..], canvas, color_table, visited, emitted, p, symbol);
      var idx := cur_x + cur_y;
      history[idx / 4] := true;
      var c := color_table[symbol];
      if c.b3 > 128 {
        out[idx / 4] := Pixel(c.b2, c.b1, c.b0, c.b3);
      }
      assert out[..] == old(out[..])[p := Drawn(old(out[p]), c)] && history[..] == old(history[..])[p := true];
      visited := visited + [p];
      emitted := emitted + [symbol];
      cur_x := cur_x + 4;
      if cur_x >= max_x {
        NextRow();
      } else {
        col := col + 1;
      }
    }

    /** `stbi__out_gif_code`: the symbols of an entry, first to last, by recursion along its prefixes. */
    method OutGifCode(code: nat, ghost clear: nat, ghost avail: nat)
      requires CursorValid() && PaintValid() && Linked(codes[..], clear, avail) && Live(clear, avail, code)
      modifies this`cur_x, this`cur_y, this`step, this`parse, this`rows, this`col, this`stride, this`visited, this`emitted, out, history
      ensures CursorValid() && PaintValid() && emitted == old(emitted) + Expand(codes[..], clear, avail, code)
      decreases code
    {
      hide Raster.CursorValid, Raster.PaintValid;
      ghost var e := emitted;
      if codes[code].prefix >= 0 {
        OutGifCode(codes[code].prefix, clear, avail);
      }
      PutSymbol(codes[code].suffix);
    }

    /** Write the entry for `oldcode` followed by the first symbol of `code`.  When `code` is the entry being
        written, the last assignment reads the `first` that was just stored. */
    method AddEntry(p: nat, oldcode: nat, code: nat, ghost clear: nat)
      requires codes.Length == 8192 && p < 8192 && Linked(codes[..], clear, p) && Live(clear, p, oldcode) && code < 8192
      modifies codes
      ensures code <= p ==> codes[..] == old(codes[..])[p := NewEntry(old(codes[..]), clear, p, oldcode, code)]
      ensures Linked(codes[..], clear, p + 1)
    {
      var avail := p + 1;
      codes[p] := codes[p].(prefix := oldcode);
      codes[p] := codes[p].(first := codes[oldcode].first);
      codes[p] := codes[p].(suffix := if code == avail then codes[p].first else codes[code].first);
      LinkedMore(old(codes[..]), clear, p, codes[..]);
    }

    /** One code that is neither the clear nor the end code. */
    method UseCode(code: nat, oldcode: int, avail: nat, first: bool, codesize: nat, ghost cs: nat, ghost st: State)
      returns (verdict: Verdict, avail': nat, codesize': nat)
      requires CursorValid() && PaintValid() && codes.Length == 8192
      requires Linked(codes[..], Pow2(cs), avail) && (oldcode == -1 || Live(Pow2(cs), avail, oldcode))
      requires code != Pow2(cs) && code != Pow2(cs) + 1
      requires 2 <= cs <= 11 ==> Sync(cs, codes[..], avail, oldcode, first, codesize, st) && code < MAX_CODES
      modifies this`cur_x, this`cur_y, this`step, this`parse, this`rows, this`col, this`stride, this`visited, this`emitted, out, history, codes
      ensures CursorValid() && PaintValid()
      ensures verdict.More? || verdict.Refused? || verdict.TooMany?
      ensures verdict.More? ==> Linked(codes[..], Pow2(cs), avail') && Live(Pow2(cs), avail', code) && avail <= avail'
      ensures verdict.More? ==> codesize <= codesize' <= codesize + 1 && (codesize' > codesize ==> avail' <= 0x0FFF && Low(avail', codesize) == 0)
      ensures forall i | 0 <= i < Pow2(cs) && i < 8192 :: codes[i] == old(codes[i])
      ensures 2 <= cs <= 11 ==> CodeUsed(cs, st, code, verdict, old(emitted), emitted, codes[..], avail', codesize')
      ensures verdict.More? ==> avail' == (if oldcode >= 0 then avail + 1 else avail) <= 8192
      ensures verdict.TooMany? <==> code <= avail && !first && oldcode >= 0 && avail >= 8192
    {
      hide Raster.CursorValid, Raster.PaintValid, Sync, Linked, Expand, Pow2, Low, DecodeCode;
      avail', codesize' := avail, codesize;
      if 2 <= cs <= 11 { SyncRefuses(cs, codes[..], avail, oldcode, first, codesize, st, code); }
      if code <= avail {
        if first {
          return Refused(NoClear), avail', codesize';
        }
        LinkedSize(codes[..], Pow2(cs), avail);
        if oldcode >= 0 {
          var p := avail';
          avail' := avail' + 1;
          if avail' > 8192 {
            if 2 <= cs <= 11 { SyncFull(cs, codes[..], avail, oldcode, codesize, st, code); }
            return TooMany, avail', codesize';
          }
          AddEntry(p, oldcode, code, Pow2(cs));
          if 2 <= cs <= 11 { SyncNext(cs, old(codes[..]), avail, oldcode, codesize, st, code, codes[..]); }
        } else if code == avail {
          return Refused(Illegal), avail', codesize';
        } else if 2 <= cs <= 11 {
          SyncFirst(cs, codes[..], avail, codesize, st, code);
        }
        OutGifCode(code, Pow2(cs), avail');
        if Low(avail', codesize) == 0 && avail' <= 0x0FFF {
          codesize' := codesize + 1;
        }
        verdict := More;
      } else {
        return Refused(Illegal), avail', codesize';
      }
    }

    /** `stbi__process_gif_raster`, without the skipping of what follows the end code.  Whatever the input,
        the symbols emitted are painted one after the other in the filling order.  For minimum
        code sizes 2 to 11 these are the symbols of the textbook decoder on the same data, and it fails exactly
        where that fails, unless so many codes come without a clear code between that the table is full. */
    method ReadRaster(input: seq<Byte>, start: nat) returns (verdict: Verdict)
      requires CursorValid() && PaintValid() && codes.Length == 8192 && start <= |input| && emitted == []
      modifies this`cur_x, this`cur_y, this`step, this`parse, this`rows, this`col, this`stride, this`visited, this`emitted, out, history, codes
      ensures CursorValid() && PaintValid()
      ensures verdict.BadCodeSize? <==> ByteAt(input, start) > 12
      ensures 2 <= ByteAt(input, start) <= 11 ==> Shows(ByteAt(input, start), Payload(input, NextPos(input, start), 0), verdict, emitted)
    {
      hide Raster.CursorValid, Raster.PaintValid, Sync, Linked, Expand, Pow2, Low, Shr, DecodeCode, Decode, Payload, CodeUsed, Or, Shl, BitsLeft, Roots;
      hide OnTrack, Shows;
      ghost var data := Payload(input, NextPos(input, start), 0);
      var lzw_cs, pos := ByteAt(input, start), NextPos(input, start);
      if lzw_cs > 12 {
        return BadCodeSize;
      }
      ghost var good := 2 <= lzw_cs <= 11;
      var clear := Pow2(lzw_cs);
      InitRoots(lzw_cs);
      var first, codesize: nat := true, lzw_cs + 1;
      var bits: nat, valid_bits: nat, len: nat := 0, 0, 0;
      var avail := clear + 2;
      var oldcode: int := -1;
      ghost var st := Start(lzw_cs);
      if good { SyncStart(lzw_cs, codes[..], false); }
      if good { TrackStart(lzw_cs, data); }
      while true
        invariant CursorValid() && PaintValid() && pos <= |input|
        invariant bits < Pow2(valid_bits) && codesize > 0
        invariant Linked(codes[..], clear, avail) && (oldcode == -1 || Live(clear, avail, oldcode))
        invariant forall i | 0 <= i < clear && i < 8192 :: codes[i] == Entry(-1, i % 256, i % 256)
        invariant good ==> Sync(lzw_cs, codes[..], avail, oldcode, first, codesize, st)
        invariant good ==> OnTrack(lzw_cs, data, emitted, BitsLeft(bits, valid_bits, Payload(input, pos, len)), valid_bits + 8 * |Payload(input, pos, len)|, st, Since(lzw_cs, avail, oldcode))
        decreases |input| - pos, len, valid_bits
      {
        PayloadStep(input, pos, len);
        if good { SyncWidth(lzw_cs, codes[..], avail, oldcode, first, codesize, st); }
        if valid_bits < codesize {
          if len == 0 {
            len, pos := ByteAt(input, pos), NextPos(input, pos);
            if len == 0 {
              if good { TrackEnd(lzw_cs, data, emitted, BitsLeft(bits, valid_bits, []), valid_bits, st, Since(lzw_cs, avail, oldcode)); }
              return Shown;
            }
            PayloadStep(input, pos, len);
          }
          len := len - 1;
          var b := ByteAt(input, pos);
          pos := NextPos(input, pos);
          ReadByte(bits, valid_bits, b, Payload(input, pos, len));
          bits := Or(bits, Shl(b, valid_bits));
          valid_bits := valid_bits + 8;
        } else {
          ghost var left := Payload(input, pos, len);
          TakeCode(bits, valid_bits, codesize, left);
          var code := Low(bits, codesize);
          if good { TrackCode(lzw_cs, data, emitted, BitsLeft(bits, valid_bits, left), valid_bits + 8 * |left|, st, Since(lzw_cs, avail, oldcode)); }
          if good { ShortCode(bits, codesize); }
          bits := Shr(bits, codesize);
          valid_bits := valid_bits - codesize;
          if code == clear {
            codesize := lzw_cs + 1;
            avail := clear + 2;
            oldcode := -1;
            first := false;
            ClearedLinks(codes[..], clear);
            ClearStep(lzw_cs, st);
            assert emitted + [] == emitted;
            if good { SyncStart(lzw_cs, codes[..], true); }
            st := State(true, Roots(lzw_cs), []);
          } else if code == clear + 1 {
            EndStep(lzw_cs, st);
            if good { TrackStopped(lzw_cs, data, emitted, Finished, Shown); }
            return Shown;
          } else {
            ghost var was := emitted;
            if good { SinceNext(lzw_cs, codes[..], avail, oldcode, first, codesize, st, code); }
            ghost var step := DecodeCode(lzw_cs, st, code);
            verdict, avail, codesize := UseCode(code, oldcode, avail, first, codesize, lzw_cs, st);
            if good { CodeUsedMeans(lzw_cs, st, code, verdict, was, emitted, codes[..], avail, codesize); }
            if !verdict.More? {
              if good {
                if verdict.Refused? { TrackStopped(lzw_cs, data, emitted, verdict.end, verdict); }
                if verdict.TooMany? { TrackTooMany(lzw_cs, data, emitted); }
              }
              return;
            }
            oldcode := code;
            first := false;
            if good { st := step.next; }
          }
        }
      }
    }

    /** Whatever the input, the canvas then shows exactly the symbols: the pixel in row `r` and column `c` of the frame has the
        colour of symbol `Rank(r) * w + c`, with the first and the third byte of its entry exchanged, if there is such a symbol
        and its colour is not transparent; every other pixel of the canvas is as it was. */
    method ProcessRaster(input: seq<Byte>, start: nat) returns (verdict: Verdict)
      requires CursorValid() && PaintValid() && codes.Length == 8192 && start <= |input| && emitted == []
      modifies this`cur_x, this`cur_y, this`step, this`parse, this`rows, this`col, this`stride, this`visited, this`emitted, out, history, codes
      ensures CursorValid() && PaintValid()
      ensures verdict.BadCodeSize? <==> ByteAt(input, start) > 12
      ensures 2 <= ByteAt(input, start) <= 11 ==> Shows(ByteAt(input, start), Payload(input, NextPos(input, start), 0), verdict, emitted)
      ensures Picture(out[..], canvas, color_table, f, emitted)
    {
      hide Raster.CursorValid, Raster.PaintValid, Shows, ShowsAt, Inside;
      verdict := ReadRaster(input, start);
      forall r: nat, c: nat | r < f.h && c < f.w ensures ShowsAt(out[..], canvas, color_table, f, emitted, r, c) { PixelShown(r, c); }
      OutsideKept();
    }

    lemma PixelShown(r: nat, c: nat)
      requires CursorValid() && PaintValid() && r < f.h && c < f.w
      ensures ShowsAt(out[..], canvas, color_table, f, emitted, r, c)
    {
      hide Rank, Frame.At, AllVisits, Remaining, Distinct;
      var p, n, all := f.At(r, c), Rank(r, f.h, f.interlaced) * f.w + c, AllVisits(f);
      PlaceIs(f, r, c);
      EveryPixelOnce(f);
      assert all[n] in all;
      assert visited == all[..|visited|];
      if n < |visited| {
        assert visited[n] == p;
      } else {
        NotYet(all, |visited|, n);
      }
    }

    lemma OutsideKept()
      requires CursorValid() && PaintValid()
      ensures out.Length == |canvas| && forall p: nat | p < out.Length && !Inside(f, p) :: out[..][p] == canvas[p]
    {
      hide AllVisits, Remaining, Inside;
      EveryPixelOnce(f);
      forall p: nat | p < out.Length && !Inside(f, p) ensures out[..][p] == canvas[p] {
        assert visited <= AllVisits(f);
        assert p !in visited;
      }
    }

    /** The roots of the code table. */
    method InitRoots(cs: nat)
      requires codes.Length == 8192 && cs <= 12
      modifies codes
      ensures forall i | 0 <= i < Pow2(cs) && i < 8192 :: codes[i] == Entry(-1, i % 256, i % 256)
      ensures Pow2(cs) + 2 <= 8192 && Linked(codes[..], Pow2(cs), Pow2(cs) + 2)
    {
      Pow2Mono(cs, 12);
      Pow2Values();
      hide Pow2;
      var init_code := 0;
      while init_code < Pow2(cs)
        invariant init_code <= Pow2(cs)
        invariant forall i | 0 <= i < init_code :: codes[i] == Entry(-1, i % 256, i % 256)
      {
        codes[init_code] := Entry(-1, init_code % 256, init_code % 256);
        init_code := init_code + 1;
      }
    }
  }

  /** The bits not yet decoded: those buffered, then the data bytes left. */
  ghost function BitsLeft(bits: nat, valid_bits: nat, left: seq<Byte>): nat {
    bits + Pow2(valid_bits) * BytesValue(left)
  }

  /** How many codes since the last clear code have been used. */
  function Since(cs: nat, avail: nat, oldcode: int): nat {
    if oldcode < 0 || avail <= Pow2(cs) then 0 else avail - Pow2(cs) - 1
  }

  lemma SinceNext(cs: nat, codes: seq<Entry>, avail: nat, oldcode: int, first: bool, codesize: nat, st: State, code: nat)
    requires 2 <= cs <= 11 && Sync(cs, codes, avail, oldcode, first, codesize, st) && |codes| == 8192
    ensures Since(cs, if oldcode >= 0 then avail + 1 else avail, code) == Since(cs, avail, oldcode) + 1
    ensures Since(cs, avail, oldcode) + 1 == TableLimit(cs) <==> oldcode >= 0 && avail >= 8192
  {
    hide WidthOk, Expand;
    RepresentsSize(codes, Pow2(cs), avail, st.dict);
    LinkedSize(codes, Pow2(cs), avail);
  }

  /** The symbols emitted so far and those still to come from `stream` are those of the whole data, and so is
      whether and where too many codes come without a clear code. */
  ghost predicate OnTrack(cs: nat, data: seq<Byte>, emitted: seq<Byte>, stream: nat, n: nat, st: State, count: nat)
    requires cs <= 11
  {
    && Decode(cs, BytesValue(data), 8 * |data|, Start(cs)) == (emitted + Decode(cs, stream, n, st).0, Decode(cs, stream, n, st).1)
    && OverrunOf(cs, data) == Behind(emitted, Overruns(cs, stream, n, st, count, TableLimit(cs)))
  }

  function OverrunOf(cs: nat, data: seq<Byte>): Overrun
    requires cs <= 11
  {
    Overruns(cs, BytesValue(data), 8 * |data|, Start(cs), 0, TableLimit(cs))
  }

  lemma TrackStart(cs: nat, data: seq<Byte>)
    requires cs <= 11
    ensures OnTrack(cs, data, [], BitsLeft(0, 0, data), 8 * |data|, Start(cs), 0)
    ensures 0 < Pow2(0)
  {
    hide Decode, Overruns, TableLimit;
    assert BitsLeft(0, 0, data) == 1 * BytesValue(data) == BytesValue(data);
    var d := Decode(cs, BytesValue(data), 8 * |data|, Start(cs));
    assert [] + d.0 == d.0;
    var o := OverrunOf(cs, data);
    assert o.After? ==> [] + o.text == o.text;
  }

  lemma PayloadStep(input: seq<Byte>, pos: nat, len: nat)
    requires pos <= |input|
    ensures len == 0 && ByteAt(input, pos) == 0 ==> Payload(input, pos, len) == []
    ensures len == 0 && ByteAt(input, pos) > 0 ==> pos < |input| && Payload(input, pos, len) == Payload(input, NextPos(input, pos), ByteAt(input, pos))
    ensures len > 0 ==> Payload(input, pos, len) == [ByteAt(input, pos)] + Payload(input, NextPos(input, pos), len - 1)
  {
  }

  /** Buffering a data byte loses no bit. */
  lemma ReadByte(bits: nat, valid_bits: nat, b: Byte, rest: seq<Byte>)
    requires bits < Pow2(valid_bits)
    ensures Or(bits, Shl(b, valid_bits)) < Pow2(valid_bits + 8)
    ensures BitsLeft(Or(bits, Shl(b, valid_bits)), valid_bits + 8, rest) == BitsLeft(bits, valid_bits, [b] + rest)
  {
    Absorb(bits, valid_bits, b, BytesValue(rest));
    assert ([b] + rest)[1..] == rest;
  }

  lemma TakeCode(bits: nat, valid_bits: nat, n: nat, left: seq<Byte>)
    requires bits < Pow2(valid_bits) && n <= valid_bits
    ensures Low(BitsLeft(bits, valid_bits, left), n) == Low(bits, n)
    ensures Shr(bits, n) < Pow2(valid_bits - n)
    ensures Shr(BitsLeft(bits, valid_bits, left), n) == BitsLeft(Shr(bits, n), valid_bits - n, left)
  {
    JoinShr(bits, BytesValue(left), valid_bits, n);
  }

  lemma SyncWidth(cs: nat, codes: seq<Entry>, avail: nat, oldcode: int, first: bool, codesize: nat, st: State)
    requires Sync(cs, codes, avail, oldcode, first, codesize, st)
    ensures codesize == Width(cs, |st.dict|) && codesize <= 12
  {
    WidthIs(cs, |st.dict|, codesize);
  }

  lemma ShortCode(bits: nat, codesize: nat)
    requires codesize <= 12
    ensures Low(bits, codesize) < MAX_CODES
  {
    LowBound(bits, codesize);
    Pow2Mono(codesize, 12);
    Pow2Values();
  }

  lemma ClearedLinks(codes: seq<Entry>, clear: nat)
    requires clear + 2 <= |codes| && forall i | 0 <= i < clear :: codes[i].prefix == -1
    ensures Linked(codes, clear, clear + 2)
  {
  }

  lemma ClearStep(cs: nat, st: State)
    ensures DecodeCode(cs, st, Pow2(cs)) == Emit([], State(true, Roots(cs), []))
  {
  }

  lemma EndStep(cs: nat, st: State)
    ensures DecodeCode(cs, st, Pow2(cs) + 1) == Stop(Finished)
  {
  }

  lemma TrackEnd(cs: nat, data: seq<Byte>, emitted: seq<Byte>, stream: nat, n: nat, st: State, count: nat)
    requires cs <= 11 && OnTrack(cs, data, emitted, stream, n, st, count) && n < Width(cs, |st.dict|)
    ensures Shows(cs, data, Shown, emitted)
  {
    assert emitted + [] == emitted;
  }

  /** One code of the textbook decoder. */
  lemma TrackCode(cs: nat, data: seq<Byte>, emitted: seq<Byte>, stream: nat, n: nat, st: State, count: nat)
    requires cs <= 11 && OnTrack(cs, data, emitted, stream, n, st, count) && Width(cs, |st.dict|) <= n
    ensures var w := Width(cs, |st.dict|);
            var code := Low(stream, w);
            match DecodeCode(cs, st, code)
            case Stop(e) => Decode(cs, BytesValue(data), 8 * |data|, Start(cs)) == (emitted, e) && OverrunOf(cs, data) == Never
            case Emit(text, next) =>
              if code == Pow2(cs) then text == [] && OnTrack(cs, data, emitted, Shr(stream, w), n - w, next, 0)
              else if count + 1 == TableLimit(cs) then OverrunOf(cs, data) == After(emitted)
              else OnTrack(cs, data, emitted + text, Shr(stream, w), n - w, next, count + 1)
  {
    hide TableLimit, OverrunOf;
    var w := Width(cs, |st.dict|);
    var step := DecodeCode(cs, st, Low(stream, w));
    if step.Emit? {
      DecodeMore(cs, stream, n, st);
      OverrunMore(cs, stream, n, st, count, emitted);
    } else {
      assert emitted + [] == emitted;
    }
  }

  lemma DecodeMore(cs: nat, stream: nat, n: nat, st: State)
    requires Width(cs, |st.dict|) <= n && DecodeCode(cs, st, Low(stream, Width(cs, |st.dict|))).Emit?
    ensures var w := Width(cs, |st.dict|);
            var step := DecodeCode(cs, st, Low(stream, w));
            var rest := Decode(cs, Shr(stream, w), n - w, step.next);
            Decode(cs, stream, n, st) == (step.text + rest.0, rest.1)
            && (Low(stream, w) == Pow2(cs) ==> step.text == [] && [] + rest.0 == rest.0)
            && forall emitted: seq<Byte> :: emitted + (step.text + rest.0) == (emitted + step.text) + rest.0
  {
    forall emitted: seq<Byte>
      ensures var w := Width(cs, |st.dict|);
              var step := DecodeCode(cs, st, Low(stream, w));
              var rest := Decode(cs, Shr(stream, w), n - w, step.next);
              emitted + (step.text + rest.0) == (emitted + step.text) + rest.0
    {
    }
  }

  lemma OverrunMore(cs: nat, stream: nat, n: nat, st: State, count: nat, emitted: seq<Byte>)
    requires cs <= 11 && Width(cs, |st.dict|) <= n && DecodeCode(cs, st, Low(stream, Width(cs, |st.dict|))).Emit?
    ensures var w := Width(cs, |st.dict|);
            var step := DecodeCode(cs, st, Low(stream, w));
            var o := Behind(emitted, Overruns(cs, stream, n, st, count, TableLimit(cs)));
            if Low(stream, w) == Pow2(cs) then o == Behind(emitted, Overruns(cs, Shr(stream, w), n - w, step.next, 0, TableLimit(cs)))
            else if count + 1 == TableLimit(cs) then o == After(emitted)
            else o == Behind(emitted + step.text, Overruns(cs, Shr(stream, w), n - w, step.next, count + 1, TableLimit(cs)))
  {
    hide DecodeCode, TableLimit, Low, Shr;
    var w := Width(cs, |st.dict|);
    var step := DecodeCode(cs, st, Low(stream, w));
    var o := Overruns(cs, Shr(stream, w), n - w, step.next, count + 1, TableLimit(cs));
    assert emitted + [] == emitted;
    assert o.After? ==> emitted + (step.text + o.text) == (emitted + step.text) + o.text;
  }

  lemma TrackStopped(cs: nat, data: seq<Byte>, emitted: seq<Byte>, e: End, verdict: Verdict)
    requires cs <= 11 && Decode(cs, BytesValue(data), 8 * |data|, Start(cs)) == (emitted, e) && OverrunOf(cs, data) == Never
    requires verdict == (if e.Finished? then Shown else Refused(e))
    ensures Shows(cs, data, verdict, emitted)
  {
    hide Decode, OverrunOf;
  }

  lemma TrackTooMany(cs: nat, data: seq<Byte>, emitted: seq<Byte>)
    requires cs <= 11 && OverrunOf(cs, data) == After(emitted)
    ensures Shows(cs, data, TooMany, emitted)
  {
    hide OverrunOf;
  }

  lemma CodeUsedMeans(cs: nat, st: State, code: nat, verdict: Verdict, before: seq<Byte>, after: seq<Byte>, codes: seq<Entry>, avail: nat, codesize: nat)
    requires CodeUsed(cs, st, code, verdict, before, after, codes, avail, codesize) && code != Pow2(cs) + 1
    ensures verdict.More? ==> DecodeCode(cs, st, code).Emit? && after == before + DecodeCode(cs, st, code).text
    ensures verdict.More? ==> Sync(cs, codes, avail, code, false, codesize, DecodeCode(cs, st, code).next)
    ensures verdict.Refused? ==> DecodeCode(cs, st, code) == Stop(verdict.end) && after == before && !verdict.end.Finished?
    ensures verdict.TooMany? ==> DecodeCode(cs, st, code).Emit? && after == before
    ensures !verdict.Shown? && !verdict.BadCodeSize?
  {
  }

  /** The verdict and the symbols are those of the textbook decoder on `data`; unless it comes to a code for which
      the table has no room: then the verdict says so, and the symbols are those before that code. */
  ghost predicate Shows(cs: nat, data: seq<Byte>, verdict: Verdict, symbols: seq<Byte>)
    requires cs <= 11
  {
    var (text, end) := Decode(cs, BytesValue(data), 8 * |data|, Start(cs));
    match OverrunOf(cs, data)
    case Never => symbols == text && verdict == if end.Finished? then Shown else Refused(end)
    case After(part) => symbols == part && verdict == TooMany
  }

  /** The bytes of a frame that GIF89a allows and the source refuses: a clear code, and zeros. */
  lemma RefusedFrame(cs: nat, k: nat, verdict: Verdict, symbols: seq<Byte>)
    requires 2 <= cs <= 11 && k >= 12290
    requires Shows(cs, [Pow2(cs) % 256, Pow2(cs) / 256 % 256] + Zeros(k), verdict, symbols)
    ensures verdict == TooMany && symbols == Zeros(TableLimit(cs) - 1)
    ensures Decode(cs, BytesValue([Pow2(cs) % 256, Pow2(cs) / 256 % 256] + Zeros(k)), 8 * (k + 2), Start(cs)).1 == Finished
  {
    hide Decode, Overruns, TableLimit, Pow2, Zeros;
    var data := [Pow2(cs) % 256, Pow2(cs) / 256 % 256] + Zeros(k);
    ClearValue(cs, k);
    DeferredClear(cs, 8 * |data|);
  }

  lemma ClearValue(cs: nat, k: nat)
    requires cs <= 11
    ensures BytesValue([Pow2(cs) % 256, Pow2(cs) / 256 % 256] + Zeros(k)) == Pow2(cs)
  {
    hide Pow2, BytesValue, Zeros;
    Pow2Mono(cs, 11);
    Pow2Values();
    TwoBytes(Pow2(cs), k);
  }

  lemma TwoBytes(p: nat, k: nat)
    requires p < 0x1_0000
    ensures BytesValue([p % 256, p / 256 % 256] + Zeros(k)) == p
  {
    hide Zeros;
    var a, b := p % 256, p / 256 % 256;
    var data := [a, b] + Zeros(k);
    assert data[1..] == [b] + Zeros(k) && ([b] + Zeros(k))[1..] == Zeros(k);
    ValueZeros(k);
    assert BytesValue([b] + Zeros(k)) == b;
  }

  lemma {:induction false} ValueZeros(k: nat)
    ensures BytesValue(Zeros(k)) == 0
  {
    if k > 0 {
      assert Zeros(k)[1..] == Zeros(k - 1);
      ValueZeros(k - 1);
    }
  }

  /** What one code did, against the textbook decoder. */
  ghost predicate CodeUsed(cs: nat, st: State, code: nat, verdict: Verdict, before: seq<Byte>, after: seq<Byte>, codes: seq<Entry>, avail: nat, codesize: nat) {
    match verdict
    case More =>
      && DecodeCode(cs, st, code).Emit? && after == before + DecodeCode(cs, st, code).text
      && Sync(cs, codes, avail, code, false, codesize, DecodeCode(cs, st, code).next)
    case Refused(e) => DecodeCode(cs, st, code) == Stop(e) && after == before
    case TooMany => DecodeCode(cs, st, code).Emit? && after == before
    case Shown => false
    case BadCodeSize => false
  }

  /** How decoding a frame ends: More is not yet. */
  datatype Verdict = More | Shown | Refused(end: End) | TooMany | BadCodeSize

  /** The next pixel to fill is one of the frame that was not filled before. */
  lemma Unvisited(f: Frame, visited: seq<nat>, rest: seq<nat>)
    requires f.Ok() && visited + rest == AllVisits(f) && rest != []
    ensures rest[0] !in visited && Inside(f, rest[0])
  {
    hide AllVisits, Inside;
    EveryPixelOnce(f);
    var all, n := visited + rest, |visited|;
    assert all[n] == rest[0] && rest[0] in all;
    forall i | 0 <= i < n ensures visited[i] != rest[0] { assert all[i] == visited[i]; }
  }

  lemma NothingLeft(f: Frame)
    ensures Remaining(f, [], 0) == []
  {
  }

  lemma StartLeft(f: Frame)
    requires f.Ok()
    ensures f.w == 0 ==> AllVisits(f) == []
    ensures RowOrder(f.h, f.interlaced) == if f.interlaced then Left(0, 8, 3, f.h) else Left(0, 1, 0, f.h)
    ensures f.h > 0 ==> RowOrder(f.h, f.interlaced) != [] && RowOrder(f.h, f.interlaced)[0] == 0
    ensures f.h == 0 ==> RowOrder(f.h, f.interlaced) == []
    ensures [] + Remaining(f, RowOrder(f.h, f.interlaced), 0) == AllVisits(f)
  {
    LeftAtStart(f.h, f.interlaced);
    if f.w == 0 { NoColumns(f, RowOrder(f.h, f.interlaced)); }
  }
}
