/** PNG filtering: section 9 of the PNG specification (second edition), and the decoder's loop that undoes it in place. */
module PngFilter {
  import opened Bits

  type Row = seq<Byte>

  // ----- the filters of the specification

  function Abs(x: int): int {
    if x < 0 then -x else x
  }

  /** The Paeth predictor: whichever of left, above and upper left is nearest to `a + b - c`, in this order. */
  function Paeth(a: int, b: int, c: int): int {
    var p := a + b - c;
    if Abs(p - a) <= Abs(p - b) && Abs(p - a) <= Abs(p - c) then a
    else if Abs(p - b) <= Abs(p - c) then b
    else c
  }

  /** What filter `f` predicts from the bytes to the left, above and upper left. */
  function Predict(f: nat, a: Byte, b: Byte, c: Byte): (r: int) {
    if f == 0 then 0 else if f == 1 then a else if f == 2 then b else if f == 3 then (a + b) / 2 else Paeth(a, b, c)
  }

  function Distance(x: int, y: int): nat {
    if x < y then y - x else x - y
  }

  /** Section 9.2 and 9.4 of the specification: `r` is what filter `f` predicts.  The average is rounded down; the Paeth
      predictor is that neighbour which is nearest to `a + b - c`, and of several the left one first, then the one above. */
  predicate Predicts(f: nat, a: Byte, b: Byte, c: Byte, r: int) {
    if f == 0 then r == 0 else if f == 1 then r == a else if f == 2 then r == b else if f == 3 then 2 * r <= a + b < 2 * r + 2
    else
      var p := a + b - c;
      && f == 4 && r in {a as int, b, c} && (forall x | x in {a as int, b, c} :: Distance(r, p) <= Distance(x, p))
      && (Distance(a, p) == Distance(r, p) ==> r == a)
      && (Distance(b, p) == Distance(r, p) && r != a ==> r == b)
  }

  /** The formulas of the decoder give exactly that. */
  lemma PredictIs(f: nat, a: Byte, b: Byte, c: Byte, r: int)
    requires f <= 4
    ensures Predicts(f, a, b, c, r) <==> r == Predict(f, a, b, c)
    ensures 0 <= Predict(f, a, b, c) < 256
  {
  }

  /** The byte one pixel before position `t`, zero before the first pixel. */
  function Before(row: Row, t: nat, bpp: nat): Byte
    requires t < |row| + bpp
  {
    if t < bpp then 0 else row[t - bpp]
  }

  function Filtered(f: nat, bpp: nat, row: Row, above: Row, n: nat): (r: Row)
    requires n <= |row| == |above| && bpp > 0
    ensures |r| == n
  {
    if n == 0 then []
    else Filtered(f, bpp, row, above, n - 1)
         + [(row[n - 1] - Predict(f, Before(row, n - 1, bpp), above[n - 1], Before(above, n - 1, bpp))) % 256]
  }

  /** Reconstruction: add the prediction from the bytes already reconstructed. */
  function Recon(f: nat, bpp: nat, raw: Row, above: Row, n: nat): (r: Row)
    requires n <= |raw| == |above| && bpp > 0
    ensures |r| == n
  {
    if n == 0 then []
    else
      var done := Recon(f, bpp, raw, above, n - 1);
      done + [(raw[n - 1] + Predict(f, Before(done, n - 1, bpp), above[n - 1], Before(above, n - 1, bpp))) % 256]
  }

  lemma {:induction false} ReconAt(f: nat, bpp: nat, raw: Row, above: Row, n: nat, t: nat)
    requires t < n <= |raw| == |above| && bpp > 0
    ensures var r := Recon(f, bpp, raw, above, n);
            r[t] == (raw[t] + Predict(f, Before(r, t, bpp), above[t], Before(above, t, bpp))) % 256
  {
    hide Predict;
    if t < n - 1 { ReconAt(f, bpp, raw, above, n - 1, t); }
  }

  lemma AddBack(x: Byte, p: int)
    ensures ((x - p) % 256 + p) % 256 == x
  {
  }

  /** Reconstruction undoes filtering, for every filter. */
  lemma {:induction false} ReconFiltered(f: nat, bpp: nat, row: Row, above: Row, n: nat)
    requires n <= |row| == |above| && bpp > 0
    ensures Recon(f, bpp, Filtered(f, bpp, row, above, |row|), above, n) == row[..n]
  {
    hide Predict;
    if n > 0 {
      ReconFiltered(f, bpp, row, above, n - 1);
      FilteredAt(f, bpp, row, above, |row|, n - 1);
      AddBack(row[n - 1], Predict(f, Before(row, n - 1, bpp), above[n - 1], Before(above, n - 1, bpp)));
    }
  }

  lemma {:induction false} FilteredAt(f: nat, bpp: nat, row: Row, above: Row, n: nat, t: nat)
    requires t < n <= |row| == |above| && bpp > 0
    ensures Filtered(f, bpp, row, above, n)[t]
         == (row[t] - Predict(f, Before(row, t, bpp), above[t], Before(above, t, bpp))) % 256
  {
    hide Predict;
    if t < n - 1 { FilteredAt(f, bpp, row, above, n - 1, t); }
  }

  // ----- images

  function Zeros(n: nat): (r: Row)
    ensures |r| == n
  {
    seq(n, _ => 0)
  }

  /** The rows as they are stored: a filter type, then the filtered bytes; above the first row are zeros. */
  function Encode(filters: seq<nat>, bpp: nat, rows: seq<Row>, above: Row): Row
    requires |filters| == |rows| && bpp > 0 && forall j | 0 <= j < |rows| :: |rows[j]| == |above| && filters[j] < 256
  {
    if rows == [] then []
    else [filters[0]] + Filtered(filters[0], bpp, rows[0], above, |above|) + Encode(filters[1..], bpp, rows[1..], rows[0])
  }

  /** `y` rows read from `raw`. */
  function Decoded(raw: Row, bpp: nat, above: Row, y: nat): (rows: seq<Row>)
    requires bpp > 0
    ensures Stored(raw, |above|, y) ==> |rows| == y && forall j | 0 <= j < y :: |rows[j]| == |above|
    decreases y
  {
    if y == 0 || |raw| < |above| + 1 then []
    else
      var row := Recon(raw[0], bpp, raw[1..|above| + 1], above, |above|);
      [row] + Decoded(raw[|above| + 1..], bpp, row, y - 1)
  }

  /** There are `y` rows of `n` bytes. */
  predicate Stored(raw: Row, n: nat, y: nat)
    decreases y
  {
    y == 0 || (|raw| >= n + 1 && Stored(raw[n + 1..], n, y - 1))
  }

  /** ... with filter types from 0 to 4. */
  predicate GoodFilters(raw: Row, n: nat, y: nat)
    requires Stored(raw, n, y)
    decreases y
  {
    y == 0 || (raw[0] <= 4 && GoodFilters(raw[n + 1..], n, y - 1))
  }

  lemma {:induction false} StoredLength(raw: Row, n: nat, y: nat)
    ensures Stored(raw, n, y) <==> |raw| >= (n + 1) * y
    decreases y
  {
    if y > 0 {
      assert (n + 1) * y == (n + 1) * (y - 1) + (n + 1);
      assert (n + 1) * (y - 1) >= 0;
      if |raw| >= n + 1 { StoredLength(raw[n + 1..], n, y - 1); }
    }
  }

  lemma {:induction false} EncodeLength(filters: seq<nat>, bpp: nat, rows: seq<Row>, above: Row)
    requires |filters| == |rows| && bpp > 0 && forall j | 0 <= j < |rows| :: |rows[j]| == |above| && filters[j] < 256
    ensures |Encode(filters, bpp, rows, above)| == (|above| + 1) * |rows|
    decreases rows
  {
    hide Filtered;
    if rows != [] {
      EncodeLength(filters[1..], bpp, rows[1..], rows[0]);
      assert (|above| + 1) * |rows| == (|above| + 1) * (|rows| - 1) + (|above| + 1);
    }
  }

  /** Decoding undoes encoding, for any rows and any choice of filter for each of them. */
  lemma {:induction false} DecodedEncode(filters: seq<nat>, bpp: nat, rows: seq<Row>, above: Row, rest: Row)
    requires |filters| == |rows| && bpp > 0 && forall j | 0 <= j < |rows| :: |rows[j]| == |above| && filters[j] <= 4
    ensures var raw := Encode(filters, bpp, rows, above) + rest;
            Stored(raw, |above|, |rows|) && GoodFilters(raw, |above|, |rows|) && Decoded(raw, bpp, above, |rows|) == rows
    decreases rows
  {
    hide Recon, Filtered;
    if rows != [] {
      var n := |above|;
      var first := Filtered(filters[0], bpp, rows[0], above, n);
      var tail := Encode(filters[1..], bpp, rows[1..], rows[0]) + rest;
      var raw := Encode(filters, bpp, rows, above) + rest;
      assert raw == [filters[0]] + first + tail;
      assert raw[1..n + 1] == first && raw[n + 1..] == tail;
      ReconFiltered(filters[0], bpp, rows[0], above, n);
      assert rows[0][..n] == rows[0];
      DecodedEncode(filters[1..], bpp, rows[1..], rows[0], rest);
    }
  }

  /** Section 9.2: the stored bytes `raw` of a row are its bytes minus the prediction from the bytes one pixel before,
      above, and above and before. */
  ghost predicate RowStored(f: nat, bpp: nat, raw: Row, row: Row, above: Row) {
    && |raw| == |row| == |above|
    && forall t: nat | t < |row| :: ByteStored(f, bpp, raw, row, above, t)
  }

  ghost predicate ByteStored(f: nat, bpp: nat, raw: Row, row: Row, above: Row, t: nat)
    requires t < |raw| == |row| == |above|
  {
    var a, c := if t < bpp then 0 else row[t - bpp], if t < bpp then 0 else above[t - bpp];
    Predicts(f, a, above[t], c, (row[t] as int - raw[t] as int) % 256)
  }

  /** Section 9.1: before each row its filter type; the row above the first is zero. */
  ghost predicate ImageStored(filters: seq<nat>, bpp: nat, raw: Row, rows: seq<Row>, above: Row)
    decreases rows
  {
    && |filters| == |rows| && bpp > 0
    && (rows != [] ==>
          && |raw| >= |above| + 1 && filters[0] <= 4 && raw[0] == filters[0]
          && RowStored(filters[0], bpp, raw[1..|above| + 1], rows[0], above)
          && ImageStored(filters[1..], bpp, raw[|above| + 1..], rows[1..], rows[0]))
  }

  lemma {:induction false} RowBack(f: nat, bpp: nat, raw: Row, row: Row, above: Row, n: nat)
    requires f <= 4 && bpp > 0 && RowStored(f, bpp, raw, row, above) && n <= |row|
    ensures Recon(f, bpp, raw, above, n) == row[..n]
  {
    hide Predict, Predicts;
    if n > 0 {
      RowBack(f, bpp, raw, row, above, n - 1);
      var t := n - 1;
      assert Before(row[..t], t, bpp) == Before(row, t, bpp);
      assert ByteStored(f, bpp, raw, row, above, t);
      PredictIs(f, Before(row, t, bpp), above[t], Before(above, t, bpp), (row[t] as int - raw[t] as int) % 256);
      AddOn(row[t], raw[t]);
    }
  }

  lemma AddOn(x: Byte, y: Byte)
    ensures (y as int + (x as int - y as int) % 256) % 256 == x
  {
  }

  /** An image that is stored as the specification says is what the decoder reads, for any choice of filters. */
  lemma {:induction false} ImageBack(filters: seq<nat>, bpp: nat, raw: Row, rows: seq<Row>, above: Row)
    requires ImageStored(filters, bpp, raw, rows, above)
    ensures Stored(raw, |above|, |rows|) && GoodFilters(raw, |above|, |rows|) && Decoded(raw, bpp, above, |rows|) == rows
    decreases rows
  {
    hide Recon, RowStored;
    if rows != [] {
      var n := |above|;
      RowSizes(filters[0], bpp, raw[1..n + 1], rows[0], above);
      RowBack(filters[0], bpp, raw[1..n + 1], rows[0], above, n);
      assert rows[0][..n] == rows[0];
      ImageBack(filters[1..], bpp, raw[n + 1..], rows[1..], rows[0]);
    }
  }

  /** There are such files for every image and every choice of filters. */
  lemma {:induction false} EncodeStored(filters: seq<nat>, bpp: nat, rows: seq<Row>, above: Row, rest: Row)
    requires |filters| == |rows| && bpp > 0 && forall j | 0 <= j < |rows| :: |rows[j]| == |above| && filters[j] <= 4
    ensures ImageStored(filters, bpp, Encode(filters, bpp, rows, above) + rest, rows, above)
    decreases rows
  {
    hide Filtered, RowStored;
    if rows != [] {
      var n := |above|;
      var first := Filtered(filters[0], bpp, rows[0], above, n);
      var tail := Encode(filters[1..], bpp, rows[1..], rows[0]) + rest;
      var raw := Encode(filters, bpp, rows, above) + rest;
      assert raw == [filters[0]] + first + tail;
      assert raw[1..n + 1] == first && raw[n + 1..] == tail;
      FilteredStored(filters[0], bpp, rows[0], above);
      EncodeStored(filters[1..], bpp, rows[1..], rows[0], rest);
    }
  }

  lemma FilteredStored(f: nat, bpp: nat, row: Row, above: Row)
    requires f <= 4 && bpp > 0 && |row| == |above|
    ensures RowStored(f, bpp, Filtered(f, bpp, row, above, |row|), row, above)
  {
    hide Predict, Predicts, Filtered;
    var raw := Filtered(f, bpp, row, above, |row|);
    forall t: nat | t < |row| ensures ByteStored(f, bpp, raw, row, above, t) {
      var p := Predict(f, Before(row, t, bpp), above[t], Before(above, t, bpp));
      FilteredAt(f, bpp, row, above, |row|, t);
      PredictIs(f, Before(row, t, bpp), above[t], Before(above, t, bpp), p);
      TakeOff(row[t], p);
    }
  }

  lemma TakeOff(x: Byte, p: int)
    requires 0 <= p < 256
    ensures (x as int - (x as int - p) % 256) % 256 == p
  {
    var d := x as int - p;
    assert d % 256 == if d >= 0 then d else d + 256;
    assert x as int - d % 256 == if d >= 0 then p else p - 256;
  }

  lemma RowSizes(f: nat, bpp: nat, raw: Row, row: Row, above: Row)
    requires RowStored(f, bpp, raw, row, above)
    ensures |raw| == |row| == |above|
  {
  }

  // ----- the decoder's cases

  /** The first row has its own cases, which do not look above. */
  function FirstRowFilter(f: nat): nat {
    if f == 2 then 0 else if f == 3 then 5 else if f == 4 then 6 else f
  }

  predicate LooksUp(filter: nat) {
    2 <= filter <= 4
  }

  /** The first pixel, which has nothing to its left. */
  function FirstByte(filter: nat, x: Byte, b: Byte): Byte {
    (x + if filter == 2 then b else if filter == 3 then b / 2 else if filter == 4 then Paeth(0, b, 0) else 0) % 256
  }

  /** All others. */
  function NextByte(filter: nat, x: Byte, a: Byte, b: Byte, c: Byte): Byte {
    (x + if filter == 0 then 0 else if filter == 1 then a else if filter == 2 then b else if filter == 3 then (b + a) / 2
         else if filter == 4 then Paeth(a, b, c) else if filter == 5 then a / 2 else Paeth(a, 0, 0)) % 256
  }

  /** Case `filter` is filter `f`, in the first row with zeros above. */
  ghost predicate CaseFor(filter: nat, f: nat, above: Row) {
    f <= 4 && (filter == f || (filter == FirstRowFilter(f) && above == Zeros(|above|)))
  }

  /** The special cases are the general formulas with zeros for the neighbours that are missing. */
  lemma CasesAgree(filter: nat, f: nat, above: Row, x: Byte, a: Byte, t: nat, bpp: nat)
    requires CaseFor(filter, f, above) && t < |above| && bpp > 0 && (t < bpp ==> a == 0)
    ensures var b, c := if LooksUp(filter) then above[t] else 0, if LooksUp(filter) then Before(above, t, bpp) else 0;
            (x + Predict(f, a, above[t], Before(above, t, bpp))) % 256 == if t < bpp then FirstByte(filter, x, b) else NextByte(filter, x, a, b, c)
  {
  }
}
