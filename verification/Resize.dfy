/** The two loops of the image resizer that go through the scanline ring buffer. */
module Resize {
  import opened ResizeRing
  import opened ResizeWindow

  /** The rows from `n0` to `n1` and their weights. */
  datatype Contributor = Contributor(n0: int, n1: int, weights: seq<real>) {
    predicate Weighted() {
      |weights| >= n1 - n0 + 1
    }

    /** The weight of row `k`; rows outside have none. */
    function Weight(k: int): real {
      if n0 <= k <= n1 && k - n0 < |weights| then weights[k - n0] else 0.0
    }
  }

  ghost predicate Rows(resample: int -> Row, length: nat) {
    forall k :: |resample(k)| == length
  }

  // ----- enlarging: the ring as a cache

  /** The rows of the contributor before `k`, weighted and added up. */
  ghost function WeightedSum(resample: int -> Row, length: nat, c: Contributor, k: int): (r: Row)
    requires Rows(resample, length) && c.Weighted() && k <= c.n1 + 1
    ensures |r| == length
    decreases k - c.n0
  {
    if k <= c.n0 then Zero(length) else AddScaled(WeightedSum(resample, length, c, k - 1), resample(k - 1), c.weights[k - 1 - c.n0])
  }

  /** The sum of the terms. */
  function Total(terms: seq<real>): real {
    if terms == [] then 0.0 else Total(terms[..|terms| - 1]) + terms[|terms| - 1]
  }

  lemma TotalMore(terms: seq<real>, t: real)
    ensures Total(terms + [t]) == Total(terms) + t
  {
    assert (terms + [t])[..|terms|] == terms;
  }

  /** Sample `i` of every row of the contributor, times the weight of the row. */
  ghost function Weighed(resample: int -> Row, length: nat, c: Contributor, i: nat): (terms: seq<real>)
    requires Rows(resample, length) && c.Weighted() && i < length
    ensures |terms| == if c.n0 <= c.n1 then c.n1 - c.n0 + 1 else 0
    ensures forall k | 0 <= k < |terms| :: terms[k] == c.weights[k] * resample(c.n0 + k)[i]
  {
    seq(if c.n0 <= c.n1 then c.n1 - c.n0 + 1 else 0, k requires 0 <= k <= c.n1 - c.n0 => c.weights[k] * resample(c.n0 + k)[i])
  }

  lemma {:induction false} WeightedIs(resample: int -> Row, length: nat, c: Contributor, k: int, i: nat)
    requires Rows(resample, length) && c.Weighted() && c.n0 <= k <= c.n1 + 1 && i < length
    ensures WeightedSum(resample, length, c, k)[i] == Total(Weighed(resample, length, c, i)[..k - c.n0])
    decreases k - c.n0
  {
    hide Weighed, AddScaled, Zero;
    if k > c.n0 {
      WeightedIs(resample, length, c, k - 1, i);
      var terms, n := Weighed(resample, length, c, i), k - 1 - c.n0;
      TotalMore(terms[..n], terms[n]);
      assert terms[..n + 1] == terms[..n] + [terms[n]];
    }
  }

  /** Every sample of the sum is the sum of the weighed samples. */
  lemma WeightedAll(resample: int -> Row, length: nat, c: Contributor, row: Row)
    requires Rows(resample, length) && c.Weighted() && row == WeightedSum(resample, length, c, c.n1 + 1)
    ensures |row| == length && forall i: nat | i < length :: row[i] == Total(Weighed(resample, length, c, i))
  {
    hide Weighed, Total, AddScaled;
    forall i: nat | i < length ensures row[i] == Total(Weighed(resample, length, c, i)) {
      var terms := Weighed(resample, length, c, i);
      if c.n0 <= c.n1 + 1 {
        WeightedIs(resample, length, c, c.n1 + 1, i);
        assert terms[..|terms|] == terms;
      } else {
        NoTerms(terms);
      }
    }
  }

  lemma NoTerms(terms: seq<real>)
    requires |terms| == 0
    ensures Total(terms) == 0.0
  {
  }

  /** Every row in the ring is the resampled input row of its number. */
  ghost predicate Cached(ring: Ring, resample: int -> Row)
    requires ring.Valid()
    reads ring, ring.entries
  {
    forall k | k in ring.Contents() :: ring.Contents()[k] == resample(k)
  }

  /** `stbir__decode_and_resample_upsample`: one more row. */
  method DecodeAndResample(ring: Ring, resample: int -> Row, n: int)
    requires ring.Valid() && Rows(resample, ring.length) && Cached(ring, resample)
    requires ring.Empty() || (n == ring.last_scanline + 1 && n - ring.first_scanline < ring.num_entries)
    modifies ring, ring.entries
    ensures ring.Valid() && Cached(ring, resample) && !ring.Empty() && ring.last_scanline == n
    ensures ring.first_scanline == if old(ring.Empty()) then n else old(ring.first_scanline)
  {
    hide Slot;
    var index := ring.AddEmpty(n);
    ring.Others(n);
    ghost var m := ring.Contents();
    ring.entries[index] := resample(n);
    assert ring.Contents() == m[n := resample(n)];
  }

  /** Drop the rows before `first`. */
  method Discard(ring: Ring, resample: int -> Row, first: int)
    requires ring.Valid() && Cached(ring, resample)
    modifies ring
    ensures ring.Valid() && Cached(ring, resample)
    ensures !ring.Empty() ==> ring.first_scanline == (if first > old(ring.first_scanline) then first else old(ring.first_scanline))
    ensures !ring.Empty() ==> !old(ring.Empty()) && ring.last_scanline == old(ring.last_scanline)
  {
    hide Ring.Contents;
    if ring.begin_index >= 0 {
      while first > ring.first_scanline
        invariant ring.Valid() && Cached(ring, resample) && !ring.Empty() && ring.last_scanline == old(ring.last_scanline)
        invariant ring.first_scanline == old(ring.first_scanline) || old(ring.first_scanline) <= ring.first_scanline <= first
        decreases first - ring.first_scanline
      {
        ring.Pop();
        if ring.begin_index < 0 {
          break;
        }
      }
    }
  }

  /** Make the ring hold exactly the rows of the window. */
  method LoadWindow(ring: Ring, resample: int -> Row, w: Window)
    requires ring.Valid() && Rows(resample, ring.length) && Cached(ring, resample)
    requires w.first <= w.last && w.last - w.first < ring.num_entries
    requires !ring.Empty() ==> ring.first_scanline <= w.first && ring.last_scanline <= w.last
    modifies ring, ring.entries
    ensures ring.Valid() && Cached(ring, resample) && !ring.Empty()
    ensures ring.first_scanline == w.first && ring.last_scanline == w.last
  {
    hide Rows, Ring.Valid, Cached;
    Discard(ring, resample, w.first);
    if ring.begin_index < 0 {
      DecodeAndResample(ring, resample, w.first);
    }
    while w.last > ring.last_scanline
      invariant ring.Valid() && Cached(ring, resample) && !ring.Empty()
      invariant ring.first_scanline == w.first && ring.last_scanline <= w.last
      decreases w.last - ring.last_scanline
    {
      DecodeAndResample(ring, resample, ring.last_scanline + 1);
    }
  }

  /** `stbir__resample_vertical_upsample`: add up the rows of the contributor. */
  method ResampleVertical(ring: Ring, ghost resample: int -> Row, c: Contributor) returns (encode_buffer: Row)
    requires ring.Valid() && Rows(resample, ring.length) && Cached(ring, resample) && c.Weighted()
    requires forall k | c.n0 <= k <= c.n1 :: ring.Live(k)
    ensures encode_buffer == WeightedSum(resample, ring.length, c, c.n1 + 1)
    ensures |encode_buffer| == ring.length && forall i: nat | i < ring.length :: encode_buffer[i] == Total(Weighed(resample, ring.length, c, i))
  {
    hide AddScaled, Zero, Slot, Total, Weighed;
    encode_buffer := Zero(ring.length);
    var k := c.n0;
    while k <= c.n1
      invariant c.n0 <= k && (k <= c.n1 + 1 || k == c.n0)
      invariant encode_buffer == WeightedSum(resample, ring.length, c, if k <= c.n1 + 1 then k else c.n1 + 1)
    {
      var i := ring.SlotOf(k);
      encode_buffer := AddScaled(encode_buffer, ring.entries[i], c.weights[k - c.n0]);
      k := k + 1;
    }
    WeightedAll(resample, ring.length, c, encode_buffer);
  }

  /** Windows of a ring of `entries` rows: not empty, no wider than the ring, and never going back. */
  ghost predicate Nondecreasing(windows: seq<Window>, entries: nat) {
    && (forall y | 0 <= y < |windows| :: windows[y].first <= windows[y].last && windows[y].last - windows[y].first < entries)
    && (forall y, z | 0 <= y <= z < |windows| :: windows[y].first <= windows[z].first && windows[y].last <= windows[z].last)
  }

  /** `stbir__buffer_loop_upsample`, for any windows of that kind: every output row is the weighted sum of the
      resampled input rows, computed as if they were all at hand. */
  method BufferLoopUpsample(ring: Ring, resample: int -> Row, windows: seq<Window>, contributors: seq<Contributor>, output: array<Row>)
    requires ring.Valid() && ring.Empty() && Rows(resample, ring.length) && Nondecreasing(windows, ring.num_entries)
    requires |contributors| == |windows| == output.Length && output != ring.entries
    requires forall y | 0 <= y < |contributors| ::
               contributors[y].Weighted() && contributors[y].n0 >= windows[y].first && contributors[y].n1 <= windows[y].last
    modifies ring, ring.entries, output
    ensures forall y | 0 <= y < |contributors| ::
              output[y] == WeightedSum(resample, ring.length, contributors[y], contributors[y].n1 + 1)
    ensures forall y, i: nat | 0 <= y < |contributors| && i < ring.length ::
              |output[y]| == ring.length && output[y][i] == Total(Weighed(resample, ring.length, contributors[y], i))
  {
    hide Rows, Ring.Contents, Total, Weighed;
    var y := 0;
    while y < output.Length
      invariant 0 <= y <= output.Length && ring.Valid() && Cached(ring, resample)
      invariant if y == 0 then ring.Empty() else
                  !ring.Empty() && ring.first_scanline == windows[y - 1].first && ring.last_scanline == windows[y - 1].last
      invariant forall z | 0 <= z < y :: output[z] == WeightedSum(resample, ring.length, contributors[z], contributors[z].n1 + 1)
    {
      LoadWindow(ring, resample, windows[y]);
      var row := ResampleVertical(ring, resample, contributors[y]);
      output[y] := row;
      y := y + 1;
    }
    forall z | 0 <= z < |contributors|
      ensures |output[z]| == ring.length && forall i: nat | i < ring.length :: output[z][i] == Total(Weighed(resample, ring.length, contributors[z], i))
    {
      WeightedAll(resample, ring.length, contributors[z], output[z]);
    }
  }

  /** The windows of the sampling formula, over the reals, are of that kind for the ring the resizer allocates. */
  lemma RealUpWindows(windows: seq<Window>, f: Filter, scale: real, shift: real)
    requires scale > 1.0 && forall y | 0 <= y < |windows| :: windows[y] == UpWindow(y, f, scale, shift)
    ensures Nondecreasing(windows, NumEntries(f, scale))
  {
    hide UpWindow;
    forall y | 0 <= y < |windows| ensures windows[y].first <= windows[y].last && windows[y].last - windows[y].first < NumEntries(f, scale) {
      UpWindowOk(y, f, scale, shift);
    }
    forall y, z | 0 <= y <= z < |windows| ensures windows[y].first <= windows[z].first && windows[y].last <= windows[z].last {
      UpWindowsMonotone(y, z, f, scale, shift);
    }
  }

  lemma {:induction false} UpWindowsMonotone(y: int, z: int, f: Filter, scale: real, shift: real)
    requires scale > 1.0 && y <= z
    ensures UpWindow(y, f, scale, shift).first <= UpWindow(z, f, scale, shift).first
    ensures UpWindow(y, f, scale, shift).last <= UpWindow(z, f, scale, shift).last
    decreases z - y
  {
    hide UpWindow;
    if y < z {
      UpWindowsMonotone(y, z - 1, f, scale, shift);
      UpWindowOk(z - 1, f, scale, shift);
    }
  }

  // ----- shrinking: the ring as accumulator

  /** The numbers from `a` up to but not including `b`. */
  function Range(a: int, b: int): (r: seq<int>)
    ensures |r| == if a < b then b - a else 0
    ensures forall i | 0 <= i < |r| :: r[i] == a + i
    decreases b - a
  {
    if a >= b then [] else Range(a, b - 1) + [b - 1]
  }

  function Max(a: int, b: int): int {
    if a < b then b else a
  }

  function Min(a: int, b: int): int {
    if a < b then a else b
  }

  /** What to shrink: the input rows from `start` up to `stop`, resampled; the window of output rows each of them
      may reach, the rows it does reach and with what weight; and the number of output rows. */
  datatype Job = Job(resample: int -> Row, windows: int -> Window, contributors: int -> Contributor, start: int, stop: int, height: nat) {

    /** The window of input row `n` is not empty and no wider than the ring. */
    predicate Fits(n: int, entries: nat) {
      windows(n).first <= windows(n).last && windows(n).last - windows(n).first < entries
    }

    /** The contributor lies in the window and in the output. */
    predicate Inside(n: int) {
      contributors(n).Weighted() && contributors(n).n0 >= Max(windows(n).first, 0) && contributors(n).n1 <= Min(windows(n).last, height - 1)
    }

    /** The next window does not go back, and touches or overlaps this one. */
    predicate Adjoins(n: int) {
      windows(n).first <= windows(n + 1).first <= windows(n).last + 1 && windows(n).last <= windows(n + 1).last
    }

    ghost predicate Ok(length: nat, entries: nat) {
      && height > 0 && start < stop && Rows(resample, length)
      && (forall n | start <= n < stop :: Fits(n, entries)) && (forall n | start <= n < stop :: Inside(n))
      && (forall n | start <= n < stop - 1 :: Adjoins(n))
    }

    /** The first output row that is reached. */
    function Lowest(): int {
      Max(windows(start).first, 0)
    }

    /** One more than the last output row that is reached. */
    function Highest(): int {
      Min(height, windows(stop - 1).last + 1)
    }
  }

  /** What output row `o` has received from the input rows before `y`. */
  ghost function Received(job: Job, length: nat, o: int, y: int): (r: Row)
    requires Rows(job.resample, length) && y <= job.stop && forall n | job.start <= n < job.stop :: job.Inside(n)
    ensures |r| == length
    decreases y - job.start
  {
    if y <= job.start then Zero(length) else
    assert job.Inside(y - 1);
    if job.contributors(y - 1).n0 <= o <= job.contributors(y - 1).n1
    then AddScaled(Received(job, length, o, y - 1), job.resample(y - 1), job.contributors(y - 1).weights[o - job.contributors(y - 1).n0])
    else Received(job, length, o, y - 1)
  }

  /** Sample `i` of every input row, times the weight with which it reaches output row `o`, zero if it does not. */
  ghost function Reaching(job: Job, length: nat, o: int, i: nat): (terms: seq<real>)
    requires Rows(job.resample, length) && i < length && job.start <= job.stop
    ensures |terms| == job.stop - job.start
    ensures forall k | 0 <= k < |terms| :: terms[k] == job.contributors(job.start + k).Weight(o) * job.resample(job.start + k)[i]
  {
    seq(job.stop - job.start, k requires 0 <= k < job.stop - job.start => job.contributors(job.start + k).Weight(o) * job.resample(job.start + k)[i])
  }

  lemma {:induction false} ReceivedIs(job: Job, length: nat, o: int, y: int, i: nat)
    requires Rows(job.resample, length) && i < length && job.start <= y <= job.stop && forall n | job.start <= n < job.stop :: job.Inside(n)
    ensures Received(job, length, o, y)[i] == Total(Reaching(job, length, o, i)[..y - job.start])
    decreases y - job.start
  {
    hide Reaching, AddScaled, Zero;
    if y > job.start {
      ReceivedIs(job, length, o, y - 1, i);
      var terms, n := Reaching(job, length, o, i), y - 1 - job.start;
      TotalMore(terms[..n], terms[n]);
      assert terms[..n + 1] == terms[..n] + [terms[n]];
      assert job.start + n == y - 1 && job.Inside(y - 1);
    }
  }

  lemma ReceivedAll(job: Job, length: nat, o: int, row: Row)
    requires Rows(job.resample, length) && job.start <= job.stop && forall n | job.start <= n < job.stop :: job.Inside(n)
    requires row == Received(job, length, o, job.stop)
    ensures |row| == length && forall i: nat | i < length :: row[i] == Total(Reaching(job, length, o, i))
  {
    hide Reaching, Total, AddScaled;
    forall i: nat | i < length ensures row[i] == Total(Reaching(job, length, o, i)) {
      ReceivedIs(job, length, o, job.stop, i);
      var terms := Reaching(job, length, o, i);
      assert terms[..|terms|] == terms;
    }
  }

  /** Encode the oldest row if it is one of the output, and drop it. */
  method EncodeFirst(ring: Ring, output: array<Row>, ghost order: seq<int>) returns (ghost order': seq<int>)
    requires ring.Valid() && !ring.Empty() && output != ring.entries
    modifies ring, output
    ensures ring.Valid() && ring.Contents() == old(ring.Contents()) - {old(ring.first_scanline)}
    ensures ring.Empty() <==> old(ring.first_scanline) == old(ring.last_scanline)
    ensures !ring.Empty() ==> ring.first_scanline == old(ring.first_scanline) + 1 && ring.last_scanline == old(ring.last_scanline)
    ensures forall o | 0 <= o < output.Length ::
              output[o] == if o == old(ring.first_scanline) then old(ring.Contents())[o] else old(output[o])
    ensures order' == if 0 <= old(ring.first_scanline) < output.Length then order + [old(ring.first_scanline)] else order
  {
    hide Slot;
    order' := order;
    if 0 <= ring.first_scanline < output.Length {
      SlotIs(ring.begin_index, ring.first_scanline, ring.first_scanline, ring.num_entries);
      output[ring.first_scanline] := ring.entries[ring.begin_index];
      order' := order + [ring.first_scanline];
    }
    ring.Pop();
  }

  lemma RangeNext(a: int, b: int)
    ensures a <= b ==> Range(a, b) + [b] == Range(a, b + 1)
  {
  }

  /** `stbir__empty_ring_buffer`: encode and drop the rows before `necessary`. */
  method EmptyRing(ring: Ring, output: array<Row>, necessary: int, ghost order: seq<int>, ghost lo: int) returns (ghost order': seq<int>)
    requires ring.Valid() && output != ring.entries && 0 <= lo
    requires !ring.Empty() ==> lo <= Max(ring.first_scanline, 0) && order == Range(lo, Min(output.Length, Max(ring.first_scanline, 0)))
    modifies ring, output
    ensures ring.Valid() && (old(ring.Empty()) ==> ring.Empty() && order' == order && output[..] == old(output[..]))
    ensures !old(ring.Empty()) ==>
              && (forall o | 0 <= o < output.Length ::
                    output[o] == if old(ring.first_scanline) <= o < Min(necessary, old(ring.last_scanline) + 1) then old(ring.Contents())[o] else old(output[o]))
              && (ring.Empty() <==> necessary > old(ring.last_scanline))
              && order' == Range(lo, Min(output.Length, Max(0, Max(old(ring.first_scanline), Min(necessary, old(ring.last_scanline) + 1)))))
    ensures !ring.Empty() ==> !old(ring.Empty()) && ring.last_scanline == old(ring.last_scanline) && ring.first_scanline == Max(necessary, old(ring.first_scanline))
    ensures !ring.Empty() ==> forall k | ring.Live(k) :: ring.Contents()[k] == old(ring.Contents())[k]
  {
    hide Ring.Contents, Slot, Range;
    order' := order;
    if ring.begin_index >= 0 {
      while necessary > ring.first_scanline
        invariant ring.Valid() && !ring.Empty() && ring.last_scanline == old(ring.last_scanline)
        invariant old(ring.first_scanline) <= ring.first_scanline <= Max(necessary, old(ring.first_scanline))
        invariant forall k | ring.Live(k) :: ring.Contents()[k] == old(ring.Contents())[k]
        invariant forall o | 0 <= o < output.Length ::
                    output[o] == if old(ring.first_scanline) <= o < ring.first_scanline then old(ring.Contents())[o] else old(output[o])
        invariant order' == Range(lo, Min(output.Length, Max(ring.first_scanline, 0)))
        decreases necessary - ring.first_scanline
      {
        RangeNext(lo, ring.first_scanline);
        order' := EncodeFirst(ring, output, order');
        if ring.begin_index < 0 {
          break;
        }
      }
    }
  }

  /** Rows of zeros behind those there are, up to the last one of the window. */
  method AddRows(ring: Ring, w: Window)
    requires ring.Valid() && w.first <= w.last && w.last - w.first < ring.num_entries
    requires !ring.Empty() ==> ring.first_scanline == w.first && ring.last_scanline <= w.last
    modifies ring, ring.entries
    ensures ring.Valid() && !ring.Empty() && ring.first_scanline == w.first && ring.last_scanline == w.last
    ensures forall k | ring.Live(k) :: ring.Contents()[k] == if k in old(ring.Contents()) then old(ring.Contents())[k] else Zero(ring.length)
  {
    hide Ring.Contents, Zero, Slot;
    if ring.begin_index < 0 {
      var _ := ring.AddEmpty(w.first);
    }
    while w.last > ring.last_scanline
      invariant ring.Valid() && !ring.Empty() && ring.first_scanline == w.first && ring.last_scanline <= w.last
      invariant !old(ring.Empty()) ==> ring.last_scanline >= old(ring.last_scanline)
      invariant forall k | ring.Live(k) :: ring.Contents()[k] == if k in old(ring.Contents()) then old(ring.Contents())[k] else Zero(ring.length)
      decreases w.last - ring.last_scanline
    {
      var _ := ring.AddEmpty(ring.last_scanline + 1);
    }
  }

  /** `stbir__resample_vertical_downsample`: add the input row to every output row it reaches. */
  method Spread(ring: Ring, row: Row, c: Contributor)
    requires ring.Valid() && |row| == ring.length && c.Weighted() && forall k | c.n0 <= k <= c.n1 :: ring.Live(k)
    modifies ring.entries
    ensures ring.Valid()
    ensures forall k | ring.Live(k) ::
              ring.Contents()[k] == if c.n0 <= k <= c.n1 then AddScaled(old(ring.Contents())[k], row, c.weights[k - c.n0]) else old(ring.Contents())[k]
  {
    hide Ring.Contents, AddScaled, Slot;
    var k := c.n0;
    while k <= c.n1
      invariant c.n0 <= k && ring.Valid()
      invariant forall l | ring.Live(l) ::
                  ring.Contents()[l] == if c.n0 <= l < k && l <= c.n1 then AddScaled(old(ring.Contents())[l], row, c.weights[l - c.n0]) else old(ring.Contents())[l]
    {
      ring.Accumulate(k, row, c.weights[k - c.n0]);
      k := k + 1;
    }
  }

  /** After the input rows before `y`, the last one of which that reached any output row was `p`: the rows in the
      ring have what they have received so far, those before it are encoded, those behind it have nothing. */
  ghost predicate Progress(ring: Ring, output: array<Row>, job: Job, order: seq<int>, y: int, p: int)
    requires y <= job.stop && ring.Valid() && job.Ok(ring.length, ring.num_entries) && output.Length == job.height
    reads ring, ring.entries, output
  {
    var lo, h := job.Lowest(), job.height;
    && job.start <= y <= job.stop && (y > job.start ==> job.windows(job.start).first <= job.windows(y - 1).first)
    && if ring.Empty() then
         && order == [] && (forall o | 0 <= o < h :: Received(job, ring.length, o, y) == Zero(ring.length))
         && (y > job.start ==> job.windows(y - 1).last < 0 || (lo >= h && job.windows(y - 1).first >= h))
       else
         && job.start <= p < y && ring.first_scanline == job.windows(p).first < h && ring.last_scanline == job.windows(p).last >= 0
         && (p < y - 1 ==> job.windows(y - 1).first >= h && ring.last_scanline >= h - 1 && job.windows(y - 1).last >= h - 1)
         && (forall k | ring.Live(k) && 0 <= k < h :: ring.Contents()[k] == Received(job, ring.length, k, y))
         && (forall o | ring.last_scanline < o < h :: Received(job, ring.length, o, y) == Zero(ring.length))
         && (forall o | lo <= o < ring.first_scanline :: output[o] == Received(job, ring.length, o, y))
         && lo <= Max(ring.first_scanline, 0) && order == Range(lo, Max(ring.first_scanline, 0))
  }

  /** An input row that reaches no output row. */
  lemma Skipped(ring: Ring, output: array<Row>, job: Job, order: seq<int>, y: int, p: int)
    requires y < job.stop && ring.Valid() && job.Ok(ring.length, ring.num_entries) && output.Length == job.height && Progress(ring, output, job, order, y, p)
    requires job.windows(y).last < 0 || job.windows(y).first >= job.height
    ensures Progress(ring, output, job, order, y + 1, p)
  {
    hide Ring.Contents, Zero, AddScaled, Range;
    Consecutive(job, ring.length, ring.num_entries, y);
    var next := y + 1;
    forall o | 0 <= o < job.height ensures Received(job, ring.length, o, next) == Received(job, ring.length, o, y) {
      Unreached(job, ring.length, ring.num_entries, o, y);
    }
  }

  lemma Consecutive(job: Job, length: nat, entries: nat, y: int)
    requires job.Ok(length, entries) && job.start <= y < job.stop
    ensures job.Fits(y, entries) && job.Inside(y) && (y > job.start ==> job.Adjoins(y - 1))
  {
  }

  lemma Unreached(job: Job, length: nat, entries: nat, o: int, y: int)
    requires job.Ok(length, entries) && job.start <= y < job.stop && 0 <= o < job.height && !(job.windows(y).first <= o <= job.windows(y).last)
    ensures Received(job, length, o, y + 1) == Received(job, length, o, y)
  {
    assert job.Inside(y);
  }

  /** What the windows of the last two input rows that reach something say about each other. */
  lemma Follows(ring: Ring, output: array<Row>, job: Job, order: seq<int>, y: int, p: int)
    requires y < job.stop && ring.Valid() && job.Ok(ring.length, ring.num_entries) && output.Length == job.height && Progress(ring, output, job, order, y, p)
    requires job.windows(y).last >= 0 && job.windows(y).first < job.height
    ensures var w := job.windows(y);
            && w.first <= w.last && w.last - w.first < ring.num_entries && job.windows(job.start).first <= w.first
            && (ring.Empty() ==> job.Lowest() == Max(w.first, 0))
            && (!ring.Empty() ==> ring.first_scanline <= w.first <= ring.last_scanline + 1 && ring.last_scanline <= w.last)
  {
    hide Ring.Contents, Zero, Received, Range;
    Consecutive(job, ring.length, ring.num_entries, y);
  }

  /** The ring holds exactly the rows of the window of `y`, with what they have received from the rows before it. */
  ghost predicate Ready(ring: Ring, output: array<Row>, job: Job, order: seq<int>, y: int)
    requires y < job.stop && ring.Valid() && job.Ok(ring.length, ring.num_entries) && output.Length == job.height
    reads ring, ring.entries, output
  {
    var w, lo, h := job.windows(y), job.Lowest(), job.height;
    && !ring.Empty() && ring.first_scanline == w.first && ring.last_scanline == w.last
    && (forall k | ring.Live(k) && 0 <= k < h :: ring.Contents()[k] == Received(job, ring.length, k, y))
    && (forall o | w.last < o < h :: Received(job, ring.length, o, y) == Zero(ring.length))
    && (forall o | lo <= o < w.first && o < h :: output[o] == Received(job, ring.length, o, y))
    && lo <= Max(w.first, 0) && order == Range(lo, Max(w.first, 0))
  }

  method MakeReady(ring: Ring, output: array<Row>, job: Job, y: int, ghost order: seq<int>, ghost p: int) returns (ghost order': seq<int>)
    requires y < job.stop && ring.Valid() && job.Ok(ring.length, ring.num_entries) && output.Length == job.height && Progress(ring, output, job, order, y, p)
    requires job.windows(y).last >= 0 && job.windows(y).first < job.height
    requires output != ring.entries
    modifies ring, ring.entries, output
    ensures ring.Valid() && Ready(ring, output, job, order', y)
  {
    hide Ring.Contents, Ring.Valid, Zero, AddScaled, Range, Slot, Received, Rows;
    Follows(ring, output, job, order, y, p);
    EmptyRange(job.Lowest());
    order' := EmptyRing(ring, output, job.windows(y).first, order, job.Lowest());
    AddRows(ring, job.windows(y));
  }

  lemma EmptyRange(a: int)
    ensures Range(a, a) == []
  {
  }

  /** Adding input row `y` to the rows of its window. */
  method SpreadRow(ring: Ring, ghost output: array<Row>, job: Job, y: int, ghost order: seq<int>)
    requires y < job.stop && ring.Valid() && job.Ok(ring.length, ring.num_entries) && output.Length == job.height && Ready(ring, output, job, order, y)
    requires job.windows(y).last >= 0 && job.windows(y).first < job.height && output != ring.entries && job.start <= y
    requires job.windows(job.start).first <= job.windows(y).first
    modifies ring.entries
    ensures ring.Valid() && Progress(ring, output, job, order, y + 1, y)
  {
    hide Ring.Contents, Zero, AddScaled, Range, Slot;
    Consecutive(job, ring.length, ring.num_entries, y);
    Spread(ring, job.resample(y), job.contributors(y));
    ghost var next := y + 1;
    forall o | 0 <= o < job.height && !(job.windows(y).first <= o <= job.windows(y).last)
      ensures Received(job, ring.length, o, next) == Received(job, ring.length, o, y)
    {
      Unreached(job, ring.length, ring.num_entries, o, y);
    }
    forall k | ring.Live(k) && 0 <= k < job.height ensures ring.Contents()[k] == Received(job, ring.length, k, next) { }
  }

  /** `stbir__buffer_loop_downsample`: the output rows that are reached are encoded exactly once each, in
      increasing order, and with everything they receive. */
  method BufferLoopDownsample(ring: Ring, output: array<Row>, job: Job) returns (ghost order: seq<int>)
    requires ring.Valid() && ring.Empty() && job.Ok(ring.length, ring.num_entries)
    requires output.Length == job.height && output != ring.entries
    modifies ring, ring.entries, output
    ensures order == Range(job.Lowest(), job.Highest())
    ensures forall o | o in order :: output[o] == Received(job, ring.length, o, job.stop)
    ensures forall o, i: nat | o in order && i < ring.length ::
              |output[o]| == ring.length && output[o][i] == Total(Reaching(job, ring.length, o, i))
  {
    hide Ring.Contents, Zero, AddScaled, Range, Slot, Progress, Ready, Total, Reaching;
    order := [];
    ghost var p := job.start;
    var y := job.start;
    Begin(ring, output, job, p);
    while y < job.stop
      invariant job.start <= y <= job.stop && ring.Valid() && Progress(ring, output, job, order, y, p)
    {
      var w := job.windows(y);
      if w.last < 0 || w.first >= job.height {
        Skipped(ring, output, job, order, y, p);
      } else {
        Follows(ring, output, job, order, y, p);
        order := MakeReady(ring, output, job, y, order, p);
        SpreadRow(ring, output, job, y, order);
        p := y;
      }
      y := y + 1;
    }
    order := Finish(ring, output, job, order, p);
    forall o | o in order
      ensures |output[o]| == ring.length && forall i: nat | i < ring.length :: output[o][i] == Total(Reaching(job, ring.length, o, i))
    {
      ReceivedAll(job, ring.length, o, output[o]);
    }
  }

  lemma Begin(ring: Ring, output: array<Row>, job: Job, p: int)
    requires ring.Valid() && ring.Empty() && job.Ok(ring.length, ring.num_entries) && output.Length == job.height
    ensures Progress(ring, output, job, [], job.start, p)
  {
  }

  /** The rows that are still in the ring at the end. */
  method Finish(ring: Ring, output: array<Row>, job: Job, ghost order: seq<int>, ghost p: int) returns (ghost order': seq<int>)
    requires ring.Valid() && job.Ok(ring.length, ring.num_entries) && output.Length == job.height && Progress(ring, output, job, order, job.stop, p)
    requires output != ring.entries
    modifies ring, output
    ensures order' == Range(job.Lowest(), job.Highest())
    ensures forall o | o in order' :: output[o] == Received(job, ring.length, o, job.stop)
  {
    hide Ring.Contents, Zero, AddScaled, Slot, Received;
    Consecutive(job, ring.length, ring.num_entries, job.stop - 1);
    order' := EmptyRing(ring, output, job.height, order, job.Lowest());
  }

  /** All output rows are encoded exactly when the first window starts at or before the first of them and the last
      window ends at or after the last. */
  lemma AllRowsIff(job: Job)
    requires job.height > 0
    ensures Range(job.Lowest(), job.Highest()) == Range(0, job.height)
            <==> job.windows(job.start).first <= 0 && job.windows(job.stop - 1).last >= job.height - 1
  {
    var r := Range(job.Lowest(), job.Highest());
    assert r == Range(0, job.height) ==> |r| == job.height && r[0] == 0;
  }

  /** The windows of the sampling formula, over the reals, are of that kind for the ring the resizer allocates, and
      those for any part of the input reach all output rows: so these are encoded once each, from first to last. */
  lemma RealDownWindows(job: Job, length: nat, input_h: nat, t0: real, t1: real, f: Filter)
    requires job.height > 0 && input_h > 0 && 0.0 <= t0 < t1 <= 1.0 && 0.0 < Scale(input_h, job.height, t0, t1) <= 1.0
    requires var s := Scale(input_h, job.height, t0, t1);
             && job.start == -Margin(f, s) && job.stop == input_h + Margin(f, s)
             && forall n :: job.windows(n) == DownWindow(n, f, s, Shift(job.height, t0, t1))
    requires Rows(job.resample, length) && forall n | job.start <= n < job.stop :: job.Inside(n)
    ensures job.Ok(length, NumEntries(f, Scale(input_h, job.height, t0, t1)))
    ensures Range(job.Lowest(), job.Highest()) == Range(0, job.height)
  {
    hide DownWindow, Scale, Shift, NumEntries, Rows, FilterWidth;
    var s, h := Scale(input_h, job.height, t0, t1), Shift(job.height, t0, t1);
    FilterWidthPositive(f, s);
    forall n ensures job.Fits(n, NumEntries(f, s)) && job.Adjoins(n) {
      DownWindowOk(n, f, s, h);
    }
    DownCovers(input_h, job.height, t0, t1, f);
    AllRowsIff(job);
  }
}
