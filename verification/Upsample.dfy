/** Chroma upsampling of the JPEG decoder, two by two: the scalar loop and its SSE2 form. */
module Upsample {
  import opened Bits

  // ----- what both compute

  /** A sample of the vertically filtered row, times 4. */
  function Vertical(near: seq<Byte>, far: seq<Byte>, i: nat): (t: nat)
    requires i < |near| == |far|
    ensures t <= 1020
  {
    3 * near[i] as int + far[i] as int
  }

  /** The input sample that output sample `z` lies next to, besides that at `z / 2`; at the ends there is none. */
  function Neighbour(z: nat, w: nat): (j: nat)
    requires z < 2 * w
    ensures j < w
  {
    if z % 2 == 0 then if z == 0 then 0 else z / 2 - 1
    else if z / 2 == w - 1 then w - 1 else z / 2 + 1
  }

  /** Three parts of the nearer and one of the farther sample in each direction, rounded. */
  function Upsampled(near: seq<Byte>, far: seq<Byte>, z: nat): (b: Byte)
    requires |near| == |far| && z < 2 * |near|
  {
    (3 * Vertical(near, far, z / 2) + Vertical(near, far, Neighbour(z, |near|)) + 8) / 16
  }

  /** Each output sample is the sum of the four input samples around it, weighted 9, 3, 3 and 1 by nearness, over 16, rounded; at
      the ends of a row the missing neighbour is the sample itself. */
  lemma UpsampledIs(near: seq<Byte>, far: seq<Byte>, z: nat)
    requires |near| == |far| && z < 2 * |near|
    ensures var i := z / 2;
            var j := if z % 2 == 0 then (if i == 0 then i else i - 1) else if i == |near| - 1 then i else i + 1;
            var sum := 9 * near[i] as int + 3 * far[i] as int + 3 * near[j] as int + far[j] as int;
            16 * Upsampled(near, far, z) <= sum + 8 < 16 * Upsampled(near, far, z) + 16
  {
  }

  ghost predicate Done(out: seq<Byte>, near: seq<Byte>, far: seq<Byte>, n: nat) {
    |near| == |far| && n <= 2 * |near| <= |out| && forall z: nat | z < n :: out[z] == Upsampled(near, far, z)
  }

  function Div4(x: nat): Byte {
    x / 4 % 256
  }

  function Div16(x: nat): Byte {
    x / 16 % 256
  }

  /** The values of the scalar code, by position. */
  lemma Cases(near: seq<Byte>, far: seq<Byte>, i: nat)
    requires i < |near| == |far|
    ensures i == 0 ==> Upsampled(near, far, 0) == Div4(Vertical(near, far, 0) + 2)
    ensures i == 0 ==> Upsampled(near, far, 0) == Div16(3 * Vertical(near, far, 0) + Vertical(near, far, 0) + 8)
    ensures i == |near| - 1 ==> Upsampled(near, far, 2 * i + 1) == Div4(Vertical(near, far, i) + 2)
    ensures i > 0 ==> Upsampled(near, far, 2 * i) == Div16(3 * Vertical(near, far, i) + Vertical(near, far, i - 1) + 8)
    ensures i > 0 ==> Upsampled(near, far, 2 * i - 1) == Div16(3 * Vertical(near, far, i - 1) + Vertical(near, far, i) + 8)
  {
    hide Vertical;
    Rounded(Vertical(near, far, i));
    assert (2 * i + 1) / 2 == i && (2 * i) / 2 == i;
    assert i > 0 ==> (2 * i - 1) / 2 == i - 1 && (2 * i - 1) % 2 == 1;
  }

  lemma Rounded(t: nat)
    requires t <= 1020
    ensures Div16(3 * t + t + 8) == Div4(t + 2) == (3 * t + t + 8) / 16
  {
  }

  /** The end of both: the samples from `i` on, one at a time. */
  method Tail(out: array<Byte>, near: seq<Byte>, far: seq<Byte>, start: nat, first: nat)
    requires 1 <= start <= |near| == |far| && 2 * |near| <= out.Length && first == Vertical(near, far, start - 1)
    requires Done(out[..], near, far, 2 * start - 1)
    modifies out
    ensures Done(out[..], near, far, 2 * |near|)
  {
    hide Upsampled, Vertical;
    var w, i, t1 := |near|, start, first;
    while i < w
      invariant 1 <= i <= w && t1 == Vertical(near, far, i - 1) && Done(out[..], near, far, 2 * i - 1)
    {
      var t0 := t1;
      t1 := Vertical(near, far, i);
      Cases(near, far, i);
      out[i * 2 - 1] := Div16(3 * t0 + t1 + 8);
      out[i * 2] := Div16(3 * t1 + t0 + 8);
      i := i + 1;
    }
    Cases(near, far, w - 1);
    out[w * 2 - 1] := Div4(t1 + 2);
  }

  /** `stbi__resample_row_hv_2`. */
  method ResampleRow(out: array<Byte>, near: seq<Byte>, far: seq<Byte>)
    requires 1 <= |near| == |far| && 2 * |near| <= out.Length
    modifies out
    ensures Done(out[..], near, far, 2 * |near|)
  {
    hide Upsampled, Vertical;
    Cases(near, far, 0);
    var t1 := Vertical(near, far, 0);
    if |near| == 1 {
      out[0] := Div4(t1 + 2);
      out[1] := Div4(t1 + 2);
      return;
    }
    out[0] := Div4(t1 + 2);
    Tail(out, near, far, 1, t1);
  }

  // ----- eight lanes of 16 bits

  type Lanes = s: seq<nat> | |s| == 8 && forall k | 0 <= k < 8 :: s[k] < 0x1_0000 witness [0, 0, 0, 0, 0, 0, 0, 0]

  /** Eight bytes, widened. */
  function Load(row: seq<Byte>, i: nat): Lanes
    requires i + 8 <= |row|
  {
    seq(8, k requires 0 <= k < 8 => row[i + k])
  }

  function Plus(a: Lanes, b: Lanes): Lanes {
    seq(8, k requires 0 <= k < 8 => (a[k] + b[k]) % 0x1_0000)
  }

  function Minus(a: Lanes, b: Lanes): Lanes {
    seq(8, k requires 0 <= k < 8 => (a[k] as int - b[k] as int) % 0x1_0000)
  }

  function TimesFour(a: Lanes): Lanes {
    seq(8, k requires 0 <= k < 8 => a[k] * 4 % 0x1_0000)
  }

  function Sixteenth(a: Lanes): Lanes {
    seq(8, k requires 0 <= k < 8 => a[k] / 16)
  }

  function Fill(v: nat): Lanes
    requires v < 0x1_0000
  {
    [v, v, v, v, v, v, v, v]
  }

  /** All lanes one up, and `v` in the first. */
  function PushFirst(a: Lanes, v: nat): Lanes {
    [v % 0x1_0000] + a[..7]
  }

  /** All lanes one down, and `v` in the last. */
  function PushLast(a: Lanes, v: nat): Lanes {
    a[1..] + [v % 0x1_0000]
  }

  /** The lanes `from` to `from + 3` of both, alternating. */
  function Interleave(a: Lanes, b: Lanes, from: nat): Lanes
    requires from <= 4
  {
    [a[from], b[from], a[from + 1], b[from + 1], a[from + 2], b[from + 2], a[from + 3], b[from + 3]]
  }

  /** Lanes as signed words, saturated to bytes. */
  function Pack(a: Lanes, b: Lanes): seq<Byte> {
    seq<Byte>(16, k requires 0 <= k < 16 => Saturate(if k < 8 then a[k] else b[k - 8]))
  }

  function Saturate(v: nat): Byte {
    if v >= 0x8000 then 0 else if v > 255 then 255 else v
  }

  /** The vertical filter: no lane overflows. */
  function Current(near: seq<Byte>, far: seq<Byte>, i: nat): (r: Lanes)
    requires |near| == |far| && i + 8 <= |near|
    ensures forall k: nat | k < 8 :: r[k] == Vertical(near, far, i + k)
  {
    var farw, nearw := Load(far, i), Load(near, i);
    Plus(TimesFour(nearw), Minus(farw, nearw))
  }

  /** One phase of the horizontal filter, unscaled. */
  function Phase(curr: Lanes, other: Lanes): (r: Lanes)
    requires forall k | 0 <= k < 8 :: curr[k] <= 1020 && other[k] <= 1020
    ensures forall k | 0 <= k < 8 :: r[k] == 3 * curr[k] + other[k] + 8
  {
    PhaseLanes(curr, other);
    Plus(Minus(other, curr), Plus(TimesFour(curr), Fill(8)))
  }

  lemma PhaseLanes(curr: Lanes, other: Lanes)
    requires forall k | 0 <= k < 8 :: curr[k] <= 1020 && other[k] <= 1020
    ensures forall k | 0 <= k < 8 :: Plus(Minus(other, curr), Plus(TimesFour(curr), Fill(8)))[k] == 3 * curr[k] + other[k] + 8
  {
    var r := Plus(Minus(other, curr), Plus(TimesFour(curr), Fill(8)));
    forall k | 0 <= k < 8 ensures r[k] == 3 * curr[k] + other[k] + 8 {
      PhaseLane(curr[k], other[k]);
    }
  }

  lemma PhaseLane(c: nat, o: nat)
    requires c <= 1020 && o <= 1020
    ensures ((o - c) % 0x1_0000 + (c * 4 % 0x1_0000 + 8) % 0x1_0000) % 0x1_0000 == 3 * c + o + 8
  {
  }

  /** Even and odd samples alternate; undo the scaling. */
  function Merge(even: Lanes, odd: Lanes): (r: seq<Byte>)
    ensures |r| == 16 && forall m | 0 <= m < 16 :: r[m] == Saturate((if m % 2 == 0 then even[m / 2] else odd[m / 2]) / 16)
  {
    Pack(Sixteenth(Interleave(even, odd, 0)), Sixteenth(Interleave(even, odd, 4)))
  }

  function Even(near: seq<Byte>, far: seq<Byte>, i: nat, t1: nat): (r: Lanes)
    requires |near| == |far| && i + 8 < |near| && t1 <= 1020
  {
    var curr := Current(near, far, i);
    Phase(curr, PushFirst(curr, t1))
  }

  function Odd(near: seq<Byte>, far: seq<Byte>, i: nat): (r: Lanes)
    requires |near| == |far| && i + 8 < |near|
  {
    var curr := Current(near, far, i);
    Phase(curr, PushLast(curr, Vertical(near, far, i + 8)))
  }

  lemma PhaseAt(near: seq<Byte>, far: seq<Byte>, i: nat, t1: nat, k: nat)
    requires |near| == |far| && i + 8 < |near| && t1 <= 1020 && k < 8
    ensures Even(near, far, i, t1)[k] == 3 * Vertical(near, far, i + k) + (if k == 0 then t1 else Vertical(near, far, i + k - 1)) + 8
    ensures Odd(near, far, i)[k] == 3 * Vertical(near, far, i + k) + Vertical(near, far, i + k + 1) + 8
  {
    hide Vertical, Current, Phase;
    var curr := Current(near, far, i);
    assert curr[k] == Vertical(near, far, i + k);
    assert k > 0 ==> PushFirst(curr, t1)[k] == curr[k - 1] == Vertical(near, far, i + (k - 1));
    assert k < 7 ==> PushLast(curr, Vertical(near, far, i + 8))[k] == curr[k + 1] == Vertical(near, far, i + (k + 1));
  }

  /** One block of eight input samples: sixteen output samples. */
  function Block(near: seq<Byte>, far: seq<Byte>, i: nat, t1: nat): (r: seq<Byte>)
    requires |near| == |far| && i + 8 < |near| && t1 <= 1020
    ensures |r| == 16
  {
    Merge(Even(near, far, i, t1), Odd(near, far, i))
  }

  /** The block is the same sixteen samples. */
  lemma BlockIs(near: seq<Byte>, far: seq<Byte>, i: nat, t1: nat, m: nat)
    requires |near| == |far| && i + 8 < |near| && m < 16 && t1 == Vertical(near, far, if i == 0 then 0 else i - 1)
    ensures Block(near, far, i, t1)[m] == Upsampled(near, far, 2 * i + m)
  {
    hide Vertical, Even, Odd, Merge;
    var k := m / 2;
    PhaseAt(near, far, i, t1, k);
    assert (2 * i + m) / 2 == i + k && (2 * i + m) % 2 == m % 2;
    assert m % 2 == 1 ==> Neighbour(2 * i + m, |near|) == i + k + 1;
    assert m % 2 == 0 && i + k > 0 ==> Neighbour(2 * i + m, |near|) == i + k - 1;
  }

  /** Compute and store one block. */
  method StoreBlock(out: array<Byte>, near: seq<Byte>, far: seq<Byte>, i: nat, t1: nat)
    requires Done(out[..], near, far, 2 * i) && i + 8 < |near| && t1 == Vertical(near, far, if i == 0 then 0 else i - 1)
    modifies out
    ensures Done(out[..], near, far, 2 * i + 16)
  {
    hide Upsampled, Vertical, Block;
    var outv := Block(near, far, i, t1);
    ghost var s := out[..];
    forall m | 0 <= m < 16 { out[i * 2 + m] := outv[m]; }
    Stored(s, out[..], near, far, i, t1);
  }

  /** `stbi__resample_row_hv_2_simd`, for SSE2: the same row as the scalar code. */
  method ResampleRowSimd(out: array<Byte>, near: seq<Byte>, far: seq<Byte>)
    requires 1 <= |near| == |far| && 2 * |near| <= out.Length
    modifies out
    ensures Done(out[..], near, far, 2 * |near|)
  {
    hide Upsampled, Vertical, Block;
    Cases(near, far, 0);
    var w, i: nat, t1 := |near|, 0, Vertical(near, far, 0);
    if w == 1 {
      out[0] := Div4(t1 + 2);
      out[1] := Div4(t1 + 2);
      return;
    }
    while i < (w - 1) - (w - 1) % 8
      invariant i % 8 == 0 && i <= (w - 1) - (w - 1) % 8 && t1 == Vertical(near, far, if i == 0 then 0 else i - 1)
      invariant Done(out[..], near, far, 2 * i)
    {
      StoreBlock(out, near, far, i, t1);
      t1 := Vertical(near, far, i + 7);
      i := i + 8;
    }
    var t0 := t1;
    t1 := Vertical(near, far, i);
    Cases(near, far, i);
    out[i * 2] := Div16(3 * t1 + t0 + 8);
    Tail(out, near, far, i + 1, t1);
  }

  lemma Stored(s: seq<Byte>, s': seq<Byte>, near: seq<Byte>, far: seq<Byte>, i: nat, t1: nat)
    requires Done(s, near, far, 2 * i) && |s'| == |s| && i + 8 < |near| && t1 == Vertical(near, far, if i == 0 then 0 else i - 1)
    requires s'[2 * i..2 * i + 16] == Block(near, far, i, t1) && s'[..2 * i] == s[..2 * i]
    ensures Done(s', near, far, 2 * i + 16)
  {
    hide Upsampled, Vertical, Block;
    forall z: nat | z < 2 * i + 16 ensures s'[z] == Upsampled(near, far, z) {
      if z < 2 * i {
        assert s'[z] == s'[..2 * i][z] == s[..2 * i][z];
      } else {
        assert s'[z] == s'[2 * i..2 * i + 16][z - 2 * i];
        BlockIs(near, far, i, t1, z - 2 * i);
      }
    }
  }
}
