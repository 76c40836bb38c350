/** Which rows take part in which: filter supports, ring size and sample ranges of the image resizer, over the reals. */
module ResizeWindow {

  datatype Filter = Box | Triangle | CubicBSpline | CatmullRom | Mitchell

  /** Half the width of the filter kernel. */
  function Support(f: Filter, s: real): real {
    match f
    case Box => 0.5 + s / 2.0
    case Triangle => 1.0
    case _ => 2.0
  }

  lemma SupportBound(f: Filter, s: real)
    requires 0.0 < s <= 1.0
    ensures Support(f, s) >= 0.5 + s / 2.0
  {
  }

  function Ceil(x: real): int {
    -(-x).Floor
  }

  /** The most rows one row can reach. */
  function FilterWidth(f: Filter, scale: real): int
    requires scale > 0.0
  {
    if scale > 1.0 then Ceil(Support(f, 1.0 / scale) * 2.0) else Ceil(Support(f, scale) * 2.0 / scale)
  }

  function NumEntries(f: Filter, scale: real): (n: nat)
    requires scale > 0.0
  {
    FilterWidthPositive(f, scale);
    FilterWidth(f, scale) + 1
  }

  lemma Quotient(a: real, b: real, s: real)
    requires a <= b && s > 0.0
    ensures a / s <= b / s
  {
  }

  lemma FilterWidthPositive(f: Filter, scale: real)
    requires scale > 0.0
    ensures FilterWidth(f, scale) >= 1
  {
    if scale > 1.0 {
      Quotient(0.0, 1.0, scale);
      Quotient(1.0, scale, scale);
      assert Support(f, 1.0 / scale) > 0.0;
    } else {
      Quotient(0.0, Support(f, scale) * 2.0, scale);
      assert Support(f, scale) * 2.0 / scale > 0.0;
    }
  }

  datatype Window = Window(first: int, last: int)

  /** The rows whose centres lie within `reach` of `center`. */
  function Around(center: real, reach: real): Window {
    Window((center - reach + 0.5).Floor, (center + reach - 0.5).Floor)
  }

  lemma AroundIff(center: real, reach: real, k: int)
    ensures Around(center, reach).first <= k <= Around(center, reach).last <==> center - reach < k as real + 0.5 <= center + reach
  {
  }

  /** As the ranges differ only in how they compute their bounds. */
  lemma AroundIs(center: real, reach: real)
    requires reach >= 0.5
    ensures Around(center, reach).first <= Around(center, reach).last
    ensures Around(center, reach).last - Around(center, reach).first + 1 <= Ceil(reach * 2.0)
  {
  }

  lemma AroundMonotone(center: real, next: real, reach: real)
    requires center <= next
    ensures Around(center, reach).first <= Around(next, reach).first && Around(center, reach).last <= Around(next, reach).last
  {
  }

  lemma AroundTouches(center: real, next: real, reach: real)
    requires next - center <= 2.0 * reach
    ensures Around(next, reach).first <= Around(center, reach).last + 1
  {
  }

  // ----- enlarging

  /** `stbir__calculate_sample_range_upsample`: the input rows that reach output row `n`. */
  function UpWindow(n: int, f: Filter, scale: real, shift: real): Window
    requires scale > 1.0
  {
    var radius := Support(f, 1.0 / scale) * scale;
    var center := n as real + 0.5;
    Window(((center - radius + shift) / scale + 0.5).Floor, ((center + radius + shift) / scale - 0.5).Floor)
  }

  lemma UpWindowAround(n: int, f: Filter, scale: real, shift: real)
    requires scale > 1.0
    ensures UpWindow(n, f, scale, shift) == Around((n as real + 0.5 + shift) / scale, Support(f, 1.0 / scale))
  {
    var c, h := n as real + 0.5, Support(f, 1.0 / scale);
    Cancel(c + shift, h, scale);
    assert c - h * scale + shift == c + shift - h * scale && c + h * scale + shift == c + shift + h * scale;
  }

  lemma Cancel(c: real, h: real, s: real)
    requires s > 0.0
    ensures (c - h * s) / s == c / s - h && (c + h * s) / s == c / s + h
  {
    assert (h * s) / s == h;
  }

  /** The window of an output row has exactly the input rows whose centres lie within the support of the filter around the centre
      of the output row, put in the place it has in the input. */
  lemma UpWindowIff(n: int, f: Filter, scale: real, shift: real, k: int)
    requires scale > 1.0
    ensures var w, c, s := UpWindow(n, f, scale, shift), (n as real + 0.5 + shift) / scale, Support(f, 1.0 / scale);
            w.first <= k <= w.last <==> c - s < k as real + 0.5 <= c + s
  {
    hide UpWindow, Around, Support;
    UpWindowAround(n, f, scale, shift);
    AroundIff((n as real + 0.5 + shift) / scale, Support(f, 1.0 / scale), k);
  }

  /** Windows are not empty, fit in the ring and never go back. */
  lemma UpWindowOk(n: int, f: Filter, scale: real, shift: real)
    requires scale > 1.0
    ensures var w := UpWindow(n, f, scale, shift);
            w.first <= w.last && w.last - w.first + 1 < NumEntries(f, scale)
    ensures UpWindow(n, f, scale, shift).first <= UpWindow(n + 1, f, scale, shift).first
    ensures UpWindow(n, f, scale, shift).last <= UpWindow(n + 1, f, scale, shift).last
  {
    hide UpWindow, Around;
    Quotient(0.0, 1.0, scale);
    Quotient(1.0, scale, scale);
    UpWindowAround(n, f, scale, shift);
    UpWindowAround(n + 1, f, scale, shift);
    Quotient(n as real + 0.5 + shift, (n + 1) as real + 0.5 + shift, scale);
    AroundIs((n as real + 0.5 + shift) / scale, Support(f, 1.0 / scale));
    AroundMonotone((n as real + 0.5 + shift) / scale, ((n + 1) as real + 0.5 + shift) / scale, Support(f, 1.0 / scale));
  }

  // ----- shrinking

  /** `stbir__calculate_sample_range_downsample`: the output rows that input row `n` reaches. */
  function DownWindow(n: int, f: Filter, scale: real, shift: real): Window
    requires 0.0 < scale <= 1.0
  {
    var radius := Support(f, scale) / scale;
    var center := n as real + 0.5;
    Window(((center - radius) * scale - shift + 0.5).Floor, ((center + radius) * scale - shift - 0.5).Floor)
  }

  function DownCenter(n: int, scale: real, shift: real): real {
    (n as real + 0.5) * scale - shift
  }

  lemma DownWindowAround(n: int, f: Filter, scale: real, shift: real)
    requires 0.0 < scale <= 1.0
    ensures DownWindow(n, f, scale, shift) == Around(DownCenter(n, scale, shift), Support(f, scale))
  {
    var c, h := n as real + 0.5, Support(f, scale);
    assert (h / scale) * scale == h;
    assert (c - h / scale) * scale == c * scale - h && (c + h / scale) * scale == c * scale + h;
  }

  /** The window of an input row has exactly the output rows whose centres lie within the support of the filter around the centre
      of the input row, put in the place it has in the output. */
  lemma DownWindowIff(n: int, f: Filter, scale: real, shift: real, k: int)
    requires 0.0 < scale <= 1.0
    ensures var w, c, s := DownWindow(n, f, scale, shift), (n as real + 0.5) * scale - shift, Support(f, scale);
            w.first <= k <= w.last <==> c - s < k as real + 0.5 <= c + s
  {
    hide DownWindow, Around, Support;
    DownWindowAround(n, f, scale, shift);
    AroundIff(DownCenter(n, scale, shift), Support(f, scale), k);
  }

  lemma NextCenter(n: int, scale: real, shift: real)
    ensures DownCenter(n + 1, scale, shift) == DownCenter(n, scale, shift) + scale
  {
    assert (n + 1) as real == n as real + 1.0;
  }

  lemma DownEntries(f: Filter, scale: real)
    requires 0.0 < scale <= 1.0
    ensures Ceil(Support(f, scale) * 2.0) < NumEntries(f, scale)
  {
    SupportBound(f, scale);
    Wider(Support(f, scale) * 2.0, scale);
  }

  /** Windows are not empty, fit in the ring, never go back and leave no row between them out. */
  lemma DownWindowOk(n: int, f: Filter, scale: real, shift: real)
    requires 0.0 < scale <= 1.0
    ensures var w := DownWindow(n, f, scale, shift);
            w.first <= w.last && w.last - w.first + 1 < NumEntries(f, scale)
    ensures DownWindow(n, f, scale, shift).first <= DownWindow(n + 1, f, scale, shift).first <= DownWindow(n, f, scale, shift).last + 1
    ensures DownWindow(n, f, scale, shift).last <= DownWindow(n + 1, f, scale, shift).last
  {
    hide DownWindow, Around, Support, Ceil, NumEntries, DownCenter;
    SupportBound(f, scale);
    DownWindowAround(n, f, scale, shift);
    DownWindowAround(n + 1, f, scale, shift);
    var c, d, h := DownCenter(n, scale, shift), DownCenter(n + 1, scale, shift), Support(f, scale);
    NextCenter(n, scale, shift);
    AroundIs(c, h);
    AroundMonotone(c, d, h);
    AroundTouches(c, d, h);
    DownEntries(f, scale);
  }

  lemma Wider(x: real, s: real)
    requires x >= 0.0 && 0.0 < s <= 1.0
    ensures Ceil(x) <= Ceil(x / s)
  {
    var q := x / s;
    assert q * s == x && q >= 0.0;
    assert q - x == q * (1.0 - s) && q * (1.0 - s) >= 0.0;
  }

  /** The scale and shift of `stbir__calculate_transform` for the part of the input from `t0` to `t1`. */
  function Scale(input_h: nat, output_h: nat, t0: real, t1: real): real
    requires input_h > 0 && t0 < t1
  {
    (output_h as real / input_h as real) / (t1 - t0)
  }

  function Shift(output_h: nat, t0: real, t1: real): real
    requires t0 < t1
  {
    t0 * output_h as real / (t1 - t0)
  }

  function Margin(f: Filter, scale: real): int
    requires scale > 0.0
  {
    FilterWidth(f, scale) / 2
  }

  /** From the first to the last input row, margins included, every output row is reached. */
  lemma DownCovers(input_h: nat, output_h: nat, t0: real, t1: real, f: Filter)
    requires input_h > 0 && output_h > 0 && 0.0 <= t0 < t1 <= 1.0 && 0.0 < Scale(input_h, output_h, t0, t1) <= 1.0
    ensures var s, h := Scale(input_h, output_h, t0, t1), Shift(output_h, t0, t1);
            && DownWindow(-Margin(f, s), f, s, h).first <= 0
            && DownWindow(input_h + Margin(f, s) - 1, f, s, h).last >= output_h - 1
  {
    hide DownWindow, Support, Scale, Shift, FilterWidth, DownCenter;
    var s, h, m := Scale(input_h, output_h, t0, t1), Shift(output_h, t0, t1), Margin(f, Scale(input_h, output_h, t0, t1));
    FilterWidthPositive(f, s);
    SupportBound(f, s);
    DownWindowAround(-m, f, s, h);
    DownWindowAround(input_h + m - 1, f, s, h);
    Ends(input_h, output_h, t0, t1);
    EndCenters(input_h, m, s, h);
  }

  lemma EndCenters(input_h: nat, m: int, s: real, h: real)
    requires m >= 0 && s > 0.0
    ensures DownCenter(-m, s, h) <= 0.5 * s - h
    ensures DownCenter(input_h + m - 1, s, h) >= input_h as real * s - 0.5 * s - h
  {
    var r := m as real;
    assert r * s >= 0.0;
    assert (-m) as real == -r && (-r + 0.5) * s == 0.5 * s - r * s;
    var i := input_h as real;
    assert (input_h + m - 1) as real + 0.5 == i + r - 0.5 && (i + r - 0.5) * s == i * s + r * s - 0.5 * s;
  }

  lemma Ends(input_h: nat, output_h: nat, t0: real, t1: real)
    requires input_h > 0 && 0.0 <= t0 < t1 <= 1.0
    ensures Shift(output_h, t0, t1) >= 0.0
    ensures input_h as real * Scale(input_h, output_h, t0, t1) - Shift(output_h, t0, t1) >= output_h as real
  {
    var i, o, d := input_h as real, output_h as real, t1 - t0;
    assert t0 * o >= 0.0;
    Quotient(0.0, t0 * o, d);
    Undo(o, i, d);
    Beyond(o, t0, t1);
  }

  lemma Undo(o: real, i: real, d: real)
    requires i > 0.0 && d > 0.0
    ensures i * ((o / i) / d) == o / d
  {
    assert (o / i) * i == o;
    Swap(o / i, i, d);
  }

  lemma Beyond(o: real, t0: real, t1: real)
    requires o >= 0.0 && t0 < t1 <= 1.0
    ensures o / (t1 - t0) - t0 * o / (t1 - t0) >= o
  {
    var d := t1 - t0;
    assert o / d - t0 * o / d == (o - t0 * o) / d;
    assert o * d == o * t1 - o * t0;
    assert o * t1 <= o;
    Quotient(o * d, o - t0 * o, d);
    assert o * d / d == o;
  }

  lemma Swap(x: real, i: real, d: real)
    requires d > 0.0
    ensures i * (x / d) == (x * i) / d
  {
  }
}
