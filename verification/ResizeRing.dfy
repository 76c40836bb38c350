/** The scanline ring buffer of the image resizer. */
module ResizeRing {
  import opened Bits

  /** A row of float samples, over the reals. */
  type Row = seq<real>

  function Zero(length: nat): (r: Row)
    ensures |r| == length && forall i | 0 <= i < length :: r[i] == 0.0
  {
    seq(length, _ => 0.0)
  }

  /** `a + c * b`, sample by sample. */
  function AddScaled(a: Row, b: Row, c: real): (r: Row)
    requires |a| == |b|
    ensures |r| == |a| && forall i | 0 <= i < |a| :: r[i] == a[i] + c * b[i]
  {
    seq(|a|, i requires 0 <= i < |a| => a[i] + b[i] * c)
  }

  /** The slot of scanline `k` when scanline `first` is in slot `begin`. */
  function Slot(begin: int, first: int, k: int, n: nat): (r: int)
    requires n > 0
    ensures 0 <= r < n
  {
    (begin + (k - first)) % n
  }

  lemma SlotIs(begin: int, first: int, k: int, n: nat)
    requires 0 <= begin < n && 0 <= k - first < n
    ensures Slot(begin, first, k, n) == if begin + (k - first) < n then begin + (k - first) else begin + (k - first) - n
  {
    var x := begin + (k - first);
    if x < n { DivUnique(x, n, 0, x); } else { DivUnique(x, n, 1, x - n); }
  }

  /** Different scanlines of a window no wider than the ring have different slots. */
  lemma SlotInjective(begin: int, first: int, k: int, l: int, n: nat)
    requires 0 <= begin < n && 0 <= k - first < n && 0 <= l - first < n && k != l
    ensures Slot(begin, first, k, n) != Slot(begin, first, l, n)
  {
    hide Slot;
    SlotIs(begin, first, k, n);
    SlotIs(begin, first, l, n);
  }

  /** When the oldest scanline goes, the others keep their slots. */
  lemma SlotMoves(begin: int, first: int, k: int, n: nat)
    requires 0 <= begin < n && 1 <= k - first < n
    ensures Slot(Slot(begin, first, first + 1, n), first + 1, k, n) == Slot(begin, first, k, n)
  {
    hide Slot;
    SlotIs(begin, first, first + 1, n);
    SlotIs(begin, first, k, n);
    SlotIs(Slot(begin, first, first + 1, n), first + 1, k, n);
  }

  class Ring {
    const num_entries: nat
    const length: nat
    const entries: array<Row>
    var begin_index: int
    var first_scanline: int
    var last_scanline: int

    constructor (num_entries: nat, length: nat)
      requires num_entries > 0
      ensures Valid() && Empty() && fresh(entries) && this.num_entries == num_entries && this.length == length
    {
      this.num_entries := num_entries;
      this.length := length;
      entries := new Row[num_entries](_ => Zero(length));
      begin_index := -1;
      first_scanline := 0;
      last_scanline := 0;
    }

    ghost predicate Valid()
      reads this, entries
    {
      && num_entries > 0 && entries.Length == num_entries
      && (forall i | 0 <= i < num_entries :: |entries[i]| == length)
      && begin_index < num_entries
      && (begin_index >= 0 ==> 0 <= last_scanline - first_scanline < num_entries)
      && (begin_index < 0 ==> first_scanline == 0 && last_scanline == 0)
    }

    predicate Empty()
      reads this
    {
      begin_index < 0
    }

    /** Scanline `k` is in the ring. */
    predicate Live(k: int)
      reads this
    {
      begin_index >= 0 && first_scanline <= k <= last_scanline
    }

    /** What the ring holds, by scanline. */
    ghost function Contents(): (m: map<int, Row>)
      requires Valid()
      reads this, entries
      ensures forall k :: k in m <==> Live(k)
      ensures forall k | k in m :: |m[k]| == length
    {
      map k: int | first_scanline <= k <= last_scanline && begin_index >= 0 :: entries[Slot(begin_index, first_scanline, k, num_entries)]
    }

    /** `stbir__get_ring_buffer_scanline`. */
    method SlotOf(k: int) returns (i: nat)
      requires Valid() && Live(k)
      ensures i < num_entries && entries[i] == Contents()[k] && i == Slot(begin_index, first_scanline, k, num_entries)
    {
      i := Slot(begin_index, first_scanline, k, num_entries);
    }

    /** Add to the row of scanline `k`. */
    method Accumulate(k: int, row: Row, c: real)
      requires Valid() && Live(k) && |row| == length
      modifies entries
      ensures Valid() && Contents() == old(Contents())[k := AddScaled(old(Contents())[k], row, c)]
    {
      hide AddScaled, Slot;
      ghost var m := Contents();
      Others(k);
      var i := SlotOf(k);
      entries[i] := AddScaled(entries[i], row, c);
      assert Contents().Keys == m.Keys;
    }

    /** No other scanline has the slot of `k`. */
    lemma Others(k: int)
      requires Valid() && Live(k)
      ensures forall l | Live(l) && l != k ::
                Slot(begin_index, first_scanline, l, num_entries) != Slot(begin_index, first_scanline, k, num_entries)
    {
      hide Slot;
      forall l | Live(l) && l != k
        ensures Slot(begin_index, first_scanline, l, num_entries) != Slot(begin_index, first_scanline, k, num_entries)
      {
        SlotInjective(begin_index, first_scanline, l, k, num_entries);
      }
    }

    /** `stbir__add_empty_ring_buffer_entry`: one row more, of zeros, in a slot no live row has. */
    method AddEmpty(n: int) returns (index: nat)
      requires Valid() && (Empty() || (n == last_scanline + 1 && n - first_scanline < num_entries))
      modifies this, entries
      ensures Valid() && !Empty() && Contents() == old(Contents())[n := Zero(length)]
      ensures last_scanline == n && first_scanline == (if old(Empty()) then n else old(first_scanline))
      ensures index < num_entries && index == Slot(begin_index, first_scanline, n, num_entries)
    {
      hide Slot;
      last_scanline := n;
      if begin_index < 0 {
        begin_index := 0;
        index := 0;
        first_scanline := n;
        SlotIs(0, n, n, num_entries);
      } else {
        index := Slot(begin_index, first_scanline, last_scanline, num_entries);
        SlotInjective(begin_index, first_scanline, last_scanline, first_scanline, num_entries);
        SlotIs(begin_index, first_scanline, first_scanline, num_entries);
        assert index != begin_index;
      }
      entries[index] := Zero(length);
      Others(n);
    }

    lemma Moved()
      requires Valid() && !Empty()
      ensures (begin_index + 1) % num_entries == Slot(begin_index, first_scanline, first_scanline + 1, num_entries)
      ensures forall k | first_scanline < k <= last_scanline ::
                Slot(Slot(begin_index, first_scanline, first_scanline + 1, num_entries), first_scanline + 1, k, num_entries)
                == Slot(begin_index, first_scanline, k, num_entries)
    {
      forall k | first_scanline < k <= last_scanline
        ensures Slot(Slot(begin_index, first_scanline, first_scanline + 1, num_entries), first_scanline + 1, k, num_entries)
             == Slot(begin_index, first_scanline, k, num_entries)
      {
        hide Slot;
        SlotMoves(begin_index, first_scanline, k, num_entries);
      }
    }

    /** Drop the oldest row. */
    method Pop()
      requires Valid() && !Empty()
      modifies this
      ensures Valid() && Contents() == old(Contents()) - {old(first_scanline)}
      ensures Empty() <==> old(first_scanline) == old(last_scanline)
      ensures !Empty() ==> first_scanline == old(first_scanline) + 1 && last_scanline == old(last_scanline)
    {
      hide Slot;
      if first_scanline == last_scanline {
        begin_index := -1;
        first_scanline := 0;
        last_scanline := 0;
      } else {
        Moved();
        first_scanline := first_scanline + 1;
        begin_index := (begin_index + 1) % num_entries;
      }
    }
  }
}
