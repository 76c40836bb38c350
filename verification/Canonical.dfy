/** Canonical Huffman codes, section 3.2.2 of RFC 1951.

    An alphabet is given by the sequence `ls` of its code lengths, 0 meaning that the
    symbol is not used.  A code matches a stream when it is a prefix of it.
  */
module Canonical {
  import opened Bits

  const MAX_BITS := 15

  predicate Lengths(ls: seq<nat>) {
    forall i | 0 <= i < |ls| :: ls[i] <= MAX_BITS
  }

  predicate Bounded(ls: seq<nat>) {
    forall i | 0 <= i < |ls| :: ls[i] <= 16
  }

  /** How many of the first `n` symbols have length `l`. */
  function Count(ls: seq<nat>, n: nat, l: nat): nat
    requires n <= |ls|
  {
    if n == 0 then 0 else Count(ls, n - 1, l) + (if ls[n - 1] == l then 1 else 0)
  }

  /** `bl_count[l]` of the RFC, with `bl_count[0] = 0`. */
  function Total(ls: seq<nat>, l: nat): nat {
    if l == 0 then 0 else Count(ls, |ls|, l)
  }

  /** `next_code[l]` of the RFC: the smallest code of length `l`. */
  function First(ls: seq<nat>, l: nat): nat {
    if l <= 1 then 0 else 2 * (First(ls, l - 1) + Total(ls, l - 1))
  }

  /** One more than the largest code of length `l`. */
  function Past(ls: seq<nat>, l: nat): nat {
    First(ls, l) + Total(ls, l)
  }

  /** The code of symbol `i`: consecutive within a length, in symbol order. */
  function Code(ls: seq<nat>, i: nat): nat
    requires i < |ls|
  {
    First(ls, ls[i]) + Count(ls, i, ls[i])
  }

  predicate Matches(ls: seq<nat>, i: nat, stream: nat)
    requires i < |ls|
  {
    ls[i] > 0 && Top(stream, ls[i]) == Code(ls, i)
  }

  /** The codes of every length fit in that many bits. */
  ghost predicate Fits(ls: seq<nat>) {
    forall l | 1 <= l <= MAX_BITS :: Past(ls, l) <= Pow2(l)
  }

  /** The Kraft sum of the first `n` symbols, in units of 2^-15. */
  function Kraft(ls: seq<nat>, n: nat): nat
    requires n <= |ls| && Lengths(ls)
  {
    if n == 0 then 0
    else Kraft(ls, n - 1) + (if ls[n - 1] == 0 then 0 else Pow2(MAX_BITS - ls[n - 1]))
  }

  // ----- ranks

  lemma {:induction false} CountMono(ls: seq<nat>, m: nat, n: nat, l: nat)
    requires m <= n <= |ls|
    ensures Count(ls, m, l) <= Count(ls, n, l)
    ensures m < n && ls[m] == l ==> Count(ls, m, l) < Count(ls, n, l)
  {
    if m < n { CountMono(ls, m, n - 1, l); }
  }

  lemma CodeInRange(ls: seq<nat>, i: nat)
    requires i < |ls| && ls[i] > 0
    ensures First(ls, ls[i]) <= Code(ls, i) < Past(ls, ls[i])
  {
    CountMono(ls, i, |ls|, ls[i]);
  }

  /** Among symbols of one length, codes are different. */
  lemma CodeInjective(ls: seq<nat>, i: nat, j: nat)
    requires i < |ls| && j < |ls| && ls[i] == ls[j] && Code(ls, i) == Code(ls, j)
    ensures i == j
  {
    if i < j { CountMono(ls, i, j, ls[i]); }
    if j < i { CountMono(ls, j, i, ls[i]); }
  }

  /** The symbol of length `l` that has `r` symbols of that length before it. */
  function Nth(ls: seq<nat>, n: nat, l: nat, r: nat): (i: nat)
    requires n <= |ls| && r < Count(ls, n, l)
    ensures i < n && ls[i] == l && Count(ls, i, l) == r
  {
    if ls[n - 1] == l && Count(ls, n - 1, l) == r then n - 1 else Nth(ls, n - 1, l, r)
  }

  // ----- every code is an interval of 16-bit words

  /** The end of the words taken by codes of length at most `l`: the preshifted `maxcode[l]`. */
  function Edge(ls: seq<nat>, l: nat): nat
    requires l <= 16
  {
    if l == 0 then 0 else Shl(Past(ls, l), 16 - l)
  }

  lemma FirstEdge(ls: seq<nat>, l: nat)
    requires 1 <= l <= 16
    ensures Shl(First(ls, l), 16 - l) == Edge(ls, l - 1)
  {
    if l > 1 {
      var p, f := Pow2(16 - l), Past(ls, l - 1);
      assert Edge(ls, l - 1) == f * Pow2(17 - l) == f * (2 * p);
      Twofold(f, p);
    }
  }

  lemma {:induction false} EdgeMono(ls: seq<nat>, l: nat, m: nat)
    requires l <= m <= 16
    ensures Edge(ls, l) <= Edge(ls, m)
  {
    if l < m {
      EdgeMono(ls, l, m - 1);
      FirstEdge(ls, m);
      Scale(First(ls, m), Past(ls, m), Pow2(16 - m));
    }
  }

  /** A stream a code matches lies between the edges of the code's length. */
  lemma MatchInterval(ls: seq<nat>, i: nat, stream: nat)
    requires i < |ls| && ls[i] <= 16 && Matches(ls, i, stream)
    ensures Edge(ls, ls[i] - 1) <= Top(stream, 16) < Edge(ls, ls[i])
  {
    var l := ls[i];
    TopPrefix(stream, l, 16);
    CodeInRange(ls, i);
    FirstEdge(ls, l);
    Scale(First(ls, l), Code(ls, i), Pow2(16 - l));
    Scale(Code(ls, i) + 1, Past(ls, l), Pow2(16 - l));
  }

  /** The codes are prefix-free: at most one symbol matches a stream. */
  lemma PrefixFree(ls: seq<nat>, i: nat, j: nat, stream: nat)
    requires i < |ls| && j < |ls| && Bounded(ls)
    requires Matches(ls, i, stream) && Matches(ls, j, stream)
    ensures i == j
  {
    MatchInterval(ls, i, stream);
    MatchInterval(ls, j, stream);
    if ls[i] < ls[j] {
      EdgeMono(ls, ls[i], ls[j] - 1);
    } else if ls[j] < ls[i] {
      EdgeMono(ls, ls[j], ls[i] - 1);
    } else {
      CodeInjective(ls, i, j);
    }
  }

  /** A stream between the edges of length `l` starts with a code of that length. */
  lemma IntervalMatch(ls: seq<nat>, l: nat, stream: nat) returns (i: nat)
    requires 1 <= l <= 16
    requires Edge(ls, l - 1) <= Top(stream, 16) < Edge(ls, l)
    ensures First(ls, l) <= Top(stream, l) < Past(ls, l)
    ensures i < |ls| && ls[i] == l && Matches(ls, i, stream)
    ensures Count(ls, i, l) == Top(stream, l) - First(ls, l)
  {
    TopPrefix(stream, l, 16);
    FirstEdge(ls, l);
    var t, p := Top(stream, l), Pow2(16 - l);
    if t < First(ls, l) { Scale(t + 1, First(ls, l), p); }
    if Past(ls, l) <= t { Scale(Past(ls, l), t, p); }
    i := Nth(ls, |ls|, l, t - First(ls, l));
  }

  /** Below the edge of length `l` some code of at most that length matches. */
  lemma {:induction false} BelowEdge(ls: seq<nat>, l: nat, stream: nat) returns (i: nat)
    requires l <= 16 && Top(stream, 16) < Edge(ls, l)
    ensures i < |ls| && ls[i] <= l && Matches(ls, i, stream)
  {
    if Top(stream, 16) < Edge(ls, l - 1) {
      i := BelowEdge(ls, l - 1, stream);
    } else {
      i := IntervalMatch(ls, l, stream);
    }
  }

  /** Exactly the words below the last edge start with a code: the codes leave nothing
      uncovered there, and cover nothing above. */
  lemma MatchIff(ls: seq<nat>, m: nat, stream: nat)
    requires m <= 16 && forall i | 0 <= i < |ls| :: ls[i] <= m
    ensures Top(stream, 16) < Edge(ls, m) <==> exists i: nat :: i < |ls| && Matches(ls, i, stream)
  {
    if Top(stream, 16) < Edge(ls, m) {
      var i := BelowEdge(ls, m, stream);
    }
    forall i: nat | i < |ls| && Matches(ls, i, stream)
      ensures Top(stream, 16) < Edge(ls, m)
    {
      MatchInterval(ls, i, stream);
      EdgeMono(ls, ls[i], m);
    }
  }

  /** A code of a legal alphabet is written in its own length, and read back from any stream
      that begins with it. */
  lemma EncodedMatches(ls: seq<nat>, i: nat, rest: nat)
    requires i < |ls| && ls[i] > 0 && Past(ls, ls[i]) <= Pow2(ls[i])
    ensures Code(ls, i) < Pow2(ls[i])
    ensures Matches(ls, i, Cat(CodeBits(Code(ls, i), ls[i]), rest))
    ensures Shr(Cat(CodeBits(Code(ls, i), ls[i]), rest), ls[i]) == rest
  {
    CodeInRange(ls, i);
    CatCode(Code(ls, i), ls[i], rest);
  }

  // ----- the Kraft inequality

  /** The tests made while codes are assigned: no length has more symbols than words, and the
      codes of every used length fit. */
  ghost predicate Accepted(ls: seq<nat>) {
    && (forall l | 1 <= l <= MAX_BITS :: Total(ls, l) <= Pow2(l))
    && (forall l | 1 <= l <= MAX_BITS && Total(ls, l) > 0 :: Past(ls, l) <= Pow2(l))
  }

  lemma {:induction false} AcceptedPast(ls: seq<nat>, l: nat)
    requires Accepted(ls) && 1 <= l <= MAX_BITS
    ensures Past(ls, l) <= Pow2(l)
  {
    if Total(ls, l) == 0 && l > 1 { AcceptedPast(ls, l - 1); }
  }

  lemma AcceptedIffFits(ls: seq<nat>)
    ensures Accepted(ls) <==> Fits(ls)
  {
    if Accepted(ls) {
      forall l | 1 <= l <= MAX_BITS ensures Past(ls, l) <= Pow2(l) { AcceptedPast(ls, l); }
    }
    if Fits(ls) {
      forall l | 1 <= l <= MAX_BITS ensures Total(ls, l) <= Pow2(l) { assert Past(ls, l) <= Pow2(l); }
    }
  }

  /** The Kraft sum of the symbols of length at most `l` among the first `n`. */
  function KraftUpTo(ls: seq<nat>, n: nat, l: nat): nat
    requires n <= |ls| && l <= MAX_BITS
  {
    if l == 0 then 0 else KraftUpTo(ls, n, l - 1) + Count(ls, n, l) * Pow2(MAX_BITS - l)
  }

  lemma {:induction false} KraftStep(ls: seq<nat>, n: nat, l: nat)
    requires n < |ls| && l <= MAX_BITS
    ensures KraftUpTo(ls, n + 1, l)
         == KraftUpTo(ls, n, l) + (if 1 <= ls[n] <= l then Pow2(MAX_BITS - ls[n]) else 0)
  {
    if l > 0 {
      KraftStep(ls, n, l - 1);
      assert (Count(ls, n, l) + 1) * Pow2(MAX_BITS - l) == Count(ls, n, l) * Pow2(MAX_BITS - l) + Pow2(MAX_BITS - l);
    }
  }

  lemma {:induction false} KraftSum(ls: seq<nat>, n: nat)
    requires n <= |ls| && Lengths(ls)
    ensures Kraft(ls, n) == KraftUpTo(ls, n, MAX_BITS)
  {
    if n == 0 {
      KraftEmpty(ls, MAX_BITS);
    } else {
      KraftSum(ls, n - 1);
      KraftStep(ls, n - 1, MAX_BITS);
    }
  }

  lemma {:induction false} KraftEmpty(ls: seq<nat>, l: nat)
    requires l <= MAX_BITS
    ensures KraftUpTo(ls, 0, l) == 0
  {
    if l > 0 { KraftEmpty(ls, l - 1); }
  }

  lemma {:induction false} KraftPast(ls: seq<nat>, l: nat)
    requires 1 <= l <= MAX_BITS
    ensures KraftUpTo(ls, |ls|, l) == Past(ls, l) * Pow2(MAX_BITS - l)
  {
    var p := Pow2(MAX_BITS - l);
    if l == 1 {
      assert KraftUpTo(ls, |ls|, 0) == 0;
    } else {
      KraftPast(ls, l - 1);
      assert Pow2(MAX_BITS - (l - 1)) == 2 * p;
      var f := Past(ls, l - 1);
      Twofold(f, p);
      assert (2 * f + Total(ls, l)) * p == (2 * f) * p + Total(ls, l) * p;
    }
  }

  lemma {:induction false} KraftUpToMono(ls: seq<nat>, l: nat, m: nat)
    requires l <= m <= MAX_BITS
    ensures KraftUpTo(ls, |ls|, l) <= KraftUpTo(ls, |ls|, m)
  {
    if l < m {
      KraftUpToMono(ls, l, m - 1);
      assert 0 <= Count(ls, |ls|, m) * Pow2(MAX_BITS - m);
    }
  }

  /** The codes of every length fit exactly when the lengths satisfy the Kraft inequality. */
  lemma FitsIffKraft(ls: seq<nat>)
    requires Lengths(ls)
    ensures Fits(ls) <==> Kraft(ls, |ls|) <= Pow2(MAX_BITS)
  {
    KraftSum(ls, |ls|);
    KraftPast(ls, MAX_BITS);
    assert Pow2(0) == 1;
    if Kraft(ls, |ls|) <= Pow2(MAX_BITS) {
      forall l | 1 <= l <= MAX_BITS ensures Past(ls, l) <= Pow2(l) {
        KraftPast(ls, l);
        KraftUpToMono(ls, l, MAX_BITS);
        Pow2Add(l, MAX_BITS - l);
        CancelScale(Past(ls, l), Pow2(l), Pow2(MAX_BITS - l));
      }
    }
  }

  lemma CancelScale(a: nat, b: nat, p: nat)
    requires p > 0 && a * p <= b * p
    ensures a <= b
  {
    if b < a { StrictScale(b, a, p); }
  }
}
