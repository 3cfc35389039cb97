/** Length-driven decimation of a coordinate sequence, as done by
    `simplify_coordinates` in download_countries.py. Positions are never
    inspected or computed with, so they are an opaque type parameter `P`. */
module Decimation {

  /** A GeoJSON linear ring (or any position list): positions in order. */
  type Ring<P> = seq<P>

  /** Rings of at most this many positions are kept whole. */
  const KeepWholeLimit: nat := 50

  /** Rings longer than this keep every 2nd position; shorter ones every 3rd. */
  const EveryOtherLimit: nat := 100

  /** The step the decimation walks a ring of `n` positions with
      (1 meaning every position is kept). */
  function Stride(n: nat): (k: nat)
    ensures 1 <= k <= 3
    ensures n <= KeepWholeLimit <==> k == 1
    ensures n > EveryOtherLimit <==> k == 2
  {
    if n > EveryOtherLimit then 2 else if n > KeepWholeLimit then 3 else 1
  }

  /** The positions at indices 0, k, 2k, ... in order: Python's
      `[s[i] for i in range(0, len(s), k)]`. The ensures clauses give the
      index characterisation of that comprehension. */
  function TakeEvery<P>(s: seq<P>, k: nat): (r: seq<P>)
    requires k > 0
    ensures |r| == (|s| + k - 1) / k
    ensures forall j :: 0 <= j < |r| ==> k * j < |s| && r[j] == s[k * j]
    decreases |s|
  {
    if |s| == 0 then []
    else if |s| <= k then
      DivOne(|s|, k);
      [s[0]]
    else
      var rest := TakeEvery(s[k..], k);
      TakeEveryLengthStep(|s|, k, |rest|);
      TakeEveryIndexStep(s, k, rest);
      [s[0]] + rest
  }

  /** Prepending one position to the decimated suffix adds one to the length. */
  lemma TakeEveryLengthStep(n: nat, k: nat, len: nat)
    requires 0 < k < n
    requires len == (n - k + k - 1) / k
    ensures len + 1 == (n + k - 1) / k
  {
    assert n - k + k - 1 == n - 1;
    DivStep(n - 1, k);
  }

  /** Position j > 0 of the result is position j - 1 of the decimated suffix. */
  lemma TakeEveryIndexStep<P>(s: seq<P>, k: nat, rest: seq<P>)
    requires 0 < k < |s|
    requires forall j :: 0 <= j < |rest| ==> k * j < |s| - k && rest[j] == s[k..][k * j]
    ensures forall j :: 0 <= j < |[s[0]] + rest| ==> k * j < |s| && ([s[0]] + rest)[j] == s[k * j]
  {
    var r := [s[0]] + rest;
    forall j | 0 < j < |r| ensures k * j < |s| && r[j] == s[k * j] {
      MulStep(k, j);
      assert r[j] == rest[j - 1] == s[k..][k * (j - 1)];
    }
  }

  /** Integer division is determined by quotient and remainder. */
  lemma DivUnique(n: int, k: int, q: int, r: int)
    requires k > 0 && 0 <= r < k && n == k * q + r
    ensures n / k == q
  {
    var q', r' := n / k, n % k;
    assert n == k * q' + r';
    if q > q' {
      var d := q - q';
      assert k * q == k * q' + k * d;
      MulAtLeast(k, d);
    } else if q < q' {
      var d := q' - q;
      assert k * q' == k * q + k * d;
      MulAtLeast(k, d);
    }
  }

  lemma MulStep(k: int, j: int)
    ensures k * j == k + k * (j - 1)
  {
  }

  lemma MulAtLeast(k: int, d: int)
    requires k > 0 && d >= 1
    ensures k * d >= k
  {
    assert k * d == k * (d - 1) + k;
  }

  /** Adding the divisor adds one to the quotient. */
  lemma DivStep(m: nat, k: nat)
    requires k > 0
    ensures (m + k) / k == m / k + 1
  {
    var q, r := m / k, m % k;
    assert m + k == k * (q + 1) + r;
    DivUnique(m + k, k, q + 1, r);
  }

  /** A non-empty sequence no longer than `k` has one multiple of `k` among its indices. */
  lemma DivOne(n: nat, k: nat)
    requires 0 < n <= k
    ensures (n + k - 1) / k == 1
  {
    DivUnique(n + k - 1, k, 1, n - 1);
  }

  /** `simplify_coordinates`: fewer than 3 or at most 50 positions are
      returned unchanged, 51 to 100 keep every 3rd position, more than 100
      keep every 2nd. The `tolerance` argument of the source is unused there
      and so is absent here. */
  function SimplifyCoordinates<P>(coords: Ring<P>): (r: Ring<P>)
    ensures |coords| <= KeepWholeLimit ==> r == coords
    ensures KeepWholeLimit < |coords| <= EveryOtherLimit ==>
      |r| == (|coords| + 2) / 3 && forall j :: 0 <= j < |r| ==> r[j] == coords[3 * j]
    ensures EveryOtherLimit < |coords| ==>
      |r| == (|coords| + 1) / 2 && forall j :: 0 <= j < |r| ==> r[j] == coords[2 * j]
    ensures |r| <= |coords|
    ensures |coords| > KeepWholeLimit ==> |r| < |coords|
    ensures |r| == 0 <==> |coords| == 0
    ensures |coords| > 0 ==> r[0] == coords[0]
  {
    if |coords| < 3 then coords
    else if |coords| > EveryOtherLimit then TakeEvery(coords, 2)
    else if |coords| > KeepWholeLimit then TakeEvery(coords, 3)
    else coords
  }

  /** The three branches of the decimation are one rule: keep exactly the
      positions whose index is a multiple of `Stride(|coords|)`. */
  lemma {:induction false} SimplifyKeepsMultiplesOfStride<P>(coords: Ring<P>)
    ensures var r, k := SimplifyCoordinates(coords), Stride(|coords|);
      && |r| == (|coords| + k - 1) / k
      && forall j :: 0 <= j < |r| ==> k * j < |coords| && r[j] == coords[k * j]
  {
    var r, k := SimplifyCoordinates(coords), Stride(|coords|);
    if |coords| <= KeepWholeLimit {
      assert k == 1;
    } else if |coords| <= EveryOtherLimit {
      assert k == 3;
      assert r == TakeEvery(coords, 3);
    } else {
      assert k == 2;
      assert r == TakeEvery(coords, 2);
    }
  }

  /** `sub` is `s` with some positions deleted and the rest left in order. */
  ghost predicate IsSubsequence<P>(sub: seq<P>, s: seq<P>)
    decreases |s|
  {
    if |sub| == 0 then true
    else if |s| == 0 then false
    else (sub[0] == s[0] && IsSubsequence(sub[1..], s[1..])) || IsSubsequence(sub, s[1..])
  }

  /** A subsequence of a suffix of `s` is a subsequence of `s`. */
  lemma {:induction false} SubsequenceOfSuffix<P>(sub: seq<P>, s: seq<P>, m: nat)
    requires m <= |s|
    requires IsSubsequence(sub, s[m..])
    ensures IsSubsequence(sub, s)
    decreases m
  {
    if m > 0 {
      assert s[1..][m - 1..] == s[m..];
      SubsequenceOfSuffix(sub, s[1..], m - 1);
      if |sub| > 0 {
        assert |s| > 0;
      }
    }
  }

  /** Taking every `k`-th position is an order-preserving subsequence. */
  lemma {:induction false} TakeEveryIsSubsequence<P>(s: seq<P>, k: nat)
    requires k > 0
    ensures IsSubsequence(TakeEvery(s, k), s)
    decreases |s|
  {
    var r := TakeEvery(s, k);
    if |s| == 0 {
    } else if |s| <= k {
      assert r == [s[0]];
      assert r[1..] == [];
    } else {
      var rest := TakeEvery(s[k..], k);
      assert r == [s[0]] + rest;
      assert r[1..] == rest;
      TakeEveryIsSubsequence(s[k..], k);
      assert s[1..][k - 1..] == s[k..];
      SubsequenceOfSuffix(rest, s[1..], k - 1);
    }
  }

  /** Every sequence is a subsequence of itself. */
  lemma {:induction false} SubsequenceReflexive<P>(s: seq<P>)
    ensures IsSubsequence(s, s)
    decreases |s|
  {
    if |s| > 0 {
      SubsequenceReflexive(s[1..]);
    }
  }

  /** The output of `simplify_coordinates` is always an order-preserving
      subsequence of its input. */
  lemma {:induction false} SimplifyIsSubsequence<P>(coords: Ring<P>)
    ensures IsSubsequence(SimplifyCoordinates(coords), coords)
  {
    if |coords| < 3 || |coords| <= KeepWholeLimit {
      SubsequenceReflexive(coords);
    } else if |coords| > EveryOtherLimit {
      TakeEveryIsSubsequence(coords, 2);
    } else {
      TakeEveryIsSubsequence(coords, 3);
    }
  }

  /** The last surviving position of a decimated ring is the one at the
      largest multiple of the stride below `|coords|`; so the closing
      position of a closed ring (section 3.1.6 of RFC 7946) survives exactly
      when the stride divides `|coords| - 1`. */
  lemma {:induction false} LastSurvivor<P>(coords: Ring<P>)
    requires |coords| > 0
    ensures var r, k := SimplifyCoordinates(coords), Stride(|coords|);
      && |r| == (|coords| - 1) / k + 1
      && r[|r| - 1] == coords[k * ((|coords| - 1) / k)]
      && (k * (|r| - 1) == |coords| - 1 <==> (|coords| - 1) % k == 0)
  {
    SimplifyKeepsMultiplesOfStride(coords);
    var r, k := SimplifyCoordinates(coords), Stride(|coords|);
    var n := |coords|;
    assert (n + k - 1) / k == (n - 1) / k + 1 by {
      assert n + k - 1 == (n - 1) + k;
    }
  }
}
