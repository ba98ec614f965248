/**
 * Sequence helpers shared by the scanners: concatenation of byte strings, the
 * pieces of a buffer between consecutive cut points, and the re-indexing of cut
 * points when a buffer is trimmed at the front.
 */
module Slicing {

  /** The parts laid end to end, in order (what successive writes to a ByteArrayOutputStream produce). */
  function Concat<T>(parts: seq<seq<T>>): seq<T>
  {
    if parts == [] then [] else Concat(parts[..|parts| - 1]) + parts[|parts| - 1]
  }

  lemma {:induction false} ConcatAppend<T>(a: seq<seq<T>>, b: seq<seq<T>>)
    ensures Concat(a + b) == Concat(a) + Concat(b)
    decreases |b|
  {
    if b == [] {
      assert a + b == a;
    } else {
      var b' := b[..|b| - 1];
      assert (a + b)[..|a + b| - 1] == a + b';
      ConcatAppend(a, b');
    }
  }

  /** Cut points are strictly increasing. */
  ghost predicate Increasing(xs: seq<int>)
  {
    forall i, j :: 0 <= i < j < |xs| ==> xs[i] < xs[j]
  }

  /** Every cut point lies in [lo, hi]. */
  ghost predicate Within(xs: seq<int>, lo: int, hi: int)
  {
    forall i :: 0 <= i < |xs| ==> lo <= xs[i] <= hi
  }

  /** s[a..b], or nothing when the bounds are not a valid range of s. */
  function Piece<T>(s: seq<T>, a: int, b: int): seq<T>
  {
    if 0 <= a <= b <= |s| then s[a..b] else []
  }

  /** The pieces s[xs[0]..xs[1]], s[xs[1]..xs[2]], ...: one per pair of consecutive cut points. */
  function Slices<T>(s: seq<T>, xs: seq<int>): (r: seq<seq<T>>)
    ensures |r| == if |xs| < 2 then 0 else |xs| - 1
  {
    if |xs| < 2 then [] else Slices(s, xs[..|xs| - 1]) + [Piece(s, xs[|xs| - 2], xs[|xs| - 1])]
  }

  lemma {:induction false} SlicesAt<T>(s: seq<T>, xs: seq<int>, k: int)
    requires Increasing(xs) && Within(xs, 0, |s|)
    requires 0 <= k < |xs| - 1
    ensures Slices(s, xs)[k] == s[xs[k]..xs[k + 1]]
    decreases |xs|
  {
    if k < |xs| - 2 {
      SubRange(xs, 0, |xs| - 1, 0, |s|);
      assert xs[..|xs| - 1] == xs[0..|xs| - 1];
      SlicesAt(s, xs[..|xs| - 1], k);
    }
  }

  /** Slices only look at the buffer below the last cut point. */
  lemma {:induction false} SlicesOfPrefix<T>(s: seq<T>, t: seq<T>, xs: seq<int>)
    requires Within(xs, 0, |s|)
    ensures Slices(s + t, xs) == Slices(s, xs)
    decreases |xs|
  {
    if |xs| >= 2 {
      SlicesOfPrefix(s, t, xs[..|xs| - 1]);
      var a, b := xs[|xs| - 2], xs[|xs| - 1];
      assert Piece(s + t, a, b) == Piece(s, a, b) by {
        if 0 <= a <= b <= |s| {
          assert (s + t)[a..b] == s[a..b];
        }
      }
    }
  }

  /** A contiguous run of increasing, bounded cut points is increasing and bounded. */
  lemma {:induction false} SubRange(xs: seq<int>, a: int, b: int, lo: int, hi: int)
    requires Increasing(xs) && Within(xs, lo, hi) && 0 <= a <= b <= |xs|
    ensures Increasing(xs[a..b]) && Within(xs[a..b], lo, hi)
  {
    var ys := xs[a..b];
    forall i, j | 0 <= i < j < |ys|
      ensures ys[i] < ys[j]
    {
      assert ys[i] == xs[a + i] && ys[j] == xs[a + j];
    }
  }

  /** The points of an increasing sequence from its k-th on lie between the k-th and the upper bound. */
  lemma {:induction false} WithinFrom(xs: seq<int>, k: int, lo: int, hi: int)
    requires Increasing(xs) && Within(xs, lo, hi) && 0 <= k < |xs|
    ensures Within(xs[k..], xs[k], hi)
  {
    var ys := xs[k..];
    forall j | 0 <= j < |ys|
      ensures xs[k] <= ys[j] <= hi
    {
      assert ys[j] == xs[k + j];
    }
  }

  /** Cutting at xs equals cutting at xs[..k+1] and then at xs[k..]: the two share the point xs[k]. */
  lemma {:induction false} SlicesSplit<T>(s: seq<T>, xs: seq<int>, k: int)
    requires 0 <= k < |xs|
    ensures Slices(s, xs) == Slices(s, xs[..k + 1]) + Slices(s, xs[k..])
    decreases |xs|
  {
    if k == |xs| - 1 {
      assert xs[..k + 1] == xs;
    } else {
      var xs' := xs[..|xs| - 1];
      SlicesSplit(s, xs', k);
      var tail := xs[k..];
      assert xs'[..k + 1] == xs[..k + 1];
      assert xs'[k..] == tail[..|tail| - 1];
    }
  }

  /** xs with q subtracted from every point. */
  function Shift(xs: seq<int>, q: int): (r: seq<int>)
    ensures |r| == |xs|
  {
    if xs == [] then [] else Shift(xs[..|xs| - 1], q) + [xs[|xs| - 1] - q]
  }

  /** The points of xs that are at least q, in order. */
  function Above(xs: seq<int>, q: int): (r: seq<int>)
    ensures |r| <= |xs|
  {
    if xs == [] then []
    else Above(xs[..|xs| - 1], q) + (if q <= xs[|xs| - 1] then [xs[|xs| - 1]] else [])
  }

  lemma {:induction false} ShiftAt(xs: seq<int>, q: int, i: int)
    requires 0 <= i < |xs|
    ensures Shift(xs, q)[i] == xs[i] - q
    decreases |xs|
  {
    if i < |xs| - 1 {
      ShiftAt(xs[..|xs| - 1], q, i);
    }
  }

  lemma {:induction false} ShiftSnoc(xs: seq<int>, x: int, q: int)
    ensures Shift(xs + [x], q) == Shift(xs, q) + [x - q]
  {
    assert (xs + [x])[..|xs|] == xs;
  }

  lemma {:induction false} AboveSnoc(xs: seq<int>, x: int, q: int)
    ensures Above(xs + [x], q) == Above(xs, q) + (if q <= x then [x] else [])
  {
    assert (xs + [x])[..|xs|] == xs;
  }

  /** In an increasing sequence, the points at least xs[k] are exactly xs[k..]. */
  lemma {:induction false} AboveOfIncreasing(xs: seq<int>, k: int)
    requires Increasing(xs) && 0 <= k < |xs|
    ensures Above(xs, xs[k]) == xs[k..]
    decreases |xs|
  {
    var q := xs[k];
    if k == |xs| - 1 {
      AboveNone(xs[..|xs| - 1], q);
      assert xs[k..] == [q];
    } else {
      AboveOfIncreasing(xs[..|xs| - 1], k);
      assert xs[..|xs| - 1][k..] + [xs[|xs| - 1]] == xs[k..];
    }
  }

  lemma {:induction false} AboveNone(xs: seq<int>, q: int)
    requires forall i :: 0 <= i < |xs| ==> xs[i] < q
    ensures Above(xs, q) == []
    decreases |xs|
  {
    if xs != [] {
      AboveNone(xs[..|xs| - 1], q);
    }
  }

  lemma {:induction false} AboveAll(xs: seq<int>, q: int)
    requires forall i :: 0 <= i < |xs| ==> q <= xs[i]
    ensures Above(xs, q) == xs
    decreases |xs|
  {
    if xs != [] {
      AboveAll(xs[..|xs| - 1], q);
    }
  }

  /** Cutting the trimmed buffer s[q..] at shifted points gives the same pieces. */
  lemma {:induction false} SlicesShift<T>(s: seq<T>, xs: seq<int>, q: int)
    requires Within(xs, q, |s|) && 0 <= q <= |s|
    ensures Slices(s[q..], Shift(xs, q)) == Slices(s, xs)
    decreases |xs|
  {
    if |xs| >= 2 {
      var xs' := xs[..|xs| - 1];
      SlicesShift(s, xs', q);
      assert Shift(xs, q)[..|xs| - 1] == Shift(xs', q);
      var a, b := xs[|xs| - 2], xs[|xs| - 1];
      assert Piece(s[q..], a - q, b - q) == Piece(s, a, b) by {
        if a <= b {
          assert s[q..][a - q..b - q] == s[a..b];
        }
      }
    }
  }

  /** Consecutive pieces tile the buffer between the first and the last cut point. */
  lemma {:induction false} SlicesTile<T>(s: seq<T>, xs: seq<int>)
    requires Increasing(xs) && Within(xs, 0, |s|) && |xs| >= 1
    ensures Concat(Slices(s, xs)) == s[xs[0]..xs[|xs| - 1]]
    decreases |xs|
  {
    if |xs| >= 2 {
      var xs' := xs[..|xs| - 1];
      SubRange(xs, 0, |xs| - 1, 0, |s|);
      assert xs' == xs[0..|xs| - 1];
      SlicesTile(s, xs');
      var a, b, c := xs[0], xs[|xs| - 2], xs[|xs| - 1];
      assert a <= b < c;
      ConcatOne(Slices(s, xs'), s[b..c]);
      assert s[a..b] + s[b..c] == s[a..c];
    }
  }

  lemma {:induction false} ConcatOne<T>(parts: seq<seq<T>>, p: seq<T>)
    ensures Concat(parts + [p]) == Concat(parts) + p
  {
    assert (parts + [p])[..|parts|] == parts;
  }
}
