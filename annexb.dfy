/**
 * The Annex-B byte-stream layer of H.264 as this program reads it: start
 * codes 00 00 01 and 00 00 00 01, the five-bit NAL unit type in the header
 * byte, and the four-state scanner that H264NaluSplitter.parseNalus and
 * H264StreamReceiver.parseNalusWithStateMachine both run over a buffer.
 *
 * The scanner's state is the number of trailing zero bytes, capped at 3
 * (ZeroRun); it reports a start code at every 0x01 that follows at least two
 * zeros (DetectAt) and places that code's first byte three bytes back when a
 * third zero precedes, two bytes back otherwise (CodeStart).  Starts(s) is the
 * list of code positions the scanner reports over s, in order.
 */
module AnnexB {
  import opened Slicing

  type byte = bv8

  /** A three-byte start code 00 00 01 begins at i. */
  predicate Is3At(s: seq<byte>, i: int)
  {
    0 <= i && i + 2 < |s| && s[i] == 0 && s[i + 1] == 0 && s[i + 2] == 1
  }

  /** A four-byte start code 00 00 00 01 begins at i. */
  predicate Is4At(s: seq<byte>, i: int)
  {
    0 <= i && i + 3 < |s| && s[i] == 0 && s[i + 1] == 0 && s[i + 2] == 0 && s[i + 3] == 1
  }

  /** nal_unit_type: the low five bits of the header byte (`header & 0x1F`). */
  function NalType(header: byte): (t: int)
    ensures 0 <= t < 32
    ensures t == header as int % 32
  {
    (header & 0x1F) as int
  }

  /**
   * A start code that is not the tail of a longer one: either four bytes, or
   * three bytes not preceded by a zero.  These are the codes the scanner reports.
   */
  predicate StartCodeAt(s: seq<byte>, x: int)
  {
    Is4At(s, x) || (Is3At(s, x) && (x == 0 || s[x - 1] != 0))
  }

  /** The position of the 0x01 that closes the start code at x. */
  function CodeEnd(s: seq<byte>, x: int): int
  {
    if Is4At(s, x) then x + 3 else x + 2
  }

  /** The scanner's state after consuming s[..i]: the trailing run of zeros, at most 3. */
  function ZeroRun(s: seq<byte>, i: int): (z: int)
    requires 0 <= i <= |s|
    ensures 0 <= z <= 3 && z <= i
  {
    if i >= 1 && s[i - 1] == 0 then
      if i >= 2 && s[i - 2] == 0 then
        if i >= 3 && s[i - 3] == 0 then 3 else 2
      else 1
    else 0
  }

  /** The scanner reports a start code when it reads s[i]. */
  predicate DetectAt(s: seq<byte>, i: int)
  {
    2 <= i < |s| && s[i] == 1 && s[i - 1] == 0 && s[i - 2] == 0
  }

  /** Where the code reported at s[i] begins. */
  function CodeStart(s: seq<byte>, i: int): (x: int)
    requires DetectAt(s, i)
    ensures StartCodeAt(s, x) && CodeEnd(s, x) == i
  {
    if ZeroRun(s, i) == 3 then i - 3 else i - 2
  }

  /** The code positions reported while scanning s[..n], in order. */
  function StartsBefore(s: seq<byte>, n: int): seq<int>
    requires 0 <= n <= |s|
  {
    if n == 0 then []
    else StartsBefore(s, n - 1) + (if DetectAt(s, n - 1) then [CodeStart(s, n - 1)] else [])
  }

  /** The code positions reported while scanning all of s. */
  function Starts(s: seq<byte>): seq<int>
  {
    StartsBefore(s, |s|)
  }

  /** A code found before position n is closed before n. */
  ghost predicate FoundBefore(s: seq<byte>, x: int, n: int)
  {
    StartCodeAt(s, x) && CodeEnd(s, x) < n
  }

  /** A later report begins at least three bytes after any earlier code. */
  lemma {:induction false} NextCodeIsApart(s: seq<byte>, x: int, i: int)
    requires FoundBefore(s, x, i) && DetectAt(s, i)
    ensures x + 3 <= CodeStart(s, i)
  {
    var e := CodeEnd(s, x);
    assert s[e] == 1;
  }

  /**
   * Every reported position is a start code closed before n, and reports are
   * at least three bytes apart, hence strictly increasing.
   */
  lemma {:induction false} StartsFacts(s: seq<byte>, n: int)
    requires 0 <= n <= |s|
    ensures forall k :: 0 <= k < |StartsBefore(s, n)| ==> FoundBefore(s, StartsBefore(s, n)[k], n)
    ensures forall k, l :: 0 <= k < l < |StartsBefore(s, n)| ==> StartsBefore(s, n)[k] + 3 <= StartsBefore(s, n)[l]
    ensures Increasing(StartsBefore(s, n)) && Within(StartsBefore(s, n), 0, n)
    decreases n
  {
    if n > 0 {
      StartsFacts(s, n - 1);
      var st := StartsBefore(s, n - 1);
      if DetectAt(s, n - 1) {
        var c := CodeStart(s, n - 1);
        forall k | 0 <= k < |st|
          ensures st[k] + 3 <= c
        {
          NextCodeIsApart(s, st[k], n - 1);
        }
        assert StartsBefore(s, n) == st + [c];
      }
    }
  }

  /** Scanning further only appends reports. */
  lemma {:induction false} StartsBeforeGrows(s: seq<byte>, m: int, n: int)
    requires 0 <= m <= n <= |s|
    ensures |StartsBefore(s, m)| <= |StartsBefore(s, n)|
    ensures StartsBefore(s, n)[..|StartsBefore(s, m)|] == StartsBefore(s, m)
    decreases n - m
  {
    if m < n {
      StartsBeforeGrows(s, m, n - 1);
      var a, b := StartsBefore(s, m), StartsBefore(s, n - 1);
      assert StartsBefore(s, n)[..|b|] == b;
      assert b[..|a|] == a;
    }
  }

  /** The reports over a prefix do not depend on what follows it. */
  lemma {:induction false} StartsBeforeOfPrefix(s: seq<byte>, t: seq<byte>, n: int)
    requires 0 <= n <= |s|
    ensures StartsBefore(s + t, n) == StartsBefore(s, n)
    decreases n
  {
    if n > 0 {
      StartsBeforeOfPrefix(s, t, n - 1);
      assert DetectAt(s + t, n - 1) == DetectAt(s, n - 1);
    }
  }

  /** The start codes of a buffer are a prefix of those of any extension of it. */
  lemma {:induction false} StartsExtend(s: seq<byte>, t: seq<byte>)
    ensures |Starts(s)| <= |Starts(s + t)|
    ensures Starts(s + t)[..|Starts(s)|] == Starts(s)
  {
    StartsBeforeOfPrefix(s, t, |s|);
    StartsBeforeGrows(s + t, |s|, |s + t|);
  }

  /** Starts(s) lists exactly the positions where a start code that is not the tail of a longer one begins. */
  lemma {:induction false} StartsExactly(s: seq<byte>, x: int)
    ensures x in Starts(s) <==> StartCodeAt(s, x)
  {
    StartsFacts(s, |s|);
    if StartCodeAt(s, x) {
      var i := CodeEnd(s, x);
      assert DetectAt(s, i) && CodeStart(s, i) == x;
      StartsBeforeGrows(s, i + 1, |s|);
      var a := StartsBefore(s, i + 1);
      assert a[|a| - 1] == x;
      assert Starts(s)[|a| - 1] == x;
    }
  }

  /** The scanner reports nothing exactly when 00 00 01 occurs nowhere. */
  lemma {:induction false} StartsEmptyIff(s: seq<byte>, n: int)
    requires 0 <= n <= |s|
    ensures StartsBefore(s, n) == [] <==> forall i :: 0 <= i && i + 2 < n ==> !Is3At(s, i)
    decreases n
  {
    if n > 0 {
      StartsEmptyIff(s, n - 1);
      assert DetectAt(s, n - 1) <==> Is3At(s, n - 3);
    }
  }

  /** The last of the reported positions, or the given default before the first. */
  function LastOr(st: seq<int>, none: int): int
  {
    if st == [] then none else st[|st| - 1]
  }

  /** The reported code positions are strictly increasing and inside the buffer. */
  lemma {:induction false} StartsOrdered(s: seq<byte>)
    ensures Increasing(Starts(s)) && Within(Starts(s), 0, |s|)
  {
    StartsFacts(s, |s|);
  }

  /**
   * A position the scanner may be restarted at: the buffer's beginning, or a
   * pair of zeros that does not complete a 00 00 01 whose zero run reaches
   * further back.  Every reported code position is one.
   */
  ghost predicate Resumable(s: seq<byte>, q: int)
  {
    q == 0 || (0 < q && q + 2 < |s| && s[q] == 0 && s[q + 1] == 0 && (s[q + 2] == 1 ==> s[q - 1] != 0))
  }

  lemma {:induction false} StartsAreResumable(s: seq<byte>, k: int)
    requires 0 <= k < |Starts(s)|
    ensures Resumable(s, Starts(s)[k])
  {
    StartsFacts(s, |s|);
  }

  /** One step of a rescan from q: the restarted scanner reports what the full scan reports at or after q. */
  lemma {:induction false} RescanStep(s: seq<byte>, q: int, j: int)
    requires 0 <= q && 0 <= j && q + j < |s| && Resumable(s, q)
    ensures DetectAt(s[q..], j) <==> DetectAt(s, q + j) && q <= CodeStart(s, q + j)
    ensures DetectAt(s[q..], j) ==> CodeStart(s[q..], j) == CodeStart(s, q + j) - q
  {
    var t, i := s[q..], q + j;
    if j >= 3 {
      assert t[j] == s[i] && t[j - 1] == s[i - 1] && t[j - 2] == s[i - 2] && t[j - 3] == s[i - 3];
    } else if j == 2 {
      assert t[j] == s[i] && t[j - 1] == s[i - 1] && t[j - 2] == s[i - 2];
    } else {
      assert !DetectAt(t, j);
    }
  }

  /** Rescanning from q reports nothing while the full scan is still before q. */
  lemma {:induction false} RescanBase(s: seq<byte>, q: int)
    requires 0 <= q <= |s|
    ensures Above(StartsBefore(s, q), q) == []
  {
    StartsFacts(s, q);
    AboveNone(StartsBefore(s, q), q);
  }

  /** Reading one more byte extends both sides of the rescan equation alike. */
  lemma {:induction false} RescanNext(s: seq<byte>, q: int, n: int)
    requires 0 <= q && 1 <= n && q + n <= |s| && Resumable(s, q)
    requires StartsBefore(s[q..], n - 1) == Shift(Above(StartsBefore(s, q + n - 1), q), q)
    ensures StartsBefore(s[q..], n) == Shift(Above(StartsBefore(s, q + n), q), q)
  {
    RescanStep(s, q, n - 1);
    if DetectAt(s, q + n - 1) {
      RescanNextFound(s, q, n);
    } else {
      assert StartsBefore(s[q..], n) == StartsBefore(s[q..], n - 1);
      assert StartsBefore(s, q + n) == StartsBefore(s, q + n - 1);
    }
  }

  lemma {:induction false} RescanNextFound(s: seq<byte>, q: int, n: int)
    requires 0 <= q && 1 <= n && q + n <= |s| && Resumable(s, q)
    requires StartsBefore(s[q..], n - 1) == Shift(Above(StartsBefore(s, q + n - 1), q), q)
    requires DetectAt(s, q + n - 1)
    requires DetectAt(s[q..], n - 1) && q <= CodeStart(s, q + n - 1)
    requires CodeStart(s[q..], n - 1) == CodeStart(s, q + n - 1) - q
    ensures StartsBefore(s[q..], n) == Shift(Above(StartsBefore(s, q + n), q), q)
  {
    var prev, c := StartsBefore(s, q + n - 1), CodeStart(s, q + n - 1);
    StartsBeforeFound(s[q..], n);
    StartsBeforeFound(s, q + n);
    AboveSnoc(prev, c, q);
    ShiftSnoc(Above(prev, q), c, q);
  }

  lemma {:induction false} StartsBeforeFound(s: seq<byte>, n: int)
    requires 1 <= n <= |s| && DetectAt(s, n - 1)
    ensures StartsBefore(s, n) == StartsBefore(s, n - 1) + [CodeStart(s, n - 1)]
  {
  }

  /**
   * Rescanning from a resumable position q reports the codes at or after q,
   * re-indexed from q: what the stream receiver relies on when it drops the
   * bytes before the last code and scans the rest again with the next chunk.
   */
  lemma {:induction false} Rescan(s: seq<byte>, q: int, n: int)
    requires 0 <= q && 0 <= n && q + n <= |s| && Resumable(s, q)
    ensures StartsBefore(s[q..], n) == Shift(Above(StartsBefore(s, q + n), q), q)
    decreases n
  {
    if n == 0 {
      RescanBase(s, q);
    } else {
      Rescan(s, q, n - 1);
      RescanNext(s, q, n);
    }
  }
}
