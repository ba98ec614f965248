/**
 * H264NaluSplitter: reads a whole Annex-B file and lists its NAL units as
 * inclusive byte ranges, one per start code, each running up to the byte
 * before the next code and the last one to the end of the file.
 */
module NaluSplitter {
  import opened AnnexB
  import opened Slicing

  /** A NAL unit's byte range data[start..end], both ends inclusive, start code included. */
  datatype NaluData = NaluData(start: int, end: int)

  /** isStartCode: a three-byte code is tried first, then a four-byte one. */
  predicate IsStartCode(data: seq<byte>, pos: nat): (b: bool)
    ensures b <==> Is3At(data, pos) || Is4At(data, pos)
  {
    (pos + 2 < |data| && data[pos] == 0x00 && data[pos + 1] == 0x00 && data[pos + 2] == 0x01)
    || (pos + 3 < |data| && data[pos] == 0x00 && data[pos + 1] == 0x00 && data[pos + 2] == 0x00 && data[pos + 3] == 0x01)
  }

  /** getStartCodeLength: 3 when the third byte is 0x01, 4 in every other case. */
  function StartCodeLength(data: seq<byte>, pos: nat): (n: int)
    ensures n == 3 || n == 4
    ensures n == 3 <==> pos + 2 < |data| && data[pos + 2] == 0x01
    ensures Is3At(data, pos) ==> n == 3
    ensures Is4At(data, pos) ==> n == 4
  {
    if pos + 2 < |data| && data[pos + 2] == 0x01 then 3 else 4
  }

  /** The ranges between consecutive code positions: each ends just before the next code. */
  function Intervals(st: seq<int>): (r: seq<NaluData>)
    ensures |r| == if |st| < 2 then 0 else |st| - 1
  {
    if |st| < 2 then [] else Intervals(st[..|st| - 1]) + [NaluData(st[|st| - 2], st[|st| - 1] - 1)]
  }

  lemma {:induction false} IntervalsSnoc(st: seq<int>, c: int)
    requires st != []
    ensures Intervals(st + [c]) == Intervals(st) + [NaluData(st[|st| - 1], c - 1)]
  {
    var xs := st + [c];
    assert xs[..|xs| - 1] == st;
  }

  lemma {:induction false} IntervalsAt(st: seq<int>, k: int)
    requires 0 <= k < |st| - 1
    ensures Intervals(st)[k] == NaluData(st[k], st[k + 1] - 1)
    decreases |st|
  {
    if k < |st| - 2 {
      IntervalsAt(st[..|st| - 1], k);
    }
  }

  /** The NAL units of a file: one range per reported code, the last one closed at the end of the file. */
  function Nalus(data: seq<byte>): seq<NaluData>
  {
    var st := Starts(data);
    if st == [] then [] else Intervals(st) + [NaluData(st[|st| - 1], |data| - 1)]
  }

  /** parseNalus: the four-state scan, closing the previous range at each code and the last one at the end. */
  method ParseNalus(data: seq<byte>) returns (naluList: seq<NaluData>)
    ensures naluList == Nalus(data)
  {
    naluList := [];
    var state := 0;
    var lastStart := -1;
    var len := |data|;
    for i := 0 to len
      invariant state == ZeroRun(data, i)
      invariant lastStart == -1 <==> StartsBefore(data, i) == []
      invariant lastStart == LastOr(StartsBefore(data, i), -1)
      invariant naluList == Intervals(StartsBefore(data, i))
    {
      ghost var before := StartsBefore(data, i);
      assert !DetectAt(data, i) ==> StartsBefore(data, i + 1) == before;
      if state == 0 {
        if data[i] == 0x00 {
          state := 1;
        }
      } else if state == 1 {
        if data[i] == 0x00 {
          state := 2;
        } else {
          state := 0;
        }
      } else if state == 2 {
        if data[i] == 0x00 {
          state := 3;
        } else if data[i] == 0x01 {
          ScanFindsRange(data, i, lastStart);
          if lastStart != -1 {
            naluList := naluList + [NaluData(lastStart, i - 3)];
          }
          lastStart := i - 2;
          state := 0;
        } else {
          state := 0;
        }
      } else {
        if data[i] == 0x01 {
          ScanFindsRange(data, i, lastStart);
          if lastStart != -1 {
            naluList := naluList + [NaluData(lastStart, i - 4)];
          }
          lastStart := i - 3;
          state := 0;
        } else if data[i] != 0x00 {
          state := 0;
        }
      }
    }
    StartsFacts(data, len);
    if lastStart != -1 && lastStart < len {
      naluList := naluList + [NaluData(lastStart, len - 1)];
    }
  }

  /** A byte that closes a start code adds its position, and closes the previous range just before it. */
  lemma {:induction false} ScanFindsRange(data: seq<byte>, i: int, last: int)
    requires 0 <= i < |data| && DetectAt(data, i)
    requires last == -1 <==> StartsBefore(data, i) == []
    requires last == LastOr(StartsBefore(data, i), -1)
    ensures var before, c := StartsBefore(data, i), CodeStart(data, i);
      && StartsBefore(data, i + 1) == before + [c]
      && (last != -1 ==> Intervals(before + [c]) == Intervals(before) + [NaluData(last, c - 1)])
      && (last == -1 ==> Intervals(before + [c]) == [])
  {
    var before, c := StartsBefore(data, i), CodeStart(data, i);
    StartsBeforeFound(data, i + 1);
    if last != -1 {
      IntervalsSnoc(before, c);
    }
  }

  /** The ranges start exactly at the reported code positions, in order. */
  lemma {:induction false} NalusStarts(data: seq<byte>)
    ensures |Nalus(data)| == |Starts(data)|
    ensures forall k :: 0 <= k < |Nalus(data)| ==> Nalus(data)[k].start == Starts(data)[k]
  {
    var st := Starts(data);
    forall k | 0 <= k < |st| - 1
      ensures Nalus(data)[k].start == st[k]
    {
      IntervalsAt(st, k);
    }
  }

  /** A buffer with no 00 00 01 anywhere yields no NAL units, and conversely. */
  lemma {:induction false} NalusEmptyIff(data: seq<byte>)
    ensures Nalus(data) == [] <==> forall i :: !Is3At(data, i)
  {
    StartsEmptyIff(data, |data|);
  }

  /** Every range begins with a start code, and one that is not the tail of a longer code. */
  lemma {:induction false} NalusBeginWithStartCodes(data: seq<byte>)
    ensures forall k :: 0 <= k < |Nalus(data)| ==> 0 <= Nalus(data)[k].start && IsStartCode(data, Nalus(data)[k].start)
    ensures forall k :: 0 <= k < |Nalus(data)| ==> StartCodeAt(data, Nalus(data)[k].start)
  {
    NalusStarts(data);
    StartsFacts(data, |data|);
  }

  /** Ranges are contiguous, the last ends at the last byte, and each spans at least three bytes. */
  lemma {:induction false} NalusContiguous(data: seq<byte>)
    ensures forall k :: 0 <= k < |Nalus(data)| - 1 ==> Nalus(data)[k].end + 1 == Nalus(data)[k + 1].start
    ensures Nalus(data) != [] ==> Nalus(data)[|Nalus(data)| - 1].end == |data| - 1
    ensures forall k :: 0 <= k < |Nalus(data)| ==> Nalus(data)[k].start + 2 <= Nalus(data)[k].end
  {
    var st, r := Starts(data), Nalus(data);
    NalusStarts(data);
    StartsFacts(data, |data|);
    forall k | 0 <= k < |r| - 1
      ensures r[k].end + 1 == r[k + 1].start && r[k].start + 2 <= r[k].end
    {
      IntervalsAt(st, k);
    }
    if r != [] {
      var x := st[|st| - 1];
      assert FoundBefore(data, x, |data|);
    }
  }

  /** The bytes of a range, as Arrays.copyOfRange(data, start, end + 1) copies them. */
  function NaluBytes(data: seq<byte>, n: NaluData): seq<byte>
  {
    Piece(data, n.start, n.end + 1)
  }

  /** The bytes of each range in a list, in order (the files main writes). */
  function Contents(data: seq<byte>, r: seq<NaluData>): (pieces: seq<seq<byte>>)
    ensures |pieces| == |r|
  {
    if r == [] then [] else Contents(data, r[..|r| - 1]) + [NaluBytes(data, r[|r| - 1])]
  }

  lemma {:induction false} ContentsSnoc(data: seq<byte>, r: seq<NaluData>, n: NaluData)
    ensures Contents(data, r + [n]) == Contents(data, r) + [NaluBytes(data, n)]
  {
    assert (r + [n])[..|r|] == r;
  }

  lemma {:induction false} ContentsOfIntervals(data: seq<byte>, st: seq<int>)
    ensures Contents(data, Intervals(st)) == Slices(data, st)
    decreases |st|
  {
    if |st| >= 2 {
      var st' := st[..|st| - 1];
      ContentsOfIntervals(data, st');
      ContentsSnoc(data, Intervals(st'), NaluData(st[|st| - 2], st[|st| - 1] - 1));
    }
  }

  lemma {:induction false} NalusAsSlices(data: seq<byte>)
    requires Starts(data) != []
    ensures Contents(data, Nalus(data)) == Slices(data, Starts(data) + [|data|])
  {
    var st := Starts(data);
    var xs := st + [|data|];
    assert xs[..|xs| - 1] == st;
    ContentsOfIntervals(data, st);
    ContentsSnoc(data, Intervals(st), NaluData(st[|st| - 1], |data| - 1));
  }

  lemma {:induction false} CutPoints(data: seq<byte>)
    ensures Increasing(Starts(data) + [|data|]) && Within(Starts(data) + [|data|], 0, |data|)
  {
    StartsFacts(data, |data|);
  }

  /** The first range starts at the first reported code. */
  lemma {:induction false} NalusFirstStart(data: seq<byte>)
    requires Starts(data) != []
    ensures Nalus(data) != [] && Nalus(data)[0].start == Starts(data)[0]
  {
    var st := Starts(data);
    if |st| >= 2 {
      IntervalsAt(st, 0);
    }
  }

  /** Cutting the file at every code and at its end, the slices tile the file from the first code on. */
  lemma {:induction false} CutsTile(data: seq<byte>)
    requires Starts(data) != []
    ensures 0 <= Starts(data)[0] < |data|
    ensures Concat(Slices(data, Starts(data) + [|data|])) == data[Starts(data)[0]..]
  {
    var st := Starts(data);
    var xs := st + [|data|];
    CutPoints(data);
    assert xs[0] < xs[|xs| - 1];
    SlicesTile(data, xs);
  }

  /** The NAL units laid end to end reproduce the file from the first start code on. */
  lemma {:induction false} NalusTile(data: seq<byte>)
    requires Nalus(data) != []
    ensures 0 <= Nalus(data)[0].start < |data|
    ensures Concat(Contents(data, Nalus(data))) == data[Nalus(data)[0].start..]
  {
    assert Starts(data) != [];
    NalusFirstStart(data);
    NalusAsSlices(data);
    CutsTile(data);
  }

  /** Three or more zeros before a 0x01 record the four-byte code that ends at that 0x01. */
  lemma {:induction false} LongZeroRunRecordsFourByteCode(data: seq<byte>, i: int)
    requires 3 <= i < |data| && data[i - 3] == 0 && data[i - 2] == 0 && data[i - 1] == 0 && data[i] == 1
    ensures exists k :: 0 <= k < |Nalus(data)| && Nalus(data)[k].start == i - 3
    ensures forall k :: 0 <= k < |Nalus(data)| ==> Nalus(data)[k].start != i - 2
  {
    NalusStarts(data);
    StartsExactly(data, i - 3);
    StartsExactly(data, i - 2);
    var k :| 0 <= k < |Starts(data)| && Starts(data)[k] == i - 3;
    assert Nalus(data)[k].start == i - 3;
  }

  /**
   * The header byte main reads at start + getStartCodeLength is the byte right
   * after the code's 0x01; it exists for every range but possibly the last.
   */
  lemma {:induction false} HeaderFollowsCode(data: seq<byte>, k: int)
    requires 0 <= k < |Nalus(data)|
    ensures 0 <= Nalus(data)[k].start
    ensures Nalus(data)[k].start + StartCodeLength(data, Nalus(data)[k].start) == CodeEnd(data, Nalus(data)[k].start) + 1
    ensures k < |Nalus(data)| - 1 ==> Nalus(data)[k].start + StartCodeLength(data, Nalus(data)[k].start) < |data|
  {
    NalusBeginWithStartCodes(data);
    NalusContiguous(data);
    if k < |Nalus(data)| - 1 {
      assert Nalus(data)[k + 1].start + 2 < |data| by {
        NalusBeginWithStartCodes(data);
      }
    }
  }

  /** A file that ends right after its only start code: the header read of main falls outside the file. */
  lemma {:induction false} BareTrailingCodeHasNoHeader()
    ensures Nalus([0, 0, 0, 1]) == [NaluData(0, 3)]
    ensures StartCodeLength([0, 0, 0, 1], 0) == 4
  {
    var data: seq<byte> := [0, 0, 0, 1];
    assert StartsBefore(data, 3) == [];
    assert Starts(data) == [0];
  }

  function Min(a: int, b: int): int
  {
    if a < b then a else b
  }

  /** isValidH264File: at least 4 bytes, and a start code at one of the first min(len - 3, 1000) positions. */
  method IsValidH264File(data: seq<byte>) returns (valid: bool)
    ensures valid <==> |data| >= 4 && exists i :: 0 <= i < Min(|data| - 3, 1000) && IsStartCode(data, i)
  {
    if |data| < 4 {
      return false;
    }
    var i := 0;
    while i < Min(|data| - 3, 1000)
      invariant 0 <= i
      invariant forall j :: 0 <= j < i ==> !IsStartCode(data, j)
    {
      if IsStartCode(data, i) {
        return true;
      }
      i := i + 1;
    }
    return false;
  }

  /** getNaluTypeDescription: one label per type 1..12, a shared fallback for every other value. */
  function NaluTypeDescription(nalType: int): (text: string)
    ensures text == "其他类型" <==> !(1 <= nalType <= 12)
  {
    match nalType
    case 1 => "非IDR帧"
    case 2 => "数据分区A"
    case 3 => "数据分区B"
    case 4 => "数据分区C"
    case 5 => "IDR帧(I帧)"
    case 6 => "SEI信息"
    case 7 => "SPS参数"
    case 8 => "PPS参数"
    case 9 => "AU分隔符"
    case 10 => "序列结束"
    case 11 => "流结束"
    case 12 => "填充数据"
    case _ => "其他类型"
  }

  /** Distinct known types get distinct labels. */
  lemma {:induction false} NaluTypeDescriptionInjective(a: int, b: int)
    requires 1 <= a <= 12 && 1 <= b <= 12 && a != b
    ensures NaluTypeDescription(a) != NaluTypeDescription(b)
  {
  }
}
