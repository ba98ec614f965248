/**
 * H264FrameAssembler: groups the NAL units handed to it into frames.  It
 * keeps the frame being collected, the latest SPS and PPS, two flags saying
 * whether each has been seen, a three-valued state and a frame number, and
 * reports completed frames and parameter sets through a callback.
 *
 * The callback invocations are modelled as the Event values each method
 * returns, in the order the callback would have been called.  The assembler's
 * behaviour is first stated as functions on a Snapshot of its fields (the
 * *Step functions), and the Assembler class is proved to follow them.
 */
module FrameAssembler {
  import opened AnnexB
  import opened Slicing
  import opened Wrappers
  import JavaText

  const NALU_TYPE_NON_IDR := 1
  const NALU_TYPE_IDR := 5
  const NALU_TYPE_SEI := 6
  const NALU_TYPE_SPS := 7
  const NALU_TYPE_PPS := 8
  const NALU_TYPE_AUD := 9

  datatype FrameState = WaitingForParameters | WaitingForFrame | CollectingFrame

  /** A callback invocation: onFrameComplete or onParameterSetsReceived. */
  datatype Event =
    | FrameComplete(frameData: seq<byte>, isKeyFrame: bool, frameNumber: int)
    | ParameterSetsReceived(parameterSets: seq<seq<byte>>)

  /** The assembler's fields. */
  datatype Snapshot = Snapshot(
    state: FrameState,
    currentFrame: seq<byte>,
    parameterSets: seq<seq<byte>>,
    hasSps: bool,
    hasPps: bool,
    frameNumber: int)

  /** The fields as a new assembler (or reset) sets them. */
  const Initial := Snapshot(WaitingForParameters, [], [], false, false, 0)

  /** The fields after an operation, and the callbacks it made. */
  datatype Outcome = Outcome(after: Snapshot, events: seq<Event>)

  // ---------------------------------------------------------------------------
  // Fixed-position start-code tests

  /** getStartCodeLength: 4 for 00 00 00 01 (checked first), 3 for 00 00 01, 0 otherwise. */
  function StartCodeLength(data: seq<byte>, pos: nat): (n: int)
    ensures n == 4 <==> Is4At(data, pos)
    ensures n == 3 <==> Is3At(data, pos)
    ensures n == 0 <==> !Is3At(data, pos) && !Is4At(data, pos)
  {
    if pos + 3 < |data| && data[pos] == 0x00 && data[pos + 1] == 0x00 && data[pos + 2] == 0x00 && data[pos + 3] == 0x01 then 4
    else if pos + 2 < |data| && data[pos] == 0x00 && data[pos + 1] == 0x00 && data[pos + 2] == 0x01 then 3
    else 0
  }

  /** isStartCode: where four bytes remain only the four-byte code is recognised. */
  predicate IsStartCode(data: seq<byte>, pos: nat): (b: bool)
    ensures pos + 3 < |data| ==> (b <==> Is4At(data, pos))
    ensures pos + 3 >= |data| ==> (b <==> Is3At(data, pos))
  {
    if pos + 3 < |data| then
      data[pos] == 0x00 && data[pos + 1] == 0x00 && data[pos + 2] == 0x00 && data[pos + 3] == 0x01
    else if pos + 2 < |data| then
      data[pos] == 0x00 && data[pos + 1] == 0x00 && data[pos + 2] == 0x01
    else false
  }

  /**
   * The type processNALU dispatches on: None when it returns early (fewer than
   * five bytes, or no start code at the front).  updateParameterSet's removeIf
   * test is the same check.
   */
  function HeaderType(nalu: seq<byte>): (t: Option<int>)
    ensures t.Some? <==> |nalu| >= 5 && (Is3At(nalu, 0) || Is4At(nalu, 0))
    ensures t.Some? && Is4At(nalu, 0) ==> t.value == NalType(nalu[4])
    ensures t.Some? && Is3At(nalu, 0) ==> t.value == NalType(nalu[3])
  {
    if |nalu| < 5 then None
    else
      var n := StartCodeLength(nalu, 0);
      if n == 0 then None else Some(NalType(nalu[n]))
  }

  // ---------------------------------------------------------------------------
  // Frame classification

  /** The scan of isKeyFrameData finds an IDR header after a start code at i. */
  predicate KeyAt(d: seq<byte>, i: nat)
  {
    IsStartCode(d, i) && i + StartCodeLength(d, i) < |d| && NalType(d[i + StartCodeLength(d, i)]) == NALU_TYPE_IDR
  }

  /** isKeyFrameData: some position below len - 4 holds a start code followed by an IDR header. */
  predicate IsKeyFrame(d: seq<byte>)
  {
    exists i: nat :: i < |d| - 4 && KeyAt(d, i)
  }

  /** A four-byte start code at i, below len - 4, followed by a header of type t (isValidH264Frame's scan). */
  predicate TypeAfterCode(d: seq<byte>, t: int)
  {
    exists i: nat :: i < |d| - 4 && Is4At(d, i) && NalType(d[i + 4]) == t
  }

  predicate HasFourByteCode(d: seq<byte>)
  {
    exists i: nat :: i < |d| - 4 && Is4At(d, i)
  }

  /** isValidH264Frame's verdict, flag by flag as the source combines them. */
  predicate ValidFrame(d: seq<byte>)
  {
    var hasSlice := TypeAfterCode(d, NALU_TYPE_IDR) || TypeAfterCode(d, NALU_TYPE_NON_IDR);
    |d| >= 10 && HasFourByteCode(d) && hasSlice
    && (TypeAfterCode(d, NALU_TYPE_SPS) || TypeAfterCode(d, NALU_TYPE_PPS) || hasSlice)
  }

  /** isKeyFrameData sees only four-byte codes: its scan stops four bytes before the end. */
  lemma {:induction false} KeyFrameSeesFourByteCodesOnly(d: seq<byte>)
    ensures IsKeyFrame(d) <==> TypeAfterCode(d, NALU_TYPE_IDR)
  {
    if IsKeyFrame(d) {
      var i: nat :| i < |d| - 4 && KeyAt(d, i);
      assert Is4At(d, i) && StartCodeLength(d, i) == 4;
    }
    if TypeAfterCode(d, NALU_TYPE_IDR) {
      var i: nat :| i < |d| - 4 && Is4At(d, i) && NalType(d[i + 4]) == NALU_TYPE_IDR;
      assert KeyAt(d, i);
    }
  }

  /** An IDR unit behind a three-byte code is not recognised as a key frame. */
  lemma {:induction false} ThreeByteIdrIsNotKeyFrame()
    ensures HeaderType([0, 0, 1, 0x65, 0x88]) == Some(NALU_TYPE_IDR)
    ensures !IsKeyFrame([0, 0, 1, 0x65, 0x88])
  {
  }

  /** isValidH264Frame holds exactly for frames of at least 10 bytes with a slice header after a four-byte code. */
  lemma {:induction false} ValidFrameIff(d: seq<byte>)
    ensures ValidFrame(d) <==> |d| >= 10 && (TypeAfterCode(d, NALU_TYPE_IDR) || TypeAfterCode(d, NALU_TYPE_NON_IDR))
  {
    if TypeAfterCode(d, NALU_TYPE_IDR) {
      var i: nat :| i < |d| - 4 && Is4At(d, i) && NalType(d[i + 4]) == NALU_TYPE_IDR;
      assert HasFourByteCode(d);
    }
    if TypeAfterCode(d, NALU_TYPE_NON_IDR) {
      var i: nat :| i < |d| - 4 && Is4At(d, i) && NalType(d[i + 4]) == NALU_TYPE_NON_IDR;
      assert HasFourByteCode(d);
    }
  }

  /** isKeyFrameData: the scanning loop, proved to decide IsKeyFrame. */
  method IsKeyFrameData(frameData: seq<byte>) returns (isKey: bool)
    ensures isKey == IsKeyFrame(frameData)
  {
    var i: nat := 0;
    while i < |frameData| - 4
      invariant forall j: nat :: j < i && j < |frameData| - 4 ==> !KeyAt(frameData, j)
    {
      if IsStartCode(frameData, i) {
        var startCodeLen := StartCodeLength(frameData, i);
        if i + startCodeLen < |frameData| {
          var naluType := NalType(frameData[i + startCodeLen]);
          if naluType == NALU_TYPE_IDR {
            assert KeyAt(frameData, i);
            return true;
          }
        }
      }
      i := i + 1;
    }
    return false;
  }

  /** isValidH264Frame: the scanning loop over four flags, proved to decide ValidFrame. */
  method IsValidH264Frame(frameData: seq<byte>) returns (valid: bool)
    ensures valid == ValidFrame(frameData)
  {
    if |frameData| < 10 {
      return false;
    }
    var hasStartCode, hasSps, hasPps, hasSlice := false, false, false, false;
    var i: nat := 0;
    while i < |frameData| - 4
      invariant i <= |frameData| - 4
      invariant hasStartCode <==> exists j: nat :: j < i && Is4At(frameData, j)
      invariant hasSps <==> exists j: nat :: j < i && Is4At(frameData, j) && NalType(frameData[j + 4]) == NALU_TYPE_SPS
      invariant hasPps <==> exists j: nat :: j < i && Is4At(frameData, j) && NalType(frameData[j + 4]) == NALU_TYPE_PPS
      invariant hasSlice <==> exists j: nat :: j < i && Is4At(frameData, j)
                                && (NalType(frameData[j + 4]) == NALU_TYPE_IDR || NalType(frameData[j + 4]) == NALU_TYPE_NON_IDR)
    {
      if frameData[i] == 0x00 && frameData[i + 1] == 0x00 && frameData[i + 2] == 0x00 && frameData[i + 3] == 0x01 {
        assert Is4At(frameData, i);
        hasStartCode := true;
        if i + 4 < |frameData| {
          var naluType := NalType(frameData[i + 4]);
          if naluType == NALU_TYPE_SPS {
            hasSps := true;
          } else if naluType == NALU_TYPE_PPS {
            hasPps := true;
          } else if naluType == NALU_TYPE_IDR || naluType == NALU_TYPE_NON_IDR {
            hasSlice := true;
          }
        }
      } else {
        assert !Is4At(frameData, i);
      }
      i := i + 1;
    }
    valid := hasStartCode && hasSlice && (hasSps || hasPps || hasSlice);
  }

  // ---------------------------------------------------------------------------
  // The parameter-set list

  /** The entries removeIf keeps when called with type t. */
  function RemoveType(sets: seq<seq<byte>>, t: int): (r: seq<seq<byte>>)
    ensures |r| <= |sets|
  {
    if sets == [] then []
    else RemoveType(sets[..|sets| - 1], t) + (if HeaderType(sets[|sets| - 1]) == Some(t) then [] else [sets[|sets| - 1]])
  }

  /** The entries of type t, in list order. */
  function Only(sets: seq<seq<byte>>, t: int): (r: seq<seq<byte>>)
    ensures |r| <= |sets|
  {
    if sets == [] then []
    else Only(sets[..|sets| - 1], t) + (if HeaderType(sets[|sets| - 1]) == Some(t) then [sets[|sets| - 1]] else [])
  }

  /** updateParameterSet: drop the entries of the same type, append the new one. */
  function UpdateParameterSets(sets: seq<seq<byte>>, paramData: seq<byte>, naluType: int): seq<seq<byte>>
  {
    RemoveType(sets, naluType) + [paramData]
  }

  lemma {:induction false} OnlyAppend(xs: seq<seq<byte>>, ys: seq<seq<byte>>, t: int)
    ensures Only(xs + ys, t) == Only(xs, t) + Only(ys, t)
    decreases |ys|
  {
    if ys == [] {
      assert xs + ys == xs;
    } else {
      assert (xs + ys)[..|xs + ys| - 1] == xs + ys[..|ys| - 1];
      OnlyAppend(xs, ys[..|ys| - 1], t);
    }
  }

  lemma {:induction false} RemoveTypeAppend(xs: seq<seq<byte>>, ys: seq<seq<byte>>, t: int)
    ensures RemoveType(xs + ys, t) == RemoveType(xs, t) + RemoveType(ys, t)
    decreases |ys|
  {
    if ys == [] {
      assert xs + ys == xs;
    } else {
      assert (xs + ys)[..|xs + ys| - 1] == xs + ys[..|ys| - 1];
      RemoveTypeAppend(xs, ys[..|ys| - 1], t);
    }
  }

  /** After the removal no entry of type t is left, and the entries of every other type are untouched. */
  lemma {:induction false} RemoveTypeOnly(sets: seq<seq<byte>>, t: int, u: int)
    ensures Only(RemoveType(sets, t), t) == []
    ensures u != t ==> Only(RemoveType(sets, t), u) == Only(sets, u)
    ensures RemoveType(RemoveType(sets, t), t) == RemoveType(sets, t)
    decreases |sets|
  {
    if sets != [] {
      var init, last := sets[..|sets| - 1], sets[|sets| - 1];
      RemoveTypeOnly(init, t, u);
      var kept := if HeaderType(last) == Some(t) then [] else [last];
      OnlyAppend(RemoveType(init, t), kept, t);
      OnlyAppend(RemoveType(init, t), kept, u);
      RemoveTypeAppend(RemoveType(init, t), kept, t);
    }
  }

  /**
   * After updateParameterSet(d, t) the list holds exactly one entry of type t,
   * d itself, at the end; all other entries stay, in their order.
   */
  lemma {:induction false} UpdateParameterSetsFacts(sets: seq<seq<byte>>, d: seq<byte>, t: int, u: int)
    requires HeaderType(d) == Some(t)
    ensures var r := UpdateParameterSets(sets, d, t);
      && Only(r, t) == [d]
      && r[|r| - 1] == d
      && RemoveType(r, t) == RemoveType(sets, t)
      && (u != t ==> Only(r, u) == Only(sets, u))
  {
    var r := UpdateParameterSets(sets, d, t);
    RemoveTypeOnly(sets, t, u);
    OnlyAppend(RemoveType(sets, t), [d], t);
    OnlyAppend(RemoveType(sets, t), [d], u);
    RemoveTypeAppend(RemoveType(sets, t), [d], t);
    assert Only([d], t) == [d] by {
      assert [d][..0] == [];
    }
    assert RemoveType([d], t) == [] by {
      assert [d][..0] == [];
    }
    assert u != t ==> Only([d], u) == [] by {
      assert [d][..0] == [];
    }
  }

  // ---------------------------------------------------------------------------
  // The assembler as functions on its fields

  /** addToCurrentFrame */
  function Append(a: Snapshot, data: seq<byte>): Snapshot
  {
    a.(currentFrame := a.currentFrame + data)
  }

  /** startNewFrame: empty the buffer, count one more frame. */
  function NewFrame(a: Snapshot): Snapshot
  {
    a.(currentFrame := [], frameNumber := a.frameNumber + 1)
  }

  /** completeCurrentFrame: report the buffer when it is not empty; nothing changes. */
  function CompleteEvents(a: Snapshot): seq<Event>
  {
    if |a.currentFrame| > 0 then [FrameComplete(a.currentFrame, IsKeyFrame(a.currentFrame), a.frameNumber)] else []
  }

  /** checkParameterSetsComplete */
  function CheckParameterSets(a: Snapshot): Outcome
  {
    if a.hasSps && a.hasPps then Outcome(a.(state := WaitingForFrame), [ParameterSetsReceived(a.parameterSets)])
    else Outcome(a, [])
  }

  /** handleSPS */
  function SpsStep(a: Snapshot, spsData: seq<byte>): Outcome
  {
    CheckParameterSets(a.(parameterSets := UpdateParameterSets(a.parameterSets, spsData, NALU_TYPE_SPS), hasSps := true))
  }

  /** handlePPS */
  function PpsStep(a: Snapshot, ppsData: seq<byte>): Outcome
  {
    CheckParameterSets(a.(parameterSets := UpdateParameterSets(a.parameterSets, ppsData, NALU_TYPE_PPS), hasPps := true))
  }

  /** handleAUD: report the buffer, start a new frame holding the delimiter. */
  function AudStep(a: Snapshot, audData: seq<byte>): Outcome
  {
    Outcome(Append(NewFrame(a), audData), CompleteEvents(a))
  }

  /** handleIDRFrame: report the buffer, start a new frame with the parameter sets and the IDR unit. */
  function IdrStep(a: Snapshot, idrData: seq<byte>): Outcome
  {
    var b := NewFrame(a);
    Outcome(Append(Append(b, Concat(b.parameterSets)), idrData).(state := CollectingFrame), CompleteEvents(a))
  }

  /** handleNonIDRFrame: report the buffer only while collecting, then start a new frame with the slice. */
  function NonIdrStep(a: Snapshot, nonIdrData: seq<byte>): Outcome
  {
    var events := if |a.currentFrame| > 0 && a.state == CollectingFrame then CompleteEvents(a) else [];
    Outcome(Append(NewFrame(a), nonIdrData).(state := CollectingFrame), events)
  }

  /** processNALU */
  function ProcessStep(a: Snapshot, naluData: seq<byte>): Outcome
  {
    match HeaderType(naluData)
    case None => Outcome(a, [])
    case Some(t) =>
      if t == NALU_TYPE_SPS then SpsStep(a, naluData)
      else if t == NALU_TYPE_PPS then PpsStep(a, naluData)
      else if t == NALU_TYPE_SEI then Outcome(Append(a, naluData), [])
      else if t == NALU_TYPE_AUD then AudStep(a, naluData)
      else if t == NALU_TYPE_IDR then IdrStep(a, naluData)
      else if t == NALU_TYPE_NON_IDR then NonIdrStep(a, naluData)
      else Outcome(Append(a, naluData), [])
  }

  /** processNALU applied to each unit in turn, collecting the callbacks. */
  function Run(a: Snapshot, nalus: seq<seq<byte>>): Outcome
  {
    if nalus == [] then Outcome(a, [])
    else
      var r := Run(a, nalus[..|nalus| - 1]);
      var s := ProcessStep(r.after, nalus[|nalus| - 1]);
      Outcome(s.after, r.events + s.events)
  }

  lemma {:induction false} RunSnoc(a: Snapshot, nalus: seq<seq<byte>>, nalu: seq<byte>)
    ensures Run(a, nalus + [nalu]).after == ProcessStep(Run(a, nalus).after, nalu).after
    ensures Run(a, nalus + [nalu]).events == Run(a, nalus).events + ProcessStep(Run(a, nalus).after, nalu).events
  {
    assert (nalus + [nalu])[..|nalus|] == nalus;
  }

  // ---------------------------------------------------------------------------
  // Properties of processNALU

  /** A unit shorter than five bytes, or without a start code at its front, changes nothing. */
  lemma {:induction false} RejectedUnitChangesNothing(a: Snapshot, d: seq<byte>)
    requires |d| < 5 || StartCodeLength(d, 0) == 0
    ensures ProcessStep(a, d) == Outcome(a, [])
  {
  }

  /**
   * The only frame ever reported is the buffer as it was before the unit,
   * under the frame number it was collected with; the frame number never
   * goes down; the parameter sets change only on SPS and PPS.
   */
  lemma {:induction false} ProcessStepFrames(a: Snapshot, d: seq<byte>)
    ensures var r := ProcessStep(a, d);
      && (forall e :: e in r.events && e.FrameComplete? ==> e == FrameComplete(a.currentFrame, IsKeyFrame(a.currentFrame), a.frameNumber))
      && |r.events| <= 1
      && a.frameNumber <= r.after.frameNumber <= a.frameNumber + 1
      && (HeaderType(d) != Some(NALU_TYPE_SPS) && HeaderType(d) != Some(NALU_TYPE_PPS) ==> r.after.parameterSets == a.parameterSets)
  {
  }

  /**
   * After an SPS or PPS the callback fires, and the state becomes
   * WAITING_FOR_FRAME, exactly when both have been seen; otherwise the state is
   * unchanged.  The buffer and frame number are untouched.
   */
  lemma {:induction false} ParameterSetSignal(a: Snapshot, d: seq<byte>)
    requires HeaderType(d) == Some(NALU_TYPE_SPS) || HeaderType(d) == Some(NALU_TYPE_PPS)
    ensures var r := ProcessStep(a, d);
      && (r.after.hasSps && r.after.hasPps ==> r.after.state == WaitingForFrame && r.events == [ParameterSetsReceived(r.after.parameterSets)])
      && (!(r.after.hasSps && r.after.hasPps) ==> r.after.state == a.state && r.events == [])
      && r.after.currentFrame == a.currentFrame && r.after.frameNumber == a.frameNumber
  {
  }

  /** The parameter-set bookkeeping: every entry is an SPS or PPS, one of each at most, matching the flags. */
  ghost predicate ParameterSetsConsistent(a: Snapshot)
  {
    && (forall p :: p in a.parameterSets ==> HeaderType(p) == Some(NALU_TYPE_SPS) || HeaderType(p) == Some(NALU_TYPE_PPS))
    && |Only(a.parameterSets, NALU_TYPE_SPS)| == (if a.hasSps then 1 else 0)
    && |Only(a.parameterSets, NALU_TYPE_PPS)| == (if a.hasPps then 1 else 0)
  }

  lemma {:induction false} TwoTypesOnly(sets: seq<seq<byte>>)
    requires forall p :: p in sets ==> HeaderType(p) == Some(NALU_TYPE_SPS) || HeaderType(p) == Some(NALU_TYPE_PPS)
    ensures |sets| == |Only(sets, NALU_TYPE_SPS)| + |Only(sets, NALU_TYPE_PPS)|
    decreases |sets|
  {
    if sets != [] {
      var init := sets[..|sets| - 1];
      assert forall p :: p in init ==> p in sets;
      TwoTypesOnly(init);
    }
  }

  lemma {:induction false} RemoveTypeSubset(sets: seq<seq<byte>>, t: int)
    ensures forall p :: p in RemoveType(sets, t) ==> p in sets
    decreases |sets|
  {
    if sets != [] {
      RemoveTypeSubset(sets[..|sets| - 1], t);
    }
  }

  /** An SPS or PPS keeps the bookkeeping: the old entry of its type is replaced by the new one. */
  lemma {:induction false} ParameterSetKeepsConsistent(a: Snapshot, d: seq<byte>, t: int, other: int)
    requires ParameterSetsConsistent(a)
    requires (t, other) == (NALU_TYPE_SPS, NALU_TYPE_PPS) || (t, other) == (NALU_TYPE_PPS, NALU_TYPE_SPS)
    requires HeaderType(d) == Some(t)
    ensures ParameterSetsConsistent(ProcessStep(a, d).after)
  {
    UpdateParameterSetsFacts(a.parameterSets, d, t, other);
    RemoveTypeSubset(a.parameterSets, t);
    var r := UpdateParameterSets(a.parameterSets, d, t);
    assert forall p :: p in r ==> p in a.parameterSets || p == d;
  }

  /** The bookkeeping holds from the start and after every unit; so the list never holds more than two entries. */
  lemma {:induction false} ParameterSetsStayConsistent(a: Snapshot, d: seq<byte>)
    requires ParameterSetsConsistent(a)
    ensures ParameterSetsConsistent(Initial)
    ensures ParameterSetsConsistent(ProcessStep(a, d).after)
    ensures |ProcessStep(a, d).after.parameterSets| <= 2
  {
    assert Initial.parameterSets == [];
    StepKeepsConsistent(a, d);
    TwoTypesOnly(ProcessStep(a, d).after.parameterSets);
  }

  lemma {:induction false} StepKeepsConsistent(a: Snapshot, d: seq<byte>)
    requires ParameterSetsConsistent(a)
    ensures ParameterSetsConsistent(ProcessStep(a, d).after)
  {
    if HeaderType(d) == Some(NALU_TYPE_SPS) {
      ParameterSetKeepsConsistent(a, d, NALU_TYPE_SPS, NALU_TYPE_PPS);
    } else if HeaderType(d) == Some(NALU_TYPE_PPS) {
      ParameterSetKeepsConsistent(a, d, NALU_TYPE_PPS, NALU_TYPE_SPS);
    } else {
      OtherUnitsKeepBookkeeping(a, d);
    }
  }

  /** A unit that is neither SPS nor PPS leaves the list and both flags as they were. */
  lemma {:induction false} OtherUnitsKeepBookkeeping(a: Snapshot, d: seq<byte>)
    requires HeaderType(d) != Some(NALU_TYPE_SPS) && HeaderType(d) != Some(NALU_TYPE_PPS)
    ensures var r := ProcessStep(a, d).after;
      r.parameterSets == a.parameterSets && r.hasSps == a.hasSps && r.hasPps == a.hasPps
  {
  }

  /**
   * On an IDR unit a non-empty buffer is reported first; the new buffer is the
   * parameter sets in list order followed by the unit; the state becomes
   * COLLECTING_FRAME and the frame number goes up by one.
   */
  lemma {:induction false} IdrStartsKeyFrame(a: Snapshot, d: seq<byte>)
    requires HeaderType(d) == Some(NALU_TYPE_IDR)
    ensures var r := ProcessStep(a, d);
      && r.events == (if a.currentFrame == [] then [] else [FrameComplete(a.currentFrame, IsKeyFrame(a.currentFrame), a.frameNumber)])
      && r.after.currentFrame == Concat(a.parameterSets) + d
      && r.after.state == CollectingFrame
      && r.after.frameNumber == a.frameNumber + 1
      && r.after.parameterSets == a.parameterSets
  {
  }

  /**
   * On a non-IDR slice the buffer is reported only when it is non-empty and
   * the state is COLLECTING_FRAME; either way the buffer becomes that slice
   * alone: a buffer collected in another state is dropped unreported.
   */
  lemma {:induction false} NonIdrReplacesBuffer(a: Snapshot, d: seq<byte>)
    requires HeaderType(d) == Some(NALU_TYPE_NON_IDR)
    ensures var r := ProcessStep(a, d);
      && (r.events != [] <==> a.currentFrame != [] && a.state == CollectingFrame)
      && r.after.currentFrame == d
      && r.after.state == CollectingFrame
      && r.after.frameNumber == a.frameNumber + 1
  {
  }

  /** SEI and unknown types only append; AUD reports the buffer and starts a frame holding itself. */
  lemma {:induction false} OtherUnits(a: Snapshot, d: seq<byte>)
    requires HeaderType(d).Some?
    ensures var t, r := HeaderType(d).value, ProcessStep(a, d);
      && (t !in {1, 5, 7, 8, 9} ==> r == Outcome(a.(currentFrame := a.currentFrame + d), []))
      && (t == NALU_TYPE_AUD ==>
            r.events == CompleteEvents(a) && r.after.currentFrame == d && r.after.frameNumber == a.frameNumber + 1
            && r.after.state == a.state)
  {
  }

  /** An AUD followed by an IDR reports a frame made of the delimiter alone. */
  lemma {:induction false} AudThenIdrReportsAudOnlyFrame(a: Snapshot, aud: seq<byte>, idr: seq<byte>)
    requires HeaderType(aud) == Some(NALU_TYPE_AUD) && HeaderType(idr) == Some(NALU_TYPE_IDR)
    ensures ProcessStep(ProcessStep(a, aud).after, idr).events
         == [FrameComplete(aud, IsKeyFrame(aud), a.frameNumber + 1)]
  {
    assert [] + aud == aud;
  }

  /** A new assembler fed SPS, PPS and IDR reports the parameter sets once, and the frame only when forced. */
  lemma {:induction false} SpsPpsIdrExample(sps: seq<byte>, pps: seq<byte>, idr: seq<byte>)
    requires HeaderType(sps) == Some(NALU_TYPE_SPS) && HeaderType(pps) == Some(NALU_TYPE_PPS)
    requires HeaderType(idr) == Some(NALU_TYPE_IDR)
    ensures var r := Run(Initial, [sps, pps, idr]);
      && r.events == [ParameterSetsReceived([sps, pps])]
      && r.after.currentFrame == sps + pps + idr
      && CompleteEvents(r.after) == [FrameComplete(sps + pps + idr, IsKeyFrame(sps + pps + idr), 1)]
  {
    var s1 := ProcessStep(Initial, sps).after;
    assert RemoveType([], NALU_TYPE_SPS) == [];
    assert s1.parameterSets == [sps] && s1.hasSps && !s1.hasPps;
    assert [sps][..0] == [];
    assert RemoveType([sps], NALU_TYPE_PPS) == [sps];
    var s2 := ProcessStep(s1, pps);
    assert s2.after.parameterSets == [sps, pps];
    assert s2.events == [ParameterSetsReceived([sps, pps])];
    assert Concat([sps, pps]) == sps + pps by {
      ConcatOne([], sps);
      ConcatOne([sps], pps);
      assert [] + [sps] == [sps] && [sps] + [pps] == [sps, pps];
      assert [] + sps == sps;
    }
    var s3 := ProcessStep(s2.after, idr);
    assert s3.events == [];
    assert s3.after.currentFrame == [] + (sps + pps) + idr;
    assert [] + (sps + pps) + idr == sps + pps + idr;
    RunSnoc(Initial, [], sps);
    RunSnoc(Initial, [sps], pps);
    RunSnoc(Initial, [sps, pps], idr);
    assert [] + [sps] == [sps] && [sps] + [pps] == [sps, pps] && [sps, pps] + [idr] == [sps, pps, idr];
  }

  /** A second SPS after both sets are known fires the callback again. */
  lemma {:induction false} RepeatedSpsSignalsAgain(a: Snapshot, sps: seq<byte>)
    requires a.hasSps && a.hasPps && HeaderType(sps) == Some(NALU_TYPE_SPS)
    ensures |ProcessStep(a, sps).events| == 1 && ProcessStep(a, sps).events[0].ParameterSetsReceived?
  {
  }

  // ---------------------------------------------------------------------------
  // getNaluTypeDescription

  const OtherPrefix: string := "其他(类型"

  /** getNaluTypeDescription: fixed labels for the six handled types, the number spelled out for any other. */
  function NaluTypeDescription(nalType: int): (text: string)
    ensures nalType !in {1, 5, 6, 7, 8, 9} ==> |text| > |OtherPrefix| && text[..|OtherPrefix|] == OtherPrefix
  {
    match nalType
    case 1 => "非IDR图像"
    case 5 => "IDR图像"
    case 6 => "SEI"
    case 7 => "SPS参数"
    case 8 => "PPS参数"
    case 9 => "访问单元分隔符"
    case _ => OtherPrefix + JavaText.IntToString(nalType) + ")"
  }

  /** Only the default label begins with the prefix's first character. */
  lemma {:induction false} DescriptionHead(t: int)
    ensures |NaluTypeDescription(t)| > 0
    ensures NaluTypeDescription(t)[0] == OtherPrefix[0] <==> t !in {1, 5, 6, 7, 8, 9}
  {
  }

  /** Different types are always described differently. */
  lemma {:induction false} NaluTypeDescriptionInjective(a: int, b: int)
    requires NaluTypeDescription(a) == NaluTypeDescription(b)
    ensures a == b
  {
    DescriptionHead(a);
    DescriptionHead(b);
    var known := {1, 5, 6, 7, 8, 9};
    if a !in known {
      var x, y := JavaText.IntToString(a), JavaText.IntToString(b);
      var sa, sb := OtherPrefix + x + ")", OtherPrefix + y + ")";
      assert sa[|OtherPrefix|..|sa| - 1] == x;
      assert sb[|OtherPrefix|..|sb| - 1] == y;
      JavaText.IntToStringInjective(a, b);
    } else {
      var d := NaluTypeDescription(a);
      assert |d| == |NaluTypeDescription(b)| && d[0] == NaluTypeDescription(b)[0];
    }
  }

  // ---------------------------------------------------------------------------
  // The class

  class Assembler {
    var currentState: FrameState
    var currentFrame: seq<byte>
    var parameterSets: seq<seq<byte>>
    var hasSps: bool
    var hasPps: bool
    var frameNumber: int

    function Model(): Snapshot
      reads this
    {
      Snapshot(currentState, currentFrame, parameterSets, hasSps, hasPps, frameNumber)
    }

    constructor ()
      ensures Model() == Initial
    {
      currentState := WaitingForParameters;
      currentFrame := [];
      parameterSets := [];
      hasSps := false;
      hasPps := false;
      frameNumber := 0;
    }

    /** processNALU */
    method ProcessNalu(naluData: seq<byte>) returns (events: seq<Event>)
      modifies this
      ensures Outcome(Model(), events) == ProcessStep(old(Model()), naluData)
    {
      if |naluData| < 5 {
        return [];
      }
      var startCodeLength := StartCodeLength(naluData, 0);
      if startCodeLength == 0 {
        return [];
      }
      var naluType := NalType(naluData[startCodeLength]);
      if naluType == NALU_TYPE_SPS {
        events := HandleSps(naluData);
      } else if naluType == NALU_TYPE_PPS {
        events := HandlePps(naluData);
      } else if naluType == NALU_TYPE_SEI {
        events := HandleSei(naluData);
      } else if naluType == NALU_TYPE_AUD {
        events := HandleAud(naluData);
      } else if naluType == NALU_TYPE_IDR {
        events := HandleIdrFrame(naluData);
      } else if naluType == NALU_TYPE_NON_IDR {
        events := HandleNonIdrFrame(naluData);
      } else {
        AddToCurrentFrame(naluData);
        events := [];
      }
    }

    method HandleSps(spsData: seq<byte>) returns (events: seq<Event>)
      modifies this
      ensures Outcome(Model(), events) == SpsStep(old(Model()), spsData)
    {
      UpdateParameterSet(spsData, NALU_TYPE_SPS);
      hasSps := true;
      events := CheckParameterSetsComplete();
    }

    method HandlePps(ppsData: seq<byte>) returns (events: seq<Event>)
      modifies this
      ensures Outcome(Model(), events) == PpsStep(old(Model()), ppsData)
    {
      UpdateParameterSet(ppsData, NALU_TYPE_PPS);
      hasPps := true;
      events := CheckParameterSetsComplete();
    }

    method HandleSei(seiData: seq<byte>) returns (events: seq<Event>)
      modifies this
      ensures Outcome(Model(), events) == Outcome(Append(old(Model()), seiData), [])
    {
      AddToCurrentFrame(seiData);
      events := [];
    }

    method HandleAud(audData: seq<byte>) returns (events: seq<Event>)
      modifies this
      ensures Outcome(Model(), events) == AudStep(old(Model()), audData)
    {
      events := CompleteCurrentFrame();
      StartNewFrame();
      AddToCurrentFrame(audData);
    }

    method HandleIdrFrame(idrData: seq<byte>) returns (events: seq<Event>)
      modifies this
      ensures Outcome(Model(), events) == IdrStep(old(Model()), idrData)
    {
      events := CompleteCurrentFrame();
      StartNewFrame();
      AddParameterSetsToFrame();
      AddToCurrentFrame(idrData);
      currentState := CollectingFrame;
    }

    method HandleNonIdrFrame(nonIdrData: seq<byte>) returns (events: seq<Event>)
      modifies this
      ensures Outcome(Model(), events) == NonIdrStep(old(Model()), nonIdrData)
    {
      events := [];
      if |currentFrame| > 0 && currentState == CollectingFrame {
        events := CompleteCurrentFrame();
      }
      StartNewFrame();
      AddToCurrentFrame(nonIdrData);
      currentState := CollectingFrame;
    }

    /** updateParameterSet: removeIf over the list, then append the new entry. */
    method UpdateParameterSet(paramData: seq<byte>, naluType: int)
      modifies this`parameterSets
      ensures parameterSets == UpdateParameterSets(old(parameterSets), paramData, naluType)
    {
      var kept := [];
      for i := 0 to |parameterSets|
        invariant kept == RemoveType(parameterSets[..i], naluType)
      {
        var param := parameterSets[i];
        assert parameterSets[..i + 1][..i] == parameterSets[..i];
        var remove := false;
        if |param| >= 5 {
          var startCodeLen := StartCodeLength(param, 0);
          if startCodeLen != 0 {
            var t := NalType(param[startCodeLen]);
            remove := t == naluType;
          }
        }
        if !remove {
          kept := kept + [param];
        }
      }
      assert parameterSets[..|parameterSets|] == parameterSets;
      parameterSets := kept + [paramData];
    }

    method CheckParameterSetsComplete() returns (events: seq<Event>)
      modifies this`currentState
      ensures Outcome(Model(), events) == CheckParameterSets(old(Model()))
    {
      events := [];
      if hasSps && hasPps {
        currentState := WaitingForFrame;
        events := [ParameterSetsReceived(parameterSets)];
      }
    }

    /** addParameterSetsToFrame: write every entry, in list order. */
    method AddParameterSetsToFrame()
      modifies this`currentFrame
      ensures currentFrame == old(currentFrame) + Concat(parameterSets)
    {
      for i := 0 to |parameterSets|
        invariant currentFrame == old(currentFrame) + Concat(parameterSets[..i])
      {
        assert parameterSets[..i + 1][..i] == parameterSets[..i];
        currentFrame := currentFrame + parameterSets[i];
      }
      assert parameterSets[..|parameterSets|] == parameterSets;
    }

    method StartNewFrame()
      modifies this`currentFrame, this`frameNumber
      ensures Model() == NewFrame(old(Model()))
    {
      currentFrame := [];
      frameNumber := frameNumber + 1;
    }

    method AddToCurrentFrame(data: seq<byte>)
      modifies this`currentFrame
      ensures Model() == Append(old(Model()), data)
    {
      currentFrame := currentFrame + data;
    }

    /** completeCurrentFrame: reports the buffer and changes nothing (the buffer is not cleared). */
    method CompleteCurrentFrame() returns (events: seq<Event>)
      ensures events == CompleteEvents(Model())
    {
      events := [];
      if |currentFrame| > 0 {
        var frameData := currentFrame;
        var isKeyFrame := IsKeyFrameData(frameData);
        events := [FrameComplete(frameData, isKeyFrame, frameNumber)];
      }
    }

    /** forceCompleteFrame: the same report; calling it twice reports the same frame twice. */
    method ForceCompleteFrame() returns (events: seq<Event>)
      ensures events == CompleteEvents(Model())
    {
      events := [];
      if |currentFrame| > 0 {
        events := CompleteCurrentFrame();
      }
    }

    method Reset()
      modifies this
      ensures Model() == Initial
    {
      currentState := WaitingForParameters;
      currentFrame := [];
      parameterSets := [];
      hasSps := false;
      hasPps := false;
      frameNumber := 0;
    }
  }

  /** Forcing completion twice reports the same frame twice, because completion leaves the buffer in place. */
  method ForceCompleteTwice(a: Assembler) returns (e1: seq<Event>, e2: seq<Event>)
    ensures e1 == e2
    ensures a.currentFrame != [] ==> e1 == [FrameComplete(a.currentFrame, IsKeyFrame(a.currentFrame), a.frameNumber)]
    ensures a.currentFrame == [] ==> e1 == []
  {
    e1 := a.ForceCompleteFrame();
    e2 := a.ForceCompleteFrame();
  }
}
