/**
 * The older receiver (package com.example).  It detects frame boundaries with
 * a four-byte sliding window that persists across reads: a frame begins at the
 * 0x01 of every 00 00 00 01 in the stream and runs up to the next one; bytes
 * before the first such code belong to no frame.  Its address checks are those
 * of the newer receiver (StreamReceiver.IsValidIpAddress, IsValidPort).
 */
module LegacyReceiver {
  import opened AnnexB
  import opened Slicing
  import opened Wrappers
  import opened JavaText
  import opened FixedWidth
  import FA = FrameAssembler
  import SR = StreamReceiver

  // ---------------------------------------------------------------------------
  // The sliding-window splitter, as functions on the bytes consumed

  /** The window holds 00 00 00 01 once s[i] has been consumed. */
  predicate Det4(s: seq<byte>, i: int)
  {
    i >= 3 && Is4At(s, i - 3)
  }

  /** How many times the window has fired over s: frameCount's increase. */
  function Detections(s: seq<byte>): nat
  {
    if s == [] then 0 else Detections(s[..|s| - 1]) + (if Det4(s, |s| - 1) then 1 else 0)
  }

  /**
   * The frames collected over s, the last one still open: a detection starts a
   * new frame with the byte just consumed; any other byte is appended to the
   * open frame, or dropped when there is none yet.
   */
  function FramesOf(s: seq<byte>): seq<seq<byte>>
  {
    if s == [] then []
    else
      var f := FramesOf(s[..|s| - 1]);
      var b := s[|s| - 1];
      if Det4(s, |s| - 1) then f + [[b]]
      else if f == [] then []
      else f[..|f| - 1] + [f[|f| - 1] + [b]]
  }

  /** The four-slot window w, filled round-robin, holds the last (up to four) bytes of s, s[j] in slot j % 4. */
  ghost predicate WindowHolds(w: seq<byte>, pos: int, s: seq<byte>)
  {
    |w| == 4 && pos == |s| && forall j :: 0 <= j < pos && pos - 4 <= j ==> w[j % 4] == s[j]
  }

  lemma {:induction false} WindowSlide(w: seq<byte>, pos: int, s: seq<byte>, b: byte)
    requires WindowHolds(w, pos, s)
    ensures WindowHolds(w[pos % 4 := b], pos + 1, s + [b])
  {
    var w', s' := w[pos % 4 := b], s + [b];
    forall j | 0 <= j < pos + 1 && pos + 1 - 4 <= j
      ensures w'[j % 4] == s'[j]
    {
      if j < pos {
        assert j % 4 != pos % 4;
      }
    }
  }

  /** Reading the slots oldest first tells whether the window holds 00 00 00 01. */
  lemma {:induction false} WindowDetects(w: seq<byte>, pos: int, s: seq<byte>)
    requires WindowHolds(w, pos, s) && pos >= 1
    ensures (pos >= 4 && w[(pos - 4) % 4] == 0x00 && w[(pos - 3) % 4] == 0x00
             && w[(pos - 2) % 4] == 0x00 && w[(pos - 1) % 4] == 0x01) <==> Det4(s, pos - 1)
  {
    if pos >= 4 {
      assert w[(pos - 4) % 4] == s[pos - 4] && w[(pos - 3) % 4] == s[pos - 3];
      assert w[(pos - 2) % 4] == s[pos - 2] && w[(pos - 1) % 4] == s[pos - 1];
    }
  }

  /** What one more byte does to the frames: a detection opens a frame, any other byte extends the open one. */
  lemma {:induction false} FramesStep(s: seq<byte>, b: byte, rendered: seq<seq<byte>>, cur: seq<byte>, inFrame: bool)
    requires inFrame ==> rendered + [cur] == FramesOf(s)
    requires !inFrame ==> rendered == [] && FramesOf(s) == []
    ensures Detections(s + [b]) == Detections(s) + (if Det4(s + [b], |s|) then 1 else 0)
    ensures Det4(s + [b], |s|) && inFrame ==> FramesOf(s + [b]) == rendered + [cur] + [[b]]
    ensures Det4(s + [b], |s|) && !inFrame ==> FramesOf(s + [b]) == rendered + [[b]]
    ensures !Det4(s + [b], |s|) && inFrame ==> FramesOf(s + [b]) == rendered + [cur + [b]]
    ensures !Det4(s + [b], |s|) && !inFrame ==> FramesOf(s + [b]) == []
  {
    var t := s + [b];
    assert t[..|t| - 1] == s;
    if inFrame {
      var f := FramesOf(s);
      assert f[..|f| - 1] == rendered && f[|f| - 1] == cur;
    }
  }

  /** The splitter's variables after consuming s: the window, the frame count, the open frame and the frames rendered. */
  ghost predicate Tracks(w: seq<byte>, windowPos: int, s: seq<byte>, frameCount: int,
                         inFrame: bool, currentFrame: seq<byte>, rendered: seq<seq<byte>>)
  {
    && WindowHolds(w, windowPos, s)
    && frameCount == Detections(s)
    && (inFrame ==> currentFrame != [] && rendered + [currentFrame] == FramesOf(s))
    && (!inFrame ==> rendered == [] && FramesOf(s) == [])
  }

  /** One pass of the per-byte loop body: slide the window, react to 00 00 00 01, copy the byte into the open frame. */
  method ConsumeByte(window: array<byte>, windowPos: int, frameCount: nat, inFrame: bool,
                     currentFrame: seq<byte>, rendered: seq<seq<byte>>, b: byte, ghost consumed: seq<byte>)
    returns (windowPos': int, frameCount': nat, inFrame': bool, currentFrame': seq<byte>, rendered': seq<seq<byte>>)
    requires Tracks(window[..], windowPos, consumed, frameCount, inFrame, currentFrame, rendered)
    modifies window
    ensures Tracks(window[..], windowPos', consumed + [b], frameCount', inFrame', currentFrame', rendered')
  {
    ghost var w := window[..];
    WindowSlide(w, windowPos, consumed, b);
    FramesStep(consumed, b, rendered, currentFrame, inFrame);
    window[windowPos % 4] := b;
    assert window[..] == w[windowPos % 4 := b];
    windowPos' := windowPos + 1;
    WindowDetects(window[..], windowPos', consumed + [b]);
    frameCount', inFrame', currentFrame', rendered' := frameCount, inFrame, currentFrame, rendered;
    if windowPos' >= 4 && window[(windowPos' - 4) % 4] == 0x00 && window[(windowPos' - 3) % 4] == 0x00
       && window[(windowPos' - 2) % 4] == 0x00 && window[(windowPos' - 1) % 4] == 0x01 {
      frameCount' := frameCount' + 1;
      if inFrame' && |currentFrame'| > 0 {
        rendered' := rendered' + [currentFrame'];
      }
      currentFrame' := [];
      inFrame' := true;
      assert Det4(consumed + [b], |consumed|);
      assert rendered' == FramesOf(consumed);
      assert currentFrame' + [b] == [b];
    } else {
      assert !Det4(consumed + [b], |consumed|);
    }
    if inFrame' {
      currentFrame' := currentFrame' + [b];
    }
  }

  /** The splitter's loop over the reads (the socket's read results up to end of stream). */
  method ReceiveH264Stream(chunks: seq<seq<byte>>) returns (rendered: seq<seq<byte>>, frameCount: nat)
    ensures rendered == FramesOf(Concat(chunks))
    ensures frameCount == Detections(Concat(chunks))
  {
    var window := new byte[4];
    var windowPos := 0;
    var currentFrame: seq<byte> := [];
    var inFrame := false;
    rendered := [];
    frameCount := 0;
    ghost var consumed: seq<byte> := [];
    for c := 0 to |chunks|
      invariant consumed == Concat(chunks[..c])
      invariant Tracks(window[..], windowPos, consumed, frameCount, inFrame, currentFrame, rendered)
    {
      var buffer := chunks[c];
      ConcatOne(chunks[..c], buffer);
      assert chunks[..c + 1] == chunks[..c] + [buffer];
      if |buffer| > 0 {
        for i := 0 to |buffer|
          invariant consumed == Concat(chunks[..c]) + buffer[..i]
          invariant Tracks(window[..], windowPos, consumed, frameCount, inFrame, currentFrame, rendered)
        {
          assert buffer[..i + 1] == buffer[..i] + [buffer[i]];
          windowPos, frameCount, inFrame, currentFrame, rendered :=
            ConsumeByte(window, windowPos, frameCount, inFrame, currentFrame, rendered, buffer[i], consumed);
          consumed := consumed + [buffer[i]];
        }
        assert buffer[..|buffer|] == buffer;
      } else {
        assert Concat(chunks[..c]) + buffer == Concat(chunks[..c]);
      }
    }
    assert chunks[..|chunks|] == chunks;
    if inFrame && |currentFrame| > 0 {
      rendered := rendered + [currentFrame];
    }
  }

  // ---------------------------------------------------------------------------
  // Properties of the frames

  /** One frame per detection, each starting with the 0x01 that closed its start code. */
  lemma {:induction false} FramesStartWithOne(s: seq<byte>)
    ensures |FramesOf(s)| == Detections(s)
    ensures forall k :: 0 <= k < |FramesOf(s)| ==> |FramesOf(s)[k]| >= 1 && FramesOf(s)[k][0] == 0x01
    decreases |s|
  {
    if s != [] {
      FramesStartWithOne(s[..|s| - 1]);
    }
  }

  /** The frames, laid end to end, are a suffix of the stream. */
  lemma {:induction false} FramesAreSuffix(s: seq<byte>)
    ensures |Concat(FramesOf(s))| <= |s|
    ensures Concat(FramesOf(s)) == s[|s| - |Concat(FramesOf(s))|..]
    decreases |s|
  {
    if s != [] {
      var init, b := s[..|s| - 1], s[|s| - 1];
      var f := FramesOf(init);
      FramesAreSuffix(init);
      var n := |init| - |Concat(f)|;
      assert s[n..] == init[n..] + [b];
      if Det4(s, |s| - 1) {
        ConcatOne(f, [b]);
      } else if f != [] {
        var g := f[..|f| - 1];
        var last := f[|f| - 1];
        assert f == g + [last];
        ConcatOne(g, last);
        ConcatOne(g, last + [b]);
      }
    }
  }

  /** Where the frames begin: the end of the stream when there are none. */
  function FramesStart(s: seq<byte>): (n: int)
    ensures 0 <= n <= |s|
  {
    FramesAreSuffix(s);
    |s| - |Concat(FramesOf(s))|
  }

  /** No detection happens before the frames begin, and they begin at one when there are any. */
  lemma {:induction false} FramesBeginAtFirstDetection(s: seq<byte>)
    ensures forall i :: 0 <= i < FramesStart(s) ==> !Det4(s, i)
    ensures FramesOf(s) != [] ==> Det4(s, FramesStart(s))
    decreases |s|
  {
    if s != [] {
      var init, b := s[..|s| - 1], s[|s| - 1];
      var f := FramesOf(init);
      FramesBeginAtFirstDetection(init);
      FramesSuffixStep(s);
      forall i | 0 <= i < |init|
        ensures Det4(s, i) <==> Det4(init, i)
      {
      }
    }
  }

  /** How the start of the frames moves by one byte: it stays put unless there are no frames yet and none opens. */
  lemma {:induction false} FramesSuffixStep(s: seq<byte>)
    requires s != []
    ensures var init := s[..|s| - 1];
      FramesStart(s) == if FramesOf(init) == [] && !Det4(s, |s| - 1) then |s| else FramesStart(init)
  {
    var init, b := s[..|s| - 1], s[|s| - 1];
    var f := FramesOf(init);
    if Det4(s, |s| - 1) {
      ConcatOne(f, [b]);
    } else if f != [] {
      var g := f[..|f| - 1];
      var last := f[|f| - 1];
      assert f == g + [last];
      ConcatOne(g, last);
      ConcatOne(g, last + [b]);
    }
  }

  /** The last frame is the stream from its start on, and begins with 0x01. */
  lemma {:induction false} LastFrameIsSuffix(s: seq<byte>)
    requires FramesOf(s) != []
    ensures var last := FramesOf(s)[|FramesOf(s)| - 1];
      && 1 <= |last| <= |s| && last == s[|s| - |last|..] && last[0] == 0x01
  {
    var f := FramesOf(s);
    FramesAreSuffix(s);
    FramesStartWithOne(s);
    ConcatOne(f[..|f| - 1], f[|f| - 1]);
    assert f == f[..|f| - 1] + [f[|f| - 1]];
  }

  /** A frame closed by a four-byte code: it ends with the code's three zero bytes. */
  predicate EndsWithZeros(frame: seq<byte>)
  {
    |frame| >= 4 && frame[|frame| - 3..] == [0, 0, 0]
  }

  /** When a detection closes the open frame, that frame ends with the code's three zeros. */
  lemma {:induction false} ClosingFrameEndsWithZeros(s: seq<byte>)
    requires s != [] && Det4(s, |s| - 1) && FramesOf(s[..|s| - 1]) != []
    ensures var f := FramesOf(s[..|s| - 1]); EndsWithZeros(f[|f| - 1])
  {
    var init := s[..|s| - 1];
    var f := FramesOf(init);
    LastFrameIsSuffix(init);
    var last := f[|f| - 1];
    var n := |init|;
    var q := n - |last|;
    assert init[n - 3] == 0 && init[n - 2] == 0 && init[n - 1] == 0 by {
      assert Is4At(s, n - 3);
    }
    assert init[q] == last[0] == 0x01;
    assert q <= n - 4;
    var z := init[n - 3..];
    assert z == [0, 0, 0];
    assert last[|last| - 3..] == z;
  }

  /** Every frame but the last ends with the three zero bytes of the code that closed it. */
  lemma {:induction false} ClosedFramesEndWithZeros(s: seq<byte>)
    ensures forall k :: 0 <= k < |FramesOf(s)| - 1 ==> EndsWithZeros(FramesOf(s)[k])
    decreases |s|
  {
    if s != [] {
      var init, b := s[..|s| - 1], s[|s| - 1];
      var f, g := FramesOf(init), FramesOf(s);
      ClosedFramesEndWithZeros(init);
      if Det4(s, |s| - 1) {
        assert g == f + [[b]];
        if f != [] {
          ClosingFrameEndsWithZeros(s);
        }
        forall k | 0 <= k < |g| - 1
          ensures EndsWithZeros(g[k])
        {
          assert g[k] == f[k];
        }
      } else if f != [] {
        assert g == f[..|f| - 1] + [f[|f| - 1] + [b]];
        forall k | 0 <= k < |g| - 1
          ensures EndsWithZeros(g[k])
        {
          assert g[k] == f[k];
        }
      }
    }
  }

  /** Three-byte start codes never fire the window. */
  lemma {:induction false} ThreeByteCodesIgnored()
    ensures Detections([0x41, 0, 0, 1, 0x65]) == 0
    ensures FramesOf([0x41, 0, 0, 1, 0x65]) == []
  {
    var s: seq<byte> := [0x41, 0, 0, 1, 0x65];
    assert s[..1][..0] == [];
    assert s[..2][..1] == s[..1] && s[..3][..2] == s[..2] && s[..4][..3] == s[..3] && s[..4] == s[..|s| - 1];
    assert FramesOf(s[..1]) == [] && Detections(s[..1]) == 0;
    assert FramesOf(s[..2]) == [] && Detections(s[..2]) == 0;
    assert FramesOf(s[..3]) == [] && Detections(s[..3]) == 0;
    assert !Det4(s[..4], 3);
    assert FramesOf(s[..4]) == [] && Detections(s[..4]) == 0;
  }

  /** A code split across two reads is still found: the window outlives the read. */
  lemma {:induction false} CodeAcrossReads()
    ensures FramesOf(Concat([[0x41, 0, 0], [0, 1, 0x65]])) == [[1, 0x65]]
  {
    var s: seq<byte> := [0x41, 0, 0, 0, 1, 0x65];
    assert Concat([[0x41, 0, 0], [0, 1, 0x65]]) == s by {
      var parts: seq<seq<byte>> := [[0x41, 0, 0], [0, 1, 0x65]];
      assert parts[..1] == [parts[0]] && parts[..1][..0] == [];
      assert Concat(parts[..1]) == [0x41, 0, 0];
    }
    assert s[..1][..0] == [];
    assert s[..2][..1] == s[..1] && s[..3][..2] == s[..2] && s[..4][..3] == s[..3];
    assert s[..5][..4] == s[..4] && s[..5] == s[..|s| - 1];
    assert FramesOf(s[..1]) == [];
    assert FramesOf(s[..2]) == [];
    assert FramesOf(s[..3]) == [];
    assert !Det4(s[..4], 3);
    assert FramesOf(s[..4]) == [];
    assert Det4(s[..5], 4);
    assert FramesOf(s[..5]) == [[1]];
    assert !Det4(s, 5);
    var f := FramesOf(s[..5]);
    assert f[0] + [0x65] == [1, 0x65];
    assert f[..0] == [];
    assert f[..0] + [f[0] + [0x65]] == [[1, 0x65]];
  }

  // ---------------------------------------------------------------------------
  // renderFrame's header parse

  /** getStartCodeLength, three-byte code checked first. */
  function StartCodeLength(data: seq<byte>, pos: nat): (n: int)
    ensures n == 3 <==> Is3At(data, pos)
    ensures n == 4 <==> Is4At(data, pos)
    ensures n == 0 <==> !Is3At(data, pos) && !Is4At(data, pos)
  {
    if pos + 2 < |data| && data[pos] == 0x00 && data[pos + 1] == 0x00 && data[pos + 2] == 0x01 then 3
    else if pos + 3 < |data| && data[pos] == 0x00 && data[pos + 1] == 0x00 && data[pos + 2] == 0x00 && data[pos + 3] == 0x01 then 4
    else 0
  }

  /** Checking the three-byte code first or last makes no difference: the two never match at the same place. */
  lemma {:induction false} StartCodeLengthOrderIrrelevant(data: seq<byte>, pos: nat)
    ensures StartCodeLength(data, pos) == FA.StartCodeLength(data, pos)
  {
  }

  /** The type renderFrame logs: the byte after the start code, or None when the frame has no byte there. */
  function RenderedNalType(frameData: seq<byte>): Option<int>
  {
    var startCodeLen := StartCodeLength(frameData, 0);
    if |frameData| > startCodeLen then Some(NalType(frameData[startCodeLen])) else None
  }

  /** Frames from the window begin with 0x01, so no start code is seen and the logged type is always 1. */
  lemma {:induction false} RenderedTypeIsAlwaysOne(s: seq<byte>, k: int)
    requires 0 <= k < |FramesOf(s)|
    ensures StartCodeLength(FramesOf(s)[k], 0) == 0
    ensures RenderedNalType(FramesOf(s)[k]) == Some(1)
  {
    FramesStartWithOne(s);
  }

  /** getNaluTypeDescription (this copy has no label for type 9). */
  function NaluTypeDescription(nalType: int): (text: string)
  {
    match nalType
    case 1 => "非IDR图像"
    case 5 => "IDR图像"
    case 6 => "SEI"
    case 7 => "SPS参数"
    case 8 => "PPS参数"
    case _ => "其他"
  }

  /** The labels agree with the assembler's for types 1, 5, 6, 7 and 8; every other type is "其他". */
  lemma {:induction false} DescriptionAgreesWithAssembler(t: int)
    ensures t in {1, 5, 6, 7, 8} ==> NaluTypeDescription(t) == FA.NaluTypeDescription(t)
    ensures t !in {1, 5, 6, 7, 8} <==> NaluTypeDescription(t) == "其他"
    ensures NaluTypeDescription(9) != FA.NaluTypeDescription(9)
  {
  }

  // ---------------------------------------------------------------------------
  // Command-line arguments

  datatype Launch =
    | Gui
    | AutoConnect(host: string, port: int)
    | PortNotNumeric
    | BadAddress(host: string)
    | BadPort(port: int)
    | WrongArgumentCount

  /** main: no arguments opens the window; two are host and port, the port parsed before the host is checked. */
  function MainOutcome(args: seq<string>): Launch
  {
    if |args| == 2 then
      var host := Trim(args[0]);
      match ParseInt(Trim(args[1]))
      case None => PortNotNumeric
      case Some(port) =>
        if !SR.IsValidIpAddress(host) then BadAddress(host)
        else if !SR.IsValidPort(port) then BadPort(port)
        else AutoConnect(host, port)
    else if |args| == 0 then Gui
    else WrongArgumentCount
  }

  /**
   * Only zero or two arguments start the program; it connects exactly when the
   * trimmed host is a valid address and the trimmed port parses into 1..65535.
   */
  lemma {:induction false} MainAccepts(args: seq<string>)
    ensures MainOutcome(args) == Gui <==> |args| == 0
    ensures MainOutcome(args) == WrongArgumentCount <==> |args| != 0 && |args| != 2
    ensures MainOutcome(args).AutoConnect? <==>
      |args| == 2 && SR.IsValidIpAddress(Trim(args[0]))
      && ParseInt(Trim(args[1])).Some? && 1 <= ParseInt(Trim(args[1])).value <= 65535
    ensures MainOutcome(args).AutoConnect? ==>
      MainOutcome(args) == AutoConnect(Trim(args[0]), ParseInt(Trim(args[1])).value)
  {
  }

  /** A port that does not parse is reported even when the host is also bad; a bad host is reported before a port out of range. */
  lemma {:induction false} MainCheckOrder(host: string, port: string)
    ensures ParseInt(Trim(port)) == None ==> MainOutcome([host, port]) == PortNotNumeric
    ensures ParseInt(Trim(port)).Some? && !SR.IsValidIpAddress(Trim(host)) ==> MainOutcome([host, port]) == BadAddress(Trim(host))
  {
  }

  // ---------------------------------------------------------------------------
  // The window position as a Java int

  /** The window slot the source writes the n-th byte (from 0) into: windowPos % 4 with windowPos an int incremented n times. */
  function WindowSlotAsWritten(n: nat): int
  {
    TruncRem(Int32(n), 4)
  }

  /**
   * Up to 2^31 bytes the slot is n % 4, as the model uses; the int then wraps
   * to a negative value and the byte after next would be written at index -3.
   */
  lemma {:induction false} WindowSlotOverflows(n: nat)
    ensures n < 0x8000_0000 ==> WindowSlotAsWritten(n) == n % 4
    ensures WindowSlotAsWritten(0x8000_0001) == -3
  {
  }
}
