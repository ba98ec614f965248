/**
 * H264StreamReceiver (package com.LaNasil): reads an Annex-B byte stream in
 * chunks, cuts it into NAL units at start codes, hands each unit to the frame
 * assembler and renders the frames it reports.
 *
 * Each read appends the chunk to a buffer and rescans the whole buffer from
 * the initial scanner state; every unit closed by a later start code is
 * delivered, and the buffer is trimmed to begin at the last start code found.
 * The main result here (ReceivedStream) is that this per-chunk rescanning
 * delivers exactly the units a single scan of the whole stream would, so the
 * outcome does not depend on how the stream was split into reads.
 */
module StreamReceiver {
  import opened AnnexB
  import opened Slicing
  import opened Wrappers
  import opened JavaText
  import FA = FrameAssembler

  // ---------------------------------------------------------------------------
  // The unit gate

  /** isValidStartCode: a three-byte code (checked first) or a four-byte code at pos. */
  predicate IsValidStartCode(data: seq<byte>, pos: nat): (b: bool)
    ensures b <==> Is3At(data, pos) || Is4At(data, pos)
  {
    if |data| < pos + 3 then false
    else if pos + 2 < |data| && data[pos] == 0x00 && data[pos + 1] == 0x00 && data[pos + 2] == 0x01 then true
    else if pos + 3 < |data| && data[pos] == 0x00 && data[pos + 1] == 0x00 && data[pos + 2] == 0x00 && data[pos + 3] == 0x01 then true
    else false
  }

  /** processCompleteNalu's test: at least four bytes, a start code at the front, and a byte after it. */
  predicate Forwards(nalu: seq<byte>): (b: bool)
    ensures b <==> (|nalu| >= 4 && Is3At(nalu, 0)) || (|nalu| >= 5 && Is4At(nalu, 0))
  {
    |nalu| >= 4 && IsValidStartCode(nalu, 0)
    && var startCodeLen := FA.StartCodeLength(nalu, 0); startCodeLen > 0 && |nalu| > startCodeLen
  }

  /**
   * The receiver's gate is looser than the assembler's by one byte: a
   * forwarded unit is dispatched by the assembler exactly when it has at least
   * five bytes, so a four-byte unit behind a three-byte code is forwarded and
   * then ignored.
   */
  lemma {:induction false} ForwardedUnitsReachDispatch(nalu: seq<byte>)
    requires Forwards(nalu)
    ensures FA.HeaderType(nalu).Some? <==> |nalu| >= 5
    ensures |nalu| == 4 ==> forall a :: FA.ProcessStep(a, nalu) == FA.Outcome(a, [])
  {
  }

  // ---------------------------------------------------------------------------
  // What the receiver does, as functions

  /** The receiver's observable state: the assembler's fields, the frame counter and the frames rendered. */
  datatype Session = Session(assembler: FA.Snapshot, frameCount: int, rendered: seq<seq<byte>>)

  /** The frames handleCompleteFrame passes on: the reported frames that pass isValidH264Frame, in order. */
  function ValidFrames(events: seq<FA.Event>): seq<seq<byte>>
  {
    if events == [] then []
    else
      var e := events[|events| - 1];
      ValidFrames(events[..|events| - 1]) + (if e.FrameComplete? && FA.ValidFrame(e.frameData) then [e.frameData] else [])
  }

  /** The callbacks' effect: each valid frame is rendered and counted; parameter sets are only logged. */
  function Dispatch(st: Session, events: seq<FA.Event>): Session
  {
    var frames := ValidFrames(events);
    st.(frameCount := st.frameCount + |frames|, rendered := st.rendered + frames)
  }

  /** processCompleteNalu */
  function Deliver(st: Session, nalu: seq<byte>): Session
  {
    if Forwards(nalu) then
      var o := FA.ProcessStep(st.assembler, nalu);
      Dispatch(st.(assembler := o.after), o.events)
    else st
  }

  /** processCompleteNalu on each unit in turn. */
  function DeliverAll(st: Session, nalus: seq<seq<byte>>): Session
  {
    if nalus == [] then st else Deliver(DeliverAll(st, nalus[..|nalus| - 1]), nalus[|nalus| - 1])
  }

  /** The units one scan of data delivers: one per start code after the first, from the previous code up to it. */
  function Pieces(data: seq<byte>): seq<seq<byte>>
  {
    Slices(data, Starts(data))
  }

  /** processedBytes after scanning data[..n]: the last code start when at least two were found, else 0. */
  function ProcessedBefore(data: seq<byte>, n: int): (p: int)
    requires 0 <= n <= |data|
    ensures 0 <= p <= n
  {
    StartsFacts(data, n);
    var st := StartsBefore(data, n);
    if |st| >= 2 then st[|st| - 1] else 0
  }

  function Processed(data: seq<byte>): (p: int)
    ensures 0 <= p <= |data|
  {
    ProcessedBefore(data, |data|)
  }

  /** The buffer kept after a read: from processedBytes on when 0 < processedBytes < length, else all of it. */
  function Retain(cur: seq<byte>): seq<byte>
  {
    var p := Processed(cur);
    if 0 < p < |cur| then cur[p..] else cur
  }

  /** The end-of-stream flush: the retained bytes as one last unit when there are any, then forceCompleteFrame. */
  function EndOfStream(st: Session, rest: seq<byte>): Session
  {
    var flushed := if |rest| > 0 then Deliver(st, rest) else st;
    Dispatch(flushed, FA.CompleteEvents(flushed.assembler))
  }

  /** The whole session over stream s: the units a single scan delivers, then the flush of the retained tail. */
  function ReceivedStream(st: Session, s: seq<byte>): Session
  {
    EndOfStream(DeliverAll(st, Pieces(s)), s[Processed(s)..])
  }

  // ---------------------------------------------------------------------------
  // Lemmas about the functions

  lemma {:induction false} ValidFramesAppend(xs: seq<FA.Event>, ys: seq<FA.Event>)
    ensures ValidFrames(xs + ys) == ValidFrames(xs) + ValidFrames(ys)
    decreases |ys|
  {
    if ys == [] {
      assert xs + ys == xs;
    } else {
      assert (xs + ys)[..|xs + ys| - 1] == xs + ys[..|ys| - 1];
      ValidFramesAppend(xs, ys[..|ys| - 1]);
    }
  }

  lemma {:induction false} DeliverAllSnoc(st: Session, nalus: seq<seq<byte>>, nalu: seq<byte>)
    ensures DeliverAll(st, nalus + [nalu]) == Deliver(DeliverAll(st, nalus), nalu)
  {
    assert (nalus + [nalu])[..|nalus|] == nalus;
  }

  lemma {:induction false} DeliverAllAppend(st: Session, xs: seq<seq<byte>>, ys: seq<seq<byte>>)
    ensures DeliverAll(st, xs + ys) == DeliverAll(DeliverAll(st, xs), ys)
    decreases |ys|
  {
    if ys == [] {
      assert xs + ys == xs;
    } else {
      var ys' := ys[..|ys| - 1];
      assert xs + ys == (xs + ys') + [ys[|ys| - 1]];
      DeliverAllSnoc(st, xs + ys', ys[|ys| - 1]);
      DeliverAllAppend(st, xs, ys');
      DeliverAllSnoc(DeliverAll(st, xs), ys', ys[|ys| - 1]);
    }
  }

  /**
   * The frame counter goes up by exactly the number of frames rendered, and
   * only frames passing isValidH264Frame are rendered.
   */
  lemma {:induction false} CountsRenderedFrames(st: Session, nalus: seq<seq<byte>>)
    ensures |st.rendered| <= |DeliverAll(st, nalus).rendered|
    ensures DeliverAll(st, nalus).frameCount - st.frameCount == |DeliverAll(st, nalus).rendered| - |st.rendered|
    ensures DeliverAll(st, nalus).rendered[..|st.rendered|] == st.rendered
    ensures forall k :: |st.rendered| <= k < |DeliverAll(st, nalus).rendered| ==> FA.ValidFrame(DeliverAll(st, nalus).rendered[k])
    decreases |nalus|
  {
    if nalus != [] {
      var mid := DeliverAll(st, nalus[..|nalus| - 1]);
      var nalu := nalus[|nalus| - 1];
      CountsRenderedFrames(st, nalus[..|nalus| - 1]);
      var r := Deliver(mid, nalu);
      assert r == DeliverAll(st, nalus);
      if Forwards(nalu) {
        var events := FA.ProcessStep(mid.assembler, nalu).events;
        ValidFramesOnly(events);
        assert r.rendered == mid.rendered + ValidFrames(events);
        assert r.rendered[..|mid.rendered|] == mid.rendered;
        assert mid.rendered[..|st.rendered|] == st.rendered;
        forall k | |st.rendered| <= k < |r.rendered|
          ensures FA.ValidFrame(r.rendered[k])
        {
          if k >= |mid.rendered| {
            assert r.rendered[k] == ValidFrames(events)[k - |mid.rendered|];
          } else {
            assert r.rendered[k] == mid.rendered[k];
          }
        }
      }
    }
  }

  lemma {:induction false} ValidFramesOnly(events: seq<FA.Event>)
    ensures forall k :: 0 <= k < |ValidFrames(events)| ==> FA.ValidFrame(ValidFrames(events)[k])
    decreases |events|
  {
    if events != [] {
      ValidFramesOnly(events[..|events| - 1]);
    }
  }

  /** processedBytes is 0 or the start of a code strictly inside the buffer, past its first three bytes. */
  lemma {:induction false} ProcessedInside(data: seq<byte>)
    ensures 0 <= Processed(data) <= |data|
    ensures Processed(data) > 0 <==> |Starts(data)| >= 2
    ensures Processed(data) > 0 ==> 3 <= Processed(data) < |data| && StartCodeAt(data, Processed(data))
  {
    StartsFacts(data, |data|);
    var st := Starts(data);
    if |st| >= 2 {
      assert FoundBefore(data, st[|st| - 1], |data|);
      assert st[0] + 3 <= st[|st| - 1];
    }
  }

  /** Each delivered unit begins with the start code it was cut at and runs up to the next one. */
  lemma {:induction false} PieceBeginsWithStartCode(data: seq<byte>, k: int)
    requires 0 <= k < |Pieces(data)|
    ensures 0 <= Starts(data)[k] < Starts(data)[k + 1] <= |data|
    ensures Pieces(data)[k] == data[Starts(data)[k]..Starts(data)[k + 1]]
    ensures IsValidStartCode(Pieces(data)[k], 0)
  {
    var st := Starts(data);
    StartsFacts(data, |data|);
    SlicesAt(data, st, k);
    var x, y := st[k], st[k + 1];
    assert FoundBefore(data, x, |data|) && x + 3 <= y;
    var p := data[x..y];
    if Is4At(data, x) {
      assert FoundBefore(data, y, |data|);
      assert data[y] == 0 && data[x + 3] == 1;
      assert Is4At(p, 0);
    } else {
      assert Is3At(p, 0);
    }
  }

  /** The delivered units, laid end to end, are the stream from its first start code to its last. */
  lemma {:induction false} PiecesTile(data: seq<byte>)
    requires |Starts(data)| >= 1
    ensures 0 <= Starts(data)[0] <= Starts(data)[|Starts(data)| - 1] <= |data|
    ensures Concat(Pieces(data)) == data[Starts(data)[0]..Starts(data)[|Starts(data)| - 1]]
  {
    StartsOrdered(data);
    SlicesTile(data, Starts(data));
  }

  /**
   * Once two start codes have been read, every byte from the first code on is
   * in exactly one delivered unit or in the retained tail, in stream order.
   */
  lemma {:induction false} DeliveredAndRetainedCoverStream(data: seq<byte>)
    requires |Starts(data)| >= 2
    ensures 0 <= Starts(data)[0] <= |data|
    ensures Concat(Pieces(data)) + data[Processed(data)..] == data[Starts(data)[0]..]
  {
    var st := Starts(data);
    var first, last := st[0], st[|st| - 1];
    PiecesTile(data);
    assert Processed(data) == last;
    assert data[first..last] + data[last..] == data[first..];
  }

  /**
   * The heart of tail retention: rescanning the retained buffer plus a new
   * chunk delivers exactly the units that the longer stream has beyond those of
   * the shorter one.
   */
  lemma {:induction false} ChunkPieces(s: seq<byte>, c: seq<byte>)
    ensures 0 <= Processed(s) <= |s|
    ensures Pieces(s) + Pieces((s + c)[Processed(s)..]) == Pieces(s + c)
  {
    ProcessedInside(s);
    var t := s + c;
    var a, b := Starts(s), Starts(t);
    StartsExtend(s, c);
    if |a| < 2 {
      assert t[0..] == t;
    } else {
      var k, q := |a| - 1, Processed(s);
      StartsFacts(s, |s|);
      StartsFacts(t, |t|);
      assert b[k] == q;
      var tail := TailAfter(t, k);
      SlicesShift(t, b[k..], q);
      SlicesSplit(t, b, k);
      assert b[..k + 1] == a;
      SlicesOfPrefix(s, c, a);
    }
  }

  /** Starts(t[q..]) when q is the k-th code start of t: the codes from the k-th on, shifted by q. */
  lemma {:induction false} TailAfter(t: seq<byte>, k: int) returns (q: int)
    requires 0 <= k < |Starts(t)|
    ensures q == Starts(t)[k]
    ensures 0 <= q <= |t|
    ensures Starts(t[q..]) == Shift(Starts(t)[k..], q)
    ensures Within(Starts(t)[k..], q, |t|)
  {
    var b := Starts(t);
    q := b[k];
    StartsOrdered(t);
    StartsAreResumable(t, k);
    WithinFrom(b, k, 0, |t|);
    var u := t[q..];
    Rescan(t, q, |t| - q);
    assert StartsBefore(u, |u|) == Shift(Above(StartsBefore(t, |t|), q), q);
    AboveOfIncreasing(b, k);
  }

  /** After rescanning, the retained buffer begins where a single scan of the longer stream would keep it. */
  lemma {:induction false} ChunkRetained(s: seq<byte>, c: seq<byte>)
    ensures 0 <= Processed(s) <= |s|
    ensures Processed(s + c) == Processed(s) + Processed((s + c)[Processed(s)..])
  {
    ProcessedInside(s);
    var t := s + c;
    var a, b := Starts(s), Starts(t);
    StartsExtend(s, c);
    if |a| < 2 {
      assert t[0..] == t;
    } else {
      var k := |a| - 1;
      var q := TailAfter(t, k);
      assert b[k] == a[k];
      if |b| - k >= 2 {
        ShiftAt(b[k..], q, |b| - k - 1);
      } else {
        assert |b| == |a|;
      }
    }
  }

  /** One read: the units delivered and the new retained buffer agree with a single scan of everything read so far. */
  lemma {:induction false} ChunkStep(s: seq<byte>, c: seq<byte>)
    ensures Processed(s) <= |s| && Processed(s + c) <= |s + c|
    ensures var q := Processed(s); var cur := s[q..] + c; var p := Processed(cur);
      && cur == (s + c)[q..]
      && Pieces(s) + Pieces(cur) == Pieces(s + c)
      && Retain(cur) == (s + c)[Processed(s + c)..]
  {
    ChunkPieces(s, c);
    ChunkRetained(s, c);
    var q := Processed(s);
    var cur := s[q..] + c;
    assert cur == (s + c)[q..];
    ProcessedInside(cur);
  }

  /** One read, in the terms of the read loop's invariant. */
  lemma {:induction false} ReadStep(st: Session, s: seq<byte>, c: seq<byte>)
    ensures Processed(s) <= |s|
    ensures DeliverAll(DeliverAll(st, Pieces(s)), Pieces(s[Processed(s)..] + c)) == DeliverAll(st, Pieces(s + c))
    ensures Retain(s[Processed(s)..] + c) == (s + c)[Processed(s + c)..]
  {
    ChunkStep(s, c);
    DeliverAllAppend(st, Pieces(s), Pieces(s[Processed(s)..] + c));
  }

  /** A stream whose only start code comes after other bytes delivers nothing: the flush is refused by the gate. */
  lemma {:induction false} LeadingBytesBeforeSingleCodeAreLost()
    ensures var s: seq<byte> := [7, 0, 0, 0, 1, 0x65, 0x88];
      && Starts(s) == [1]
      && Pieces(s) == []
      && Processed(s) == 0
      && !Forwards(s[Processed(s)..])
  {
    var s: seq<byte> := [7, 0, 0, 0, 1, 0x65, 0x88];
    assert StartsBefore(s, 1) == [];
    assert StartsBefore(s, 2) == [];
    assert StartsBefore(s, 3) == [];
    assert StartsBefore(s, 4) == [];
    assert DetectAt(s, 4) && ZeroRun(s, 4) == 3;
    assert StartsBefore(s, 5) == [1];
    assert StartsBefore(s, 6) == [1];
    assert StartsBefore(s, 7) == [1];
  }

  // ---------------------------------------------------------------------------
  // Address checks

  /** isValidIpAddress: non-blank, and splitting at '.' gives four parts that each parse to 0..255. */
  predicate IsValidIpAddress(ip: string)
  {
    if Trim(ip) == [] then false
    else
      var parts := Split(ip, '.');
      |parts| == 4 && forall k :: 0 <= k < 4 ==> ParseInt(parts[k]).Some? && 0 <= ParseInt(parts[k]).value <= 255
  }

  /** isValidPort */
  predicate IsValidPort(port: int)
  {
    port > 0 && port <= 65535
  }

  /** Every dotted quad of numbers 0..255 written in decimal is accepted. */
  lemma {:induction false} DottedQuadsAreValid(a: int, b: int, c: int, d: int)
    requires 0 <= a <= 255 && 0 <= b <= 255 && 0 <= c <= 255 && 0 <= d <= 255
    ensures IsValidIpAddress(Join([IntToString(a), IntToString(b), IntToString(c), IntToString(d)], '.'))
  {
    var parts := [IntToString(a), IntToString(b), IntToString(c), IntToString(d)];
    var ip := Join(parts, '.');
    IntToStringHasNoSeparator(a, '.');
    IntToStringHasNoSeparator(b, '.');
    IntToStringHasNoSeparator(c, '.');
    IntToStringHasNoSeparator(d, '.');
    FieldsOfJoin(parts, '.');
    assert ip == parts[0] + ['.'] + Join(parts[1..], '.');
    assert '.' in ip;
    assert ip[0] > ' ' by {
      DigitsOfDigits(a);
      assert ip[0] == IntToString(a)[0];
    }
    TrimEndKeepsFirst(TrimStart(ip));
    ParseIntOfIntToString(a);
    ParseIntOfIntToString(b);
    ParseIntOfIntToString(c);
    ParseIntOfIntToString(d);
  }

  /** Accepted addresses have exactly four parts in range; blank strings are refused. */
  lemma {:induction false} ValidIpAddressParts(ip: string)
    requires IsValidIpAddress(ip)
    ensures exists i :: 0 <= i < |ip| && ip[i] > ' '
    ensures |Split(ip, '.')| == 4
    ensures forall k :: 0 <= k < 4 ==> ParseInt(Split(ip, '.')[k]).Some? && 0 <= ParseInt(Split(ip, '.')[k]).value <= 255
  {
    TrimEmptyIff(ip);
  }

  /** A string that starts with a visible character is accepted when its four parts parse into range. */
  lemma {:induction false} AcceptedByParts(ip: string)
    requires |ip| > 0 && ip[0] > ' '
    requires |Split(ip, '.')| == 4
    requires forall k :: 0 <= k < 4 ==> ParseInt(Split(ip, '.')[k]).Some? && 0 <= ParseInt(Split(ip, '.')[k]).value <= 255
    ensures IsValidIpAddress(ip)
  {
    assert TrimStart(ip) == ip;
    TrimEndKeepsFirst(ip);
  }

  /** The four parts of an address, listed, each parse to the given numbers. */
  lemma {:induction false} PartsInRange(parts: seq<string>, a: int, b: int, c: int, d: int)
    requires |parts| == 4
    requires ParseInt(parts[0]) == Some(a) && ParseInt(parts[1]) == Some(b)
    requires ParseInt(parts[2]) == Some(c) && ParseInt(parts[3]) == Some(d)
    requires 0 <= a <= 255 && 0 <= b <= 255 && 0 <= c <= 255 && 0 <= d <= 255
    ensures forall k :: 0 <= k < 4 ==> ParseInt(parts[k]).Some? && 0 <= ParseInt(parts[k]).value <= 255
  {
    forall k | 0 <= k < 4
      ensures ParseInt(parts[k]).Some? && 0 <= ParseInt(parts[k]).value <= 255
    {
      if k == 0 {
      } else if k == 1 {
      } else if k == 2 {
      } else {
        assert k == 3;
      }
    }
  }

  /** Java's split drops a trailing empty part, so a trailing dot is accepted. */
  lemma {:induction false} TrailingDotAccepted()
    ensures IsValidIpAddress("1.2.3.4.")
  {
    SplitDropsTrailing();
    var parts := Split("1.2.3.4.", '.');
    assert parts == [[DigitChar(1)], [DigitChar(2)], [DigitChar(3)], [DigitChar(4)]];
    ParseDigit(1);
    ParseDigit(2);
    ParseDigit(3);
    ParseDigit(4);
    PartsInRange(parts, 1, 2, 3, 4);
    AcceptedByParts("1.2.3.4.");
  }

  lemma {:induction false} SplitSigned()
    ensures Split("+1.2.3.4", '.') == ["+1", "2", "3", "4"]
  {
    var ip := "+1.2.3.4";
    var parts: seq<string> := ["+1", "2", "3", "4"];
    assert Join(parts[3..], '.') == "4";
    assert Join(parts[2..], '.') == "3.4";
    assert Join(parts[1..], '.') == "2.3.4";
    assert Join(parts, '.') == ip;
    FieldsOfJoin(parts, '.');
    assert ip[2] == '.';
  }

  lemma {:induction false} SignedPartsInRange(parts: seq<string>)
    requires parts == ["+1", "2", "3", "4"]
    ensures forall k :: 0 <= k < 4 ==> ParseInt(parts[k]).Some? && 0 <= ParseInt(parts[k]).value <= 255
  {
    assert parts[0][1..] == "1";
    assert AllDigits("1") && DecimalValue("1") == 1;
    assert ParseInt(parts[0]) == Some(1) && ParseInt(parts[1]) == Some(2);
    assert ParseInt(parts[2]) == Some(3) && ParseInt(parts[3]) == Some(4);
    PartsInRange(parts, 1, 2, 3, 4);
  }

  /** Integer.parseInt takes a leading sign, so a part written "+1" is accepted. */
  lemma {:induction false} SignedPartAccepted()
    ensures IsValidIpAddress("+1.2.3.4")
  {
    SplitSigned();
    SignedPartsInRange(Split("+1.2.3.4", '.'));
    AcceptedByParts("+1.2.3.4");
  }

  /** An empty part between two dots does not parse. */
  lemma {:induction false} EmptyPartRefused()
    ensures !IsValidIpAddress("1..2.3")
  {
    var ip := "1..2.3";
    var parts: seq<string> := ["1", "", "2", "3"];
    assert Join(parts[3..], '.') == "3";
    assert Join(parts[2..], '.') == "2.3";
    assert Join(parts[1..], '.') == ".2.3";
    assert Join(parts, '.') == ip;
    FieldsOfJoin(parts, '.');
    assert ip[1] == '.';
    assert Split(ip, '.') == parts;
    assert SignedDecimal("") == None;
  }

  // ---------------------------------------------------------------------------
  // The WebSocket client set

  /** A connected WebSocket client, with the outcomes of its isOpen test and of a send to it. */
  datatype Client = Client(id: int, isOpen: bool, sendOk: bool)

  /** The clients removeIf keeps: open ones whose send succeeded. */
  function Survivors(clients: seq<Client>): seq<Client>
  {
    if clients == [] then []
    else
      var c := clients[|clients| - 1];
      Survivors(clients[..|clients| - 1]) + (if c.isOpen && c.sendOk then [c] else [])
  }

  /** The clients a send is attempted on: the open ones, in order. */
  function Attempted(clients: seq<Client>): seq<Client>
  {
    if clients == [] then []
    else
      var c := clients[|clients| - 1];
      Attempted(clients[..|clients| - 1]) + (if c.isOpen then [c] else [])
  }

  /**
   * Every open client gets exactly one send attempt; a client stays exactly
   * when it is open and its send succeeds; nobody is added.
   */
  lemma {:induction false} BroadcastFacts(clients: seq<Client>, x: Client)
    ensures multiset(Attempted(clients))[x] == (if x.isOpen then multiset(clients)[x] else 0)
    ensures multiset(Survivors(clients))[x] == (if x.isOpen && x.sendOk then multiset(clients)[x] else 0)
    decreases |clients|
  {
    if clients != [] {
      var init := clients[..|clients| - 1];
      BroadcastFacts(init, x);
      assert clients == init + [clients[|clients| - 1]];
    }
  }

  // ---------------------------------------------------------------------------
  // The receiver

  class Receiver {
    var isConnected: bool
    var frameCount: int
    /** The frames handed to the video renderer, in order. */
    var renderedFrames: seq<seq<byte>>
    var webSocketClients: seq<Client>
    const frameAssembler: FA.Assembler

    function Model(): Session
      reads this, frameAssembler
    {
      Session(frameAssembler.Model(), frameCount, renderedFrames)
    }

    constructor ()
      ensures Model() == Session(FA.Initial, 0, [])
      ensures !isConnected && webSocketClients == []
    {
      isConnected := false;
      frameCount := 0;
      renderedFrames := [];
      webSocketClients := [];
      frameAssembler := new FA.Assembler();
    }

    /** handleCompleteFrame: an invalid frame is dropped; a valid one is rendered and counted. */
    method HandleCompleteFrame(frameData: seq<byte>, isKeyFrame: bool, frameNumber: int)
      modifies this`frameCount, this`renderedFrames
      ensures Model() == Dispatch(old(Model()), [FA.FrameComplete(frameData, isKeyFrame, frameNumber)])
    {
      assert [FA.FrameComplete(frameData, isKeyFrame, frameNumber)][..0] == [];
      var valid := FA.IsValidH264Frame(frameData);
      if !valid {
        assert ValidFrames([FA.FrameComplete(frameData, isKeyFrame, frameNumber)]) == [];
        assert renderedFrames + [] == renderedFrames;
        return;
      }
      renderedFrames := renderedFrames + [frameData];
      frameCount := frameCount + 1;
    }

    /** The assembler's callbacks, in the order they were made. */
    method HandleEvents(events: seq<FA.Event>)
      modifies this`frameCount, this`renderedFrames
      ensures Model() == Dispatch(old(Model()), events)
    {
      for i := 0 to |events|
        invariant Model() == Dispatch(old(Model()), events[..i])
      {
        ValidFramesAppend(events[..i], [events[i]]);
        assert events[..i + 1] == events[..i] + [events[i]];
        match events[i]
        case FrameComplete(frameData, isKeyFrame, frameNumber) =>
          HandleCompleteFrame(frameData, isKeyFrame, frameNumber);
        case ParameterSetsReceived(_) =>
          assert [events[i]][..0] == [];
      }
      assert events[..|events|] == events;
    }

    /** processCompleteNalu */
    method ProcessCompleteNalu(naluData: seq<byte>)
      modifies this`frameCount, this`renderedFrames, frameAssembler
      ensures Model() == Deliver(old(Model()), naluData)
    {
      if |naluData| < 4 {
        return;
      }
      if !IsValidStartCode(naluData, 0) {
        return;
      }
      var startCodeLen := FA.StartCodeLength(naluData, 0);
      if startCodeLen > 0 && |naluData| > startCodeLen {
        var events := frameAssembler.ProcessNalu(naluData);
        HandleEvents(events);
      }
    }

    /**
     * The step both code-closing branches of parseNalusWithStateMachine share:
     * when a previous start is known, the unit from it up to the new code's
     * first byte is processed and processedBytes moves to the new code.
     */
    method CodeClosed(data: seq<byte>, i: int, lastNaluStart: int, processedBytes: int, ghost start: Session)
      returns (processed: int)
      requires 0 <= i < |data| && DetectAt(data, i)
      requires lastNaluStart == -1 <==> StartsBefore(data, i) == []
      requires lastNaluStart == LastOr(StartsBefore(data, i), -1)
      requires lastNaluStart != -1 ==> 0 <= lastNaluStart && lastNaluStart + 3 <= i
      requires processedBytes == ProcessedBefore(data, i)
      requires Model() == DeliverAll(start, Slices(data, StartsBefore(data, i)))
      modifies this`frameCount, this`renderedFrames, frameAssembler
      ensures StartsBefore(data, i + 1) == StartsBefore(data, i) + [CodeStart(data, i)]
      ensures processed == ProcessedBefore(data, i + 1)
      ensures Model() == DeliverAll(start, Slices(data, StartsBefore(data, i + 1)))
    {
      ghost var before := StartsBefore(data, i);
      var codeStart := CodeStart(data, i);
      ScanFinds(data, i, lastNaluStart);
      processed := processedBytes;
      if lastNaluStart != -1 {
        var naluData := data[lastNaluStart..codeStart];
        DeliverAllSnoc(start, Slices(data, before), naluData);
        ProcessCompleteNalu(naluData);
        processed := codeStart;
      }
    }

    /**
     * parseNalusWithStateMachine, always entered in state 0 with no previous
     * start: delivers every unit closed by a later start code and returns where
     * the last start code begins (0 when fewer than two were found).
     */
    method ParseNalusWithStateMachine(data: seq<byte>) returns (processedBytes: int)
      modifies this`frameCount, this`renderedFrames, frameAssembler
      ensures Model() == DeliverAll(old(Model()), Pieces(data))
      ensures processedBytes == Processed(data)
    {
      ghost var start := Model();
      var state := 0;
      var lastNaluStart := -1;
      processedBytes := 0;
      for i := 0 to |data|
        invariant state == ZeroRun(data, i)
        invariant lastNaluStart == -1 <==> StartsBefore(data, i) == []
        invariant lastNaluStart == LastOr(StartsBefore(data, i), -1)
        invariant lastNaluStart != -1 ==> 0 <= lastNaluStart && lastNaluStart + 3 <= i
        invariant processedBytes == ProcessedBefore(data, i)
        invariant Model() == DeliverAll(start, Slices(data, StartsBefore(data, i)))
      {
        if !DetectAt(data, i) {
          ScanPasses(data, i);
        }
        if state == 0 {
          if data[i] == 0x00 {
            state := 1;
          }
        } else if state == 1 {
          if data[i] == 0x00 {
            state := 2;
          } else {
            state := 0;
          }
        } else if state == 2 {
          if data[i] == 0x00 {
            state := 3;
          } else if data[i] == 0x01 {
            processedBytes := CodeClosed(data, i, lastNaluStart, processedBytes, start);
            lastNaluStart := i - 2;
            state := 0;
          } else {
            state := 0;
          }
        } else {
          if data[i] == 0x01 {
            processedBytes := CodeClosed(data, i, lastNaluStart, processedBytes, start);
            lastNaluStart := i - 3;
            state := 0;
          } else if data[i] != 0x00 {
            state := 0;
          }
        }
      }
    }

    /**
     * receiveH264Stream over the given reads (the socket's successive read
     * results up to end of stream), followed by disconnectFromServer.  Nothing
     * is read when the receiver is not connected.
     */
    method ReceiveH264Stream(chunks: seq<seq<byte>>)
      modifies this`frameCount, this`renderedFrames, this`isConnected, frameAssembler
      ensures Model() == ReceivedStream(old(Model()), if old(isConnected) then Concat(chunks) else [])
      ensures !isConnected
    {
      var streamBuffer: seq<byte> := [];
      ghost var received: seq<byte> := [];
      var i := 0;
      while i < |chunks| && isConnected
        invariant 0 <= i <= |chunks|
        invariant isConnected == old(isConnected)
        invariant !isConnected ==> i == 0
        invariant received == Concat(chunks[..i])
        invariant streamBuffer == received[Processed(received)..]
        invariant Model() == DeliverAll(old(Model()), Pieces(received))
      {
        var chunk := chunks[i];
        ReadStep(old(Model()), received, chunk);
        ConcatOne(chunks[..i], chunk);
        assert chunks[..i + 1] == chunks[..i] + [chunk];
        streamBuffer := ReadChunk(streamBuffer, chunk);
        received := received + chunk;
        i := i + 1;
      }
      assert isConnected ==> chunks[..i] == chunks;
      FlushAtEndOfStream(streamBuffer);
      var _ := DisconnectFromServer();
    }

    /** One pass of the read loop: append the chunk, scan the buffer, keep the bytes from the last start code on. */
    method ReadChunk(streamBuffer: seq<byte>, chunk: seq<byte>) returns (retained: seq<byte>)
      modifies this`frameCount, this`renderedFrames, frameAssembler
      ensures Model() == DeliverAll(old(Model()), Pieces(streamBuffer + chunk))
      ensures retained == Retain(streamBuffer + chunk)
    {
      var currentData := streamBuffer + chunk;
      var processedBytes := ParseNalusWithStateMachine(currentData);
      retained := currentData;
      if processedBytes > 0 && processedBytes < |currentData| {
        retained := currentData[processedBytes..];
      }
    }

    /** After the read loop: the retained bytes, if any, as one last unit, then forceCompleteFrame. */
    method FlushAtEndOfStream(remainingData: seq<byte>)
      modifies this`frameCount, this`renderedFrames, frameAssembler
      ensures Model() == EndOfStream(old(Model()), remainingData)
    {
      if |remainingData| > 0 {
        ProcessCompleteNalu(remainingData);
      }
      var events := frameAssembler.ForceCompleteFrame();
      HandleEvents(events);
    }

    /** broadcastToWebSocketClients: one send per open client; closed and failing clients are removed. */
    method BroadcastToWebSocketClients(jsonMessage: string) returns (sentTo: seq<Client>)
      modifies this`webSocketClients
      ensures webSocketClients == Survivors(old(webSocketClients))
      ensures sentTo == Attempted(old(webSocketClients))
    {
      sentTo := [];
      if webSocketClients == [] {
        return;
      }
      var kept := [];
      var clients := webSocketClients;
      for i := 0 to |clients|
        invariant kept == Survivors(clients[..i])
        invariant sentTo == Attempted(clients[..i])
      {
        var client := clients[i];
        assert clients[..i + 1][..i] == clients[..i];
        if client.isOpen {
          sentTo := sentTo + [client];
          if client.sendOk {
            kept := kept + [client];
          }
        }
      }
      assert clients[..|clients|] == clients;
      webSocketClients := kept;
    }

    /** disconnectFromServer: tears down only when the flag goes from connected to disconnected. */
    method DisconnectFromServer() returns (tornDown: bool)
      modifies this`isConnected
      ensures tornDown == old(isConnected)
      ensures !isConnected
    {
      if !isConnected {
        return false;
      }
      isConnected := false;
      return true;
    }

    /** resetStatistics (the frame counter and the assembler; the byte counter is not modelled). */
    method ResetStatistics()
      modifies this`frameCount, frameAssembler
      ensures Model() == old(Model()).(assembler := FA.Initial, frameCount := 0)
    {
      frameCount := 0;
      frameAssembler.Reset();
    }
  }

  /** A byte that closes no start code changes nothing the scanner has found. */
  lemma {:induction false} ScanPasses(data: seq<byte>, i: int)
    requires 0 <= i < |data| && !DetectAt(data, i)
    ensures StartsBefore(data, i + 1) == StartsBefore(data, i)
    ensures ProcessedBefore(data, i + 1) == ProcessedBefore(data, i)
  {
  }

  /**
   * A byte that closes a start code adds its position; the units grow by the
   * bytes from the previous code (if any) up to it, and that code's start
   * becomes processedBytes.
   */
  lemma {:induction false} ScanFinds(data: seq<byte>, i: int, last: int)
    requires 0 <= i < |data| && DetectAt(data, i)
    requires last == -1 <==> StartsBefore(data, i) == []
    requires last != -1 ==> last == StartsBefore(data, i)[|StartsBefore(data, i)| - 1] && 0 <= last && last + 3 <= i
    ensures var before, c := StartsBefore(data, i), CodeStart(data, i);
      && StartsBefore(data, i + 1) == before + [c]
      && (last != -1 ==> last <= c && Slices(data, before + [c]) == Slices(data, before) + [data[last..c]])
      && (last == -1 ==> Slices(data, before + [c]) == [])
      && ProcessedBefore(data, i + 1) == (if last != -1 then c else 0)
  {
    var before, c := StartsBefore(data, i), CodeStart(data, i);
    StartsBeforeFound(data, i + 1);
    assert (before + [c])[..|before|] == before;
  }
}
