/**
 * ParityDataLinkLayer: the per-link state of the stop-and-wait protocol, the
 * framer and deframer run step by step on it, and the receive-side
 * classification of deframed frames.
 *
 * The inherited transport and client calls are modelled as logs: `transmit`
 * appends its bytes to `transmitted`, `client.receive` appends the payload
 * to `delivered`.
 */
module DataLink {
  import opened Bytes
  import opened ParityCodec
  import opened Framing

  /** What finishFrameReceive makes of a deframed frame. */
  datatype Verdict = Corrupted | AckFrame | NackFrame | UnknownKind | DataFrame

  /**
   * The classification of finishFrameReceive for a deframed frame
   * `[parity, frameNumber, kind, payload...]`: a parity byte other than 0 or 1,
   * or one that disagrees with the bytes after it, means corruption; then
   * the kind decides.
   */
  function Classify(frame: seq<Byte>): (v: Verdict)
    requires |frame| >= 3
    ensures v == Corrupted <==> frame[0] != Parity(frame[1..])
    ensures v != Corrupted ==> v == KindVerdict(frame[2])
  {
    if frame[0] != 0 && frame[0] != 1 then Corrupted
    else if frame[0] != Parity(frame[1..]) then Corrupted
    else if frame[2] == AckKind then AckFrame
    else if frame[2] == NackKind then NackFrame
    else if frame[2] != DataKind then UnknownKind
    else DataFrame
  }

  /** The verdict a frame deserves by its kind alone, when it arrives intact. */
  function KindVerdict(kind: Byte): Verdict {
    if kind == AckKind then AckFrame
    else if kind == NackKind then NackFrame
    else if kind == DataKind then DataFrame
    else UnknownKind
  }

  /** A frame the framer built, deframed without damage, passes the parity check and is judged by its kind. */
  lemma FramedContentAccepted(frameNumber: Byte, kind: Byte, payload: seq<Byte>)
    ensures |Deframed(frameNumber, kind, payload)| >= 3
    ensures Classify(Deframed(frameNumber, kind, payload)) == KindVerdict(kind)
  {
    var c := FrameContent(frameNumber, kind, payload);
    var f := Deframed(frameNumber, kind, payload);
    assert f[1..] == c && f[2] == kind;
  }

  /**
   * Any one-bit error in a deframed frame, in the parity byte or in any byte
   * after it, makes finishFrameReceive classify the frame as corrupted.
   */
  lemma SingleBitErrorDetected(frameNumber: Byte, kind: Byte, payload: seq<Byte>, j: nat, i: nat)
    requires j < |Deframed(frameNumber, kind, payload)| && i < 8
    ensures var f := Deframed(frameNumber, kind, payload);
            |f| >= 3 && Classify(f[j := FlipByteBit(f[j], i)]) == Corrupted
  {
    var c := FrameContent(frameNumber, kind, payload);
    var f := Deframed(frameNumber, kind, payload);
    var p := Parity(c);
    var g := f[j := FlipByteBit(f[j], i)];
    if j == 0 {
      var x := FlipByteBit(p, i);
      assert g[0] == x && g[1..] == c;
      if x == 0 || x == 1 {
        FlipByteBitOnes(p, i);
        assert Ones(0) == 0 && Ones(1) == 1;
        assert x != p;
      }
    } else {
      assert g[0] == p;
      assert g[1..] == c[j - 1 := FlipByteBit(c[j - 1], i)];
      SingleBitFlipChangesParity(c, j - 1, i);
    }
  }

  /** The next value of a 1-bit sequence number, `(byte) ((n + 1) % 2)`. */
  function NextFrameNumber(n: Byte): (m: Byte)
    requires n == 0 || n == 1
    ensures m == 1 - n
  {
    ToByte((n + 1) % 2)
  }

  /**
   * A position in the receive buffer, standing in for a java.util.Iterator
   * over it. Every call to iterator() makes a new object.
   */
  class BufferIterator {
    var position: nat

    constructor ()
      ensures position == 0
    {
      position := 0;
    }
  }

  /**
   * What is left of the scan that processFrame performs, with the iterator at
   * `p` in `view` and `acc` collected: the rest of `Scan`, seen through the
   * drain if a drain has already happened.
   */
  ghost function Pending(view: seq<Byte>, p: nat, acc: seq<Byte>, resume: bool, drained: bool): ScanResult
    requires p <= |view|
  {
    var rest := Scan(view[p..], acc, resume);
    if !drained then rest else if resume then Drained(rest) else ScanResult(None, true)
  }

  /** An ordinary byte is collected. */
  lemma PendingPlain(view: seq<Byte>, p: nat, acc: seq<Byte>, resume: bool, drained: bool)
    requires p < |view| && view[p] != EscapeTag && view[p] != StopTag && view[p] != StartTag
    ensures Pending(view, p, acc, resume, drained) == Pending(view, p + 1, acc + [view[p]], resume, drained)
  {
    ScanAt(view, p, acc, resume);
  }

  /** An escape tag makes the byte after it collected, whatever it is. */
  lemma PendingEscape(view: seq<Byte>, p: nat, acc: seq<Byte>, resume: bool, drained: bool)
    requires p + 1 < |view| && view[p] == EscapeTag
    ensures Pending(view, p, acc, resume, drained) == Pending(view, p + 2, acc + [view[p + 1]], resume, drained)
  {
    ScanAt(view, p, acc, resume);
  }

  /** An escape tag with nothing after it ends the scan with no frame. */
  lemma PendingEscapeLast(view: seq<Byte>, p: nat, acc: seq<Byte>, resume: bool, drained: bool)
    requires p + 1 == |view| && view[p] == EscapeTag
    ensures Pending(view, p, acc, resume, drained) == ScanResult(None, drained)
  {
    ScanAt(view, p, acc, resume);
  }

  /** A stop tag ends the scan with the bytes collected as the frame. */
  lemma PendingStop(view: seq<Byte>, p: nat, acc: seq<Byte>, resume: bool, drained: bool)
    requires p < |view| && view[p] == StopTag && (resume || !drained)
    ensures Pending(view, p, acc, resume, drained) == ScanResult(Some(acc), true)
  {
    ScanAt(view, p, acc, resume);
  }

  /** A start tag drains the buffer and starts the frame afresh. */
  lemma PendingStart(view: seq<Byte>, p: nat, acc: seq<Byte>, resume: bool, drained: bool)
    requires p < |view| && view[p] == StartTag && (resume || !drained)
    ensures Pending(view, p, acc, resume, drained) == Pending(view, p + 1, [], resume, true)
  {
    ScanAt(view, p, acc, resume);
  }

  /** Running out of bytes ends the scan with no frame. */
  lemma PendingEnd(view: seq<Byte>, acc: seq<Byte>, resume: bool, drained: bool)
    ensures Pending(view, |view|, acc, resume, drained) == ScanResult(None, drained)
  {
    assert view[|view|..] == [];
  }

  class ParityDataLinkLayer {
    var sendingFrameNumber: Byte
    var expectedReceivingFrameNumber: Byte
    var latestAckReceived: Byte
    var latestNackReceived: Byte

    // Inherited from DataLinkLayer.
    var receiveBuffer: seq<Byte>
    var latestFrameSent: seq<Byte>
    /** Every byte array passed to transmit, in order. */
    var transmitted: seq<seq<Byte>>
    /** Every payload passed to client.receive, in order. */
    var delivered: seq<seq<Byte>>

    /**
     * Whether an iterator of the receive buffer goes on over the bytes it had
     * not reached after the buffer was emptied through another iterator
     * (true), or finds nothing more (false, as a LinkedList iterator does).
     */
    const scanSurvivesDrain: bool

    /**
     * The link invariant: both sequence numbers are 1-bit, and at most one of
     * the latest ACK and the latest NACK is recorded.
     */
    ghost predicate Valid()
      reads this
    {
      (sendingFrameNumber == 0 || sendingFrameNumber == 1) &&
      (expectedReceivingFrameNumber == 0 || expectedReceivingFrameNumber == 1) &&
      (latestAckReceived == NoFrameNumber || latestNackReceived == NoFrameNumber)
    }

    constructor (scanSurvivesDrain: bool)
      ensures Valid()
      ensures sendingFrameNumber == 0 && expectedReceivingFrameNumber == 0
      ensures latestAckReceived == NoFrameNumber && latestNackReceived == NoFrameNumber
      ensures receiveBuffer == [] && latestFrameSent == []
      ensures transmitted == [] && delivered == []
      ensures this.scanSurvivesDrain == scanSurvivesDrain
    {
      sendingFrameNumber := 0;
      expectedReceivingFrameNumber := 0;
      latestAckReceived := NoFrameNumber;
      latestNackReceived := NoFrameNumber;
      receiveBuffer := [];
      latestFrameSent := [];
      transmitted := [];
      delivered := [];
      this.scanSurvivesDrain := scanSurvivesDrain;
    }

    // -------------------------------------------------------------------------
    // Parity

    /** sumOnes: the number of set bits of the byte read as unsigned, sign extension notwithstanding. */
    method SumOnes(data: Byte) returns (numOnes: int)
      ensures numOnes == Ones(data)
      ensures data < 0 ==> numOnes == PopCount(data + 256)
      ensures 0 <= numOnes <= 8
    {
      assert data < 0 ==> Ones(data) == PopCount(data + 256) by {
        if data < 0 {
          assert Unsigned(data) == data + 256;
        }
      }
      var d := data;
      numOnes := 0;
      if d >= 0 {
        while d != 0
          invariant 0 <= d
          invariant numOnes + PopCount(Unsigned(d)) == Ones(data)
          decreases d
        {
          ghost var u := Unsigned(d);
          assert d % 2 == u % 2 && ToByte(d / 2) == d / 2 && Unsigned(d / 2) == u / 2
              && PopCount(u) == u % 2 + PopCount(u / 2) by {
            ShiftStep(d);
          }
          if d % 2 > 0 {               // (1 & data) > 0
            numOnes := numOnes + 1;
          }
          d := ToByte(d / 2);           // (byte) (data >>> 1)
        }
      } else {
        while d != 0
          invariant numOnes + PopCount(Unsigned(d)) == Ones(data)
          decreases Unsigned(d)
        {
          ghost var u := Unsigned(d);
          assert d % 2 == u % 2 && Unsigned(ToByte(u / 2)) == u / 2 && PopCount(u) == u % 2 + PopCount(u / 2) by {
            ShiftStep(d);
          }
          if d % 2 > 0 {               // (1 & data) > 0 on the sign-extended int
            numOnes := numOnes + 1;
          }
          d := ToByte(Unsigned(d) / 2);  // (byte) ((data & 0xff) >>> 1)
        }
      }
      assert PopCount(Unsigned(d)) == 0 by {
        assert Unsigned(d) == 0;
      }
    }

    // -------------------------------------------------------------------------
    // Framer

    /** addData: append `b` to the frame under construction, escaped when it is a tag. */
    method AddData(frameToTransmit: seq<Byte>, b: Byte) returns (q: seq<Byte>)
      ensures IsTag(b) ==> q == frameToTransmit + [EscapeTag, b]
      ensures !IsTag(b) ==> q == frameToTransmit + [b]
      ensures q == frameToTransmit + Stuff(b)
    {
      q := frameToTransmit;
      if b == StartTag || b == StopTag || b == EscapeTag {
        q := q + [EscapeTag];
      }
      q := q + [b];
    }

    /** createFrame: the wire image of a DATA frame carrying `data` with the current sending frame number. */
    method CreateFrame(data: seq<Byte>) returns (frame: seq<Byte>)
      ensures frame == EncodeFrame(sendingFrameNumber, DataKind, data)
    {
      var header := [sendingFrameNumber, DataKind];
      var frameToSend: seq<Byte> := [];
      var parityVal := 0;
      var ones;
      frameToSend := AddData(frameToSend, sendingFrameNumber);
      ones := SumOnes(sendingFrameNumber);
      parityVal := parityVal + ones;
      frameToSend := AddData(frameToSend, DataKind);
      ones := SumOnes(DataKind);
      parityVal := parityVal + ones;
      assert frameToSend == StuffAll(header + data[..0]) && parityVal == OnesOf(header + data[..0]) by {
        HeaderStuffedAndCounted(sendingFrameNumber, DataKind);
        assert header + data[..0] == header;
      }

      var i := 0;
      while i < |data|
        invariant 0 <= i <= |data|
        invariant frameToSend == StuffAll(header + data[..i])
        invariant parityVal == OnesOf(header + data[..i])
      {
        ones := SumOnes(data[i]);
        parityVal := parityVal + ones;
        frameToSend := AddData(frameToSend, data[i]);
        ExtendPrefix(header, data, i);
        i := i + 1;
      }
      assert header + data[..i] == FrameContent(sendingFrameNumber, DataKind, data);
      ghost var stuffed := frameToSend;

      if parityVal % 2 == 0 {
        frameToSend := [0] + frameToSend;
      } else {
        frameToSend := [1] + frameToSend;
      }
      frameToSend := [StartTag] + frameToSend;
      frameToSend := frameToSend + [StopTag];
      WireImage(sendingFrameNumber, DataKind, data, stuffed, parityVal, frameToSend);

      // Copy the deque into a byte array, element by element as toByteArray does.
      var frameToTransmit := ToByteArray(frameToSend);
      frame := frameToTransmit[..];
    }

    /** The control frame sendAck and sendNack build for `frameNumber`. */
    method ControlFrame(frameNumber: Byte, indicator: Byte) returns (frame: seq<Byte>)
      ensures frame == EncodeFrame(frameNumber, indicator, [])
    {
      var q: seq<Byte> := [];
      var parityVal := 0;
      var ones;
      q := AddData(q, frameNumber);
      ones := SumOnes(frameNumber);
      parityVal := parityVal + ones;
      q := AddData(q, indicator);
      ones := SumOnes(indicator);
      parityVal := parityVal + ones;
      ghost var c := FrameContent(frameNumber, indicator, []);
      assert q == StuffAll(c) && parityVal == OnesOf(c) by {
        assert c == [frameNumber, indicator];
        HeaderStuffedAndCounted(frameNumber, indicator);
      }
      ghost var stuffed := q;
      if parityVal % 2 == 0 {
        q := [0] + q;
      } else {
        q := [1] + q;
      }
      q := [StartTag] + q;
      q := q + [StopTag];
      WireImage(frameNumber, indicator, [], stuffed, parityVal, q);
      var bytes := ToByteArray(q);
      frame := bytes[..];
    }

    /** sendAck: transmit an ACK frame for `frameNumber`. */
    method SendAck(frameNumber: Byte)
      modifies this`transmitted
      ensures transmitted == old(transmitted) + [EncodeFrame(frameNumber, AckKind, [])]
    {
      var ack := ControlFrame(frameNumber, AckKind);
      transmitted := transmitted + [ack];
    }

    /** sendNack: transmit a NACK frame for `nackedFrameNumber`. */
    method SendNack(nackedFrameNumber: Byte)
      modifies this`transmitted
      ensures transmitted == old(transmitted) + [EncodeFrame(nackedFrameNumber, NackKind, [])]
    {
      var nack := ControlFrame(nackedFrameNumber, NackKind);
      transmitted := transmitted + [nack];
    }

    /** toByteArray: copy a queue of bytes into a new array, in order. */
    method ToByteArray(data: seq<Byte>) returns (dataReceived: array<Byte>)
      ensures fresh(dataReceived)
      ensures dataReceived[..] == data
    {
      dataReceived := new Byte[|data|];
      var j := 0;
      while j < |data|
        invariant 0 <= j <= |data|
        invariant dataReceived[..j] == data[..j]
      {
        dataReceived[j] := data[j];
        j := j + 1;
      }
    }

    // -------------------------------------------------------------------------
    // Deframer

    /**
     * cleanBufferUpTo: meant to remove the bytes before `end`, but its loop
     * stops only when its own new iterator is the object `end`, which it
     * never is. It empties the whole buffer.
     */
    method CleanBufferUpTo(end: BufferIterator)
      modifies this`receiveBuffer
      ensures receiveBuffer == []
    {
      var i := new BufferIterator();
      assert i != end;
      while i.position < |receiveBuffer| && i != end
        invariant i.position == 0
        decreases |receiveBuffer|
      {
        i.position := i.position + 1;        // i.next()
        receiveBuffer := receiveBuffer[1..];  // i.remove()
        i.position := i.position - 1;
      }
    }

    /** hasNext of the scanning iterator `it`, which walks `view`, the buffer as the scan found it. */
    function HasNext(it: BufferIterator, view: seq<Byte>): bool
      reads this, it
    {
      it.position < if scanSurvivesDrain then |view| else |receiveBuffer|
    }

    /**
     * processFrame: drop the bytes before the first start tag and extract the
     * de-stuffed frame that follows, or return None.
     */
    method ProcessFrame() returns (frame: Option<seq<Byte>>)
      modifies this`receiveBuffer
      ensures Extraction(frame, receiveBuffer) == Deframe(old(receiveBuffer), scanSurvivesDrain)
    {
      ghost var buf := receiveBuffer;

      // Search for a start tag, discarding everything before it.
      var startTagFound := false;
      var i := new BufferIterator();
      while !startTagFound && i.position < |receiveBuffer|
        invariant i.position == (if startTagFound then 1 else 0)
        invariant |receiveBuffer| <= |buf|
        invariant receiveBuffer == buf[|buf| - |receiveBuffer|..]
        invariant forall t :: 0 <= t < |buf| - |receiveBuffer| ==> buf[t] != StartTag
        invariant startTagFound ==> |receiveBuffer| > 0 && receiveBuffer[0] == StartTag
        decreases |receiveBuffer| - i.position
      {
        var current := receiveBuffer[i.position];
        if current != StartTag {
          receiveBuffer := receiveBuffer[1..];   // i.next(); i.remove()
        } else {
          startTagFound := true;
          i.position := 1;
        }
      }

      if !startTagFound {
        assert FirstStart(buf) == |buf|;
        return None;
      }

      ghost var k := |buf| - |receiveBuffer|;
      assert FirstStart(buf) == k;
      frame := ExtractFrame(i, buf, k);
    }

    /**
     * One pass of processFrame's extraction loop over `view`, the buffer as
     * the scan found it: `acc` is the frame collected so far and `drained`
     * says whether cleanBufferUpTo has already emptied the buffer. The pass
     * reports the new frame, whether a stop tag ended it, and whether an
     * escape tag was the last byte available (processFrame then returns null).
     */
    method ScanNext(i: BufferIterator, view: seq<Byte>, acc: seq<Byte>, ghost drained: bool)
      returns (extracted: seq<Byte>, stop: bool, incomplete: bool, ghost drainedNow: bool)
      requires HasNext(i, view) && i.position <= |view|
      requires receiveBuffer == if drained then [] else view
      modifies this`receiveBuffer, i
      ensures old(i.position) < i.position <= |view|
      ensures receiveBuffer == if drainedNow then [] else view
      ensures incomplete ==> (!stop && drainedNow == drained &&
        Pending(view, old(i.position), acc, scanSurvivesDrain, drained) == ScanResult(None, drained))
      ensures stop ==> (!incomplete && drainedNow &&
        Pending(view, old(i.position), acc, scanSurvivesDrain, drained) == ScanResult(Some(extracted), true))
      ensures !stop && !incomplete ==>
        Pending(view, old(i.position), acc, scanSurvivesDrain, drained)
        == Pending(view, i.position, extracted, scanSurvivesDrain, drainedNow)
    {
      ghost var r := scanSurvivesDrain;
      ghost var p := i.position;
      assert p < |view| && (r || !drained);
      extracted, stop, incomplete, drainedNow := acc, false, false, drained;
      var current := view[i.position];
      i.position := i.position + 1;
      if current == EscapeTag {
        if HasNext(i, view) {
          assert p + 1 < |view|;
          current := view[i.position];
          i.position := i.position + 1;
          assert current == view[p + 1] && i.position == p + 2;
          PendingEscape(view, p, acc, r, drained);
          extracted := acc + [current];
        } else {
          // An escape was the last byte available: the frame is incomplete.
          PendingEscapeLast(view, p, acc, r, drained);
          incomplete := true;
        }
      } else if current == StopTag {
        PendingStop(view, p, acc, r, drained);
        CleanBufferUpTo(i);
        stop, drainedNow := true, true;
      } else if current == StartTag {
        PendingStart(view, p, acc, r, drained);
        CleanBufferUpTo(i);
        extracted, drainedNow := [], true;
      } else {
        PendingPlain(view, p, acc, r, drained);
        extracted := acc + [current];
      }
    }

    /**
     * The extraction loop of processFrame, with `i` just past the start tag
     * at index `k` of the buffer `buf` the call began with.
     */
    method ExtractFrame(i: BufferIterator, ghost buf: seq<Byte>, ghost k: nat) returns (frame: Option<seq<Byte>>)
      requires k < |buf| && FirstStart(buf) == k
      requires receiveBuffer == buf[k..] && i.position == 1
      modifies this`receiveBuffer, i
      ensures Extraction(frame, receiveBuffer) == Deframe(buf, scanSurvivesDrain)
    {
      var view := receiveBuffer;
      ghost var r := scanSurvivesDrain;
      ghost var total := Scan(view[1..], [], r);
      assert Deframe(buf, r) == Extraction(total.frame, if total.drained then [] else view);

      var extractedBytes: seq<Byte> := [];
      var stopTagFound := false;
      ghost var drained := false;
      while !stopTagFound && HasNext(i, view)
        invariant 1 <= i.position <= |view|
        invariant receiveBuffer == if drained then [] else view
        invariant stopTagFound ==> drained && total == ScanResult(Some(extractedBytes), true)
        invariant !stopTagFound ==> total == Pending(view, i.position, extractedBytes, r, drained)
        decreases |view| - i.position
      {
        var incomplete;
        extractedBytes, stopTagFound, incomplete, drained := ScanNext(i, view, extractedBytes, drained);
        if incomplete {
          return None;
        }
      }

      if !stopTagFound {
        PendingEnd(view, extractedBytes, r, drained);
        return None;
      }
      frame := Some(extractedBytes);
    }

    // -------------------------------------------------------------------------
    // Stop-and-wait

    /** handleAckReceivedBySender: record the ACK and forget any NACK. */
    method HandleAckReceivedBySender(frameNumber: Byte)
      modifies this`latestAckReceived, this`latestNackReceived
      ensures latestAckReceived == frameNumber && latestNackReceived == NoFrameNumber
    {
      latestAckReceived := frameNumber;
      latestNackReceived := NoFrameNumber;
    }

    /** handleNackReceivedBySender: record the NACK and forget any ACK. */
    method HandleNackReceivedBySender(frameNumber: Byte)
      modifies this`latestAckReceived, this`latestNackReceived
      ensures latestNackReceived == frameNumber && latestAckReceived == NoFrameNumber
    {
      latestAckReceived := NoFrameNumber;
      latestNackReceived := frameNumber;
    }

    /**
     * One decision of finishFrameSend: when the latest ACK matches the
     * outstanding frame number, move to the other frame number; otherwise
     * retransmit the last frame sent (where the source then calls itself again).
     */
    method FinishFrameSendStep()
      requires Valid()
      modifies this`sendingFrameNumber, this`transmitted
      ensures Valid()
      ensures old(latestAckReceived) == old(sendingFrameNumber) ==>
        sendingFrameNumber == 1 - old(sendingFrameNumber) && transmitted == old(transmitted)
      ensures old(latestAckReceived) != old(sendingFrameNumber) ==>
        sendingFrameNumber == old(sendingFrameNumber) && transmitted == old(transmitted) + [latestFrameSent]
    {
      if latestAckReceived == sendingFrameNumber {
        sendingFrameNumber := NextFrameNumber(sendingFrameNumber);
      } else if latestNackReceived == sendingFrameNumber {
        transmitted := transmitted + [latestFrameSent];
      } else {
        transmitted := transmitted + [latestFrameSent];
      }
    }

    /** The parity finishFrameReceive recomputes over the bytes that follow the parity byte. */
    method RecomputeParity(rest: seq<Byte>) returns (recomputedParity: int)
      ensures recomputedParity == Parity(rest)
    {
      recomputedParity := 0;
      var j := 0;
      while j < |rest|
        invariant 0 <= j <= |rest|
        invariant recomputedParity == OnesOf(rest[..j])
      {
        var ones := SumOnes(rest[j]);
        recomputedParity := recomputedParity + ones;
        AppendOne(rest[..j], rest[j]);
        assert rest[..j + 1] == rest[..j] + [rest[j]];
        j := j + 1;
      }
      assert rest[..j] == rest;
      recomputedParity := recomputedParity % 2;
    }

    /**
     * finishFrameReceive: check the parity of a deframed frame
     * `[parity, frameNumber, kind, payload...]` and act on it. A corrupted frame
     * or one of unknown kind is answered with a NACK; an ACK or a NACK is
     * recorded; a DATA frame is delivered when it carries the expected frame
     * number, and acknowledged either way.
     */
    method FinishFrameReceive(data: seq<Byte>)
      requires Valid() && |data| >= 3
      modifies this`expectedReceivingFrameNumber, this`latestAckReceived, this`latestNackReceived
      modifies this`transmitted, this`delivered
      ensures Valid()
      ensures var v := Classify(data);
        v == Corrupted || v == UnknownKind ==>
          transmitted == old(transmitted) + [EncodeFrame(data[1], NackKind, [])] &&
          delivered == old(delivered) &&
          expectedReceivingFrameNumber == old(expectedReceivingFrameNumber) &&
          latestAckReceived == old(latestAckReceived) && latestNackReceived == old(latestNackReceived)
      ensures Classify(data) == AckFrame ==>
          latestAckReceived == data[1] && latestNackReceived == NoFrameNumber &&
          transmitted == old(transmitted) && delivered == old(delivered) &&
          expectedReceivingFrameNumber == old(expectedReceivingFrameNumber)
      ensures Classify(data) == NackFrame ==>
          latestNackReceived == data[1] && latestAckReceived == NoFrameNumber &&
          transmitted == old(transmitted) && delivered == old(delivered) &&
          expectedReceivingFrameNumber == old(expectedReceivingFrameNumber)
      ensures Classify(data) == DataFrame ==>
          transmitted == old(transmitted) + [EncodeFrame(data[1], AckKind, [])] &&
          latestAckReceived == old(latestAckReceived) && latestNackReceived == old(latestNackReceived) &&
          if data[1] == old(expectedReceivingFrameNumber) then
            delivered == old(delivered) + [data[3..]] &&
            expectedReceivingFrameNumber == 1 - old(expectedReceivingFrameNumber)
          else
            delivered == old(delivered) &&
            expectedReceivingFrameNumber == old(expectedReceivingFrameNumber)
    {
      var parityVal := data[0];
      var rest := data[1..];
      var recomputedParity := RecomputeParity(rest);

      var frameNumber := rest[0];
      var frameType := rest[1];

      if parityVal != 0 && parityVal != 1 {
        SendNack(frameNumber);
        return;
      }
      if parityVal != recomputedParity {
        SendNack(frameNumber);
        return;
      }
      if frameType == AckKind {
        HandleAckReceivedBySender(frameNumber);
        return;
      }
      if frameType == NackKind {
        HandleNackReceivedBySender(frameNumber);
        return;
      }
      if frameType != DataKind {
        SendNack(frameNumber);
        return;
      }

      var dataReceived := ToByteArray(rest[2..]);
      assert dataReceived[..] == data[3..];
      if frameNumber == expectedReceivingFrameNumber {
        delivered := delivered + [dataReceived[..]];
        expectedReceivingFrameNumber := NextFrameNumber(expectedReceivingFrameNumber);
      }
      SendAck(frameNumber);
    }
  }

  // ---------------------------------------------------------------------------
  // Two links talking: what the protocol promises end to end

  /**
   * One DATA frame built by a fresh sender and put into a fresh receiver's
   * buffer: the payload is delivered once, the receiver answers with one
   * ACK for frame 0 and then expects frame 1.
   */
  method DeliverOneFrame(payload: seq<Byte>, scanSurvivesDrain: bool)
    returns (received: seq<seq<Byte>>, answers: seq<seq<Byte>>, expected: Byte)
    ensures received == [payload]
    ensures answers == [EncodeFrame(0, AckKind, [])]
    ensures expected == 1
  {
    var sender := new ParityDataLinkLayer(scanSurvivesDrain);
    var receiver := new ParityDataLinkLayer(scanSurvivesDrain);

    var frame := sender.CreateFrame(payload);
    receiver.receiveBuffer := frame;
    DeframeEncodeFrame(0, DataKind, payload, [], scanSurvivesDrain);
    assert frame + [] == frame;
    var content := receiver.ProcessFrame();
    FramedContentAccepted(0, DataKind, payload);
    assert content.value[3..] == payload;
    receiver.FinishFrameReceive(content.value);
    received := receiver.delivered;
    answers := receiver.transmitted;
    expected := receiver.expectedReceivingFrameNumber;
  }

  /**
   * An ACK for the outstanding frame makes the next finishFrameSend step
   * move on to frame number 1 without retransmitting anything.
   */
  method AckAdvancesSender(payload: seq<Byte>, scanSurvivesDrain: bool)
    returns (resent: seq<seq<Byte>>, frameNumber: Byte)
    ensures resent == []
    ensures frameNumber == 1
  {
    var sender := new ParityDataLinkLayer(scanSurvivesDrain);
    var receiver := new ParityDataLinkLayer(scanSurvivesDrain);
    var frame := sender.CreateFrame(payload);
    sender.latestFrameSent := frame;

    receiver.SendAck(0);
    sender.receiveBuffer := receiver.transmitted[0];
    ReceiveIntactControlFrame(sender, 0, AckKind);
    sender.FinishFrameSendStep();
    resent := sender.transmitted;
    frameNumber := sender.sendingFrameNumber;
  }

  /**
   * The same DATA frame arriving twice, as when the sender retransmits after
   * its ACK was lost: the payload is delivered once, and each copy is
   * acknowledged with frame number 0.
   */
  method DuplicateDeliveredOnce(payload: seq<Byte>, scanSurvivesDrain: bool)
    returns (received: seq<seq<Byte>>, answers: seq<seq<Byte>>, expected: Byte)
    ensures received == [payload]
    ensures answers == [EncodeFrame(0, AckKind, []), EncodeFrame(0, AckKind, [])]
    ensures expected == 1
  {
    var sender := new ParityDataLinkLayer(scanSurvivesDrain);
    var receiver := new ParityDataLinkLayer(scanSurvivesDrain);
    var frame := sender.CreateFrame(payload);

    receiver.receiveBuffer := frame;
    ReceiveIntactDataFrame(receiver, 0, payload);
    receiver.receiveBuffer := frame;
    ReceiveIntactDataFrame(receiver, 0, payload);

    received := receiver.delivered;
    answers := receiver.transmitted;
    expected := receiver.expectedReceivingFrameNumber;
  }

  /**
   * The receive path of a link (processFrame, then finishFrameReceive on the
   * frame it returns) on a buffer holding one intact DATA frame: the frame is
   * acknowledged, and delivered exactly when it carries the expected number.
   */
  method ReceiveIntactDataFrame(link: ParityDataLinkLayer, frameNumber: Byte, payload: seq<Byte>)
    requires link.Valid() && link.receiveBuffer == EncodeFrame(frameNumber, DataKind, payload)
    modifies link
    ensures link.Valid() && link.receiveBuffer == []
    ensures link.transmitted == old(link.transmitted) + [EncodeFrame(frameNumber, AckKind, [])]
    ensures frameNumber == old(link.expectedReceivingFrameNumber) ==>
              link.delivered == old(link.delivered) + [payload] &&
              link.expectedReceivingFrameNumber == 1 - old(link.expectedReceivingFrameNumber)
    ensures frameNumber != old(link.expectedReceivingFrameNumber) ==>
              link.delivered == old(link.delivered) &&
              link.expectedReceivingFrameNumber == old(link.expectedReceivingFrameNumber)
    ensures link.latestAckReceived == old(link.latestAckReceived)
    ensures link.latestNackReceived == old(link.latestNackReceived)
    ensures link.sendingFrameNumber == old(link.sendingFrameNumber)
    ensures link.latestFrameSent == old(link.latestFrameSent)
  {
    ghost var content := Deframed(frameNumber, DataKind, payload);
    DeframeEncodeFrame(frameNumber, DataKind, payload, [], link.scanSurvivesDrain);
    assert link.receiveBuffer + [] == link.receiveBuffer;
    FramedContentAccepted(frameNumber, DataKind, payload);
    assert Classify(content) == DataFrame && content[1] == frameNumber && content[3..] == payload;
    var frame := link.ProcessFrame();
    link.FinishFrameReceive(frame.value);
  }

  /**
   * A DATA frame with one bit inverted after deframing (bit `i` of byte `j`
   * of `[parity, frameNumber, kind, payload...]`) is not delivered; the
   * receiver sends one NACK carrying the frame number as it arrived.
   */
  method CorruptedFrameNacked(payload: seq<Byte>, j: nat, i: nat, scanSurvivesDrain: bool)
    returns (received: seq<seq<Byte>>, answers: seq<seq<Byte>>, expected: Byte)
    requires j < |payload| + 3 && i < 8
    ensures var f := Deframed(0, DataKind, payload);
            |f| >= 3 && answers == [EncodeFrame(f[j := FlipByteBit(f[j], i)][1], NackKind, [])]
    ensures received == []
    ensures expected == 0
  {
    var receiver := new ParityDataLinkLayer(scanSurvivesDrain);
    var f := Deframed(0, DataKind, payload);
    SingleBitErrorDetected(0, DataKind, payload, j, i);
    var damaged := f[j := FlipByteBit(f[j], i)];
    receiver.FinishFrameReceive(damaged);
    received := receiver.delivered;
    answers := receiver.transmitted;
    expected := receiver.expectedReceivingFrameNumber;
  }

  /**
   * A NACK for the outstanding frame makes the next finishFrameSend step
   * retransmit the very bytes of that frame and keep its frame number.
   */
  method NackTriggersRetransmission(payload: seq<Byte>, scanSurvivesDrain: bool)
    returns (resent: seq<seq<Byte>>, frameNumber: Byte)
    ensures resent == [EncodeFrame(0, DataKind, payload)]
    ensures frameNumber == 0
  {
    var sender := new ParityDataLinkLayer(scanSurvivesDrain);
    var receiver := new ParityDataLinkLayer(scanSurvivesDrain);
    var frame := sender.CreateFrame(payload);
    sender.latestFrameSent := frame;

    receiver.SendNack(0);
    sender.receiveBuffer := receiver.transmitted[0];
    ReceiveIntactControlFrame(sender, 0, NackKind);
    sender.FinishFrameSendStep();
    resent := sender.transmitted;
    frameNumber := sender.sendingFrameNumber;
  }

  /**
   * The receive path of a link on a buffer holding one intact ACK or NACK
   * frame: the frame number is recorded as the latest ACK or NACK, the other
   * record is cleared, and nothing is sent or delivered.
   */
  method ReceiveIntactControlFrame(link: ParityDataLinkLayer, frameNumber: Byte, kind: Byte)
    requires kind == AckKind || kind == NackKind
    requires link.Valid() && link.receiveBuffer == EncodeFrame(frameNumber, kind, [])
    modifies link
    ensures link.Valid() && link.receiveBuffer == []
    ensures kind == AckKind ==> link.latestAckReceived == frameNumber && link.latestNackReceived == NoFrameNumber
    ensures kind == NackKind ==> link.latestNackReceived == frameNumber && link.latestAckReceived == NoFrameNumber
    ensures link.transmitted == old(link.transmitted) && link.delivered == old(link.delivered)
    ensures link.sendingFrameNumber == old(link.sendingFrameNumber)
    ensures link.expectedReceivingFrameNumber == old(link.expectedReceivingFrameNumber)
    ensures link.latestFrameSent == old(link.latestFrameSent)
  {
    ghost var content := Deframed(frameNumber, kind, []);
    DeframeEncodeFrame(frameNumber, kind, [], [], link.scanSurvivesDrain);
    assert link.receiveBuffer + [] == link.receiveBuffer;
    FramedContentAccepted(frameNumber, kind, []);
    assert content[1] == frameNumber;
    var frame := link.ProcessFrame();
    link.FinishFrameReceive(frame.value);
  }
}
