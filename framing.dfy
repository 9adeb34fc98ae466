/**
 * The byte-stuffing framer and the deframer of ParityDataLinkLayer, as
 * functions on byte sequences. The class in the DataLink module builds and
 * scans frames step by step; its methods are proved equal to these.
 */
module Framing {
  import opened Bytes
  import opened ParityCodec

  datatype Option<T> = None | Some(value: T)

  // ---------------------------------------------------------------------------
  // Framer

  /** The bytes addData appends for one content byte: an escape tag first when the byte is a tag. */
  function Stuff(b: Byte): seq<Byte> {
    if IsTag(b) then [EscapeTag, b] else [b]
  }

  function StuffAll(s: seq<Byte>): seq<Byte> {
    if s == [] then [] else Stuff(s[0]) + StuffAll(s[1..])
  }

  lemma {:induction false} StuffAllConcat(a: seq<Byte>, b: seq<Byte>)
    ensures StuffAll(a + b) == StuffAll(a) + StuffAll(b)
  {
    if a == [] {
      assert a + b == b;
    } else {
      assert (a + b)[1..] == a[1..] + b;
      StuffAllConcat(a[1..], b);
    }
  }

  /** The bytes the parity bit covers: frame number, kind, then the payload. */
  function FrameContent(frameNumber: Byte, kind: Byte, payload: seq<Byte>): seq<Byte> {
    [frameNumber, kind] + payload
  }

  /**
   * The wire image of a frame: start tag, parity bit, the stuffed content,
   * stop tag. The parity byte is not stuffed; it is 0 or 1, never a tag.
   */
  function EncodeFrame(frameNumber: Byte, kind: Byte, payload: seq<Byte>): (r: seq<Byte>)
    ensures |r| >= 3 && r[0] == StartTag && r[|r| - 1] == StopTag
    ensures r[1] == 0 || r[1] == 1
  {
    var c := FrameContent(frameNumber, kind, payload);
    [StartTag, Parity(c)] + StuffAll(c) + [StopTag]
  }

  /** What a deframer should recover from EncodeFrame(frameNumber, kind, payload). */
  function Deframed(frameNumber: Byte, kind: Byte, payload: seq<Byte>): seq<Byte> {
    var c := FrameContent(frameNumber, kind, payload);
    [Parity(c)] + c
  }

  /** Parity bit, start and stop tags around the stuffed content make the wire image. */
  lemma WireImage(frameNumber: Byte, kind: Byte, payload: seq<Byte>, stuffed: seq<Byte>, parityVal: int, wire: seq<Byte>)
    requires stuffed == StuffAll(FrameContent(frameNumber, kind, payload))
    requires parityVal == OnesOf(FrameContent(frameNumber, kind, payload))
    requires wire == [StartTag] + ([if parityVal % 2 == 0 then 0 else 1] + stuffed) + [StopTag]
    ensures wire == EncodeFrame(frameNumber, kind, payload)
  {
  }

  /** The two header bytes, stuffed and counted. */
  lemma HeaderStuffedAndCounted(frameNumber: Byte, kind: Byte)
    ensures StuffAll([frameNumber, kind]) == Stuff(frameNumber) + Stuff(kind)
    ensures OnesOf([frameNumber, kind]) == Ones(frameNumber) + Ones(kind)
  {
    AppendOne([], frameNumber);
    assert [] + [frameNumber] == [frameNumber];
    AppendOne([frameNumber], kind);
    assert [frameNumber] + [kind] == [frameNumber, kind];
  }

  /** Taking one more payload byte into the prefix stuffs and counts that byte after the rest. */
  lemma ExtendPrefix(header: seq<Byte>, data: seq<Byte>, i: nat)
    requires i < |data|
    ensures StuffAll(header + data[..i + 1]) == StuffAll(header + data[..i]) + Stuff(data[i])
    ensures OnesOf(header + data[..i + 1]) == OnesOf(header + data[..i]) + Ones(data[i])
  {
    assert data[..i + 1] == data[..i] + [data[i]];
    assert header + data[..i + 1] == header + data[..i] + [data[i]];
    AppendOne(header + data[..i], data[i]);
  }

  /** Stuffing and counting one more byte extends the stuffed bytes and the count of the prefix. */
  lemma AppendOne(s: seq<Byte>, b: Byte)
    ensures StuffAll(s + [b]) == StuffAll(s) + Stuff(b)
    ensures OnesOf(s + [b]) == OnesOf(s) + Ones(b)
  {
    StuffAllConcat(s, [b]);
    OnesOfConcat(s, [b]);
    assert [b][1..] == [];
  }

  /** Collecting the first byte of `s` and then the rest collects `s`. */
  lemma AppendHead(acc: seq<Byte>, s: seq<Byte>)
    requires s != []
    ensures acc + [s[0]] + s[1..] == acc + s
  {
    assert s == [s[0]] + s[1..];
  }

  /** The bit counts the worked examples below rely on. */
  lemma ExampleBitCounts()
    ensures Ones(0) == 0 && Ones(1) == 1
    ensures Ones(0x41) == 2 && Ones(0x42) == 2 && Ones(0x7D) == 6
  {
    assert PopCount(1) == 1;
    assert PopCount(2) == 1;
    assert PopCount(4) == 1;
    assert PopCount(8) == 1;
    assert PopCount(16) == 1;
    assert PopCount(32) == 1;
    assert PopCount(33) == 2;
    assert PopCount(65) == 2;
    assert PopCount(66) == 2;
    assert PopCount(3) == 2;
    assert PopCount(7) == 3;
    assert PopCount(15) == 4;
    assert PopCount(31) == 5;
    assert PopCount(62) == 5;
    assert PopCount(125) == 6;
  }

  /** Worked wire image: DATA frame 0 carrying 0x41 0x42 has four set bits, parity 0 and nothing to escape. */
  lemma DataFrameExample()
    ensures EncodeFrame(0, DataKind, [0x41, 0x42]) == [0x7B, 0x00, 0x00, 0x00, 0x41, 0x42, 0x7D]
  {
    var c: seq<Byte> := [0, 0, 0x41, 0x42];
    assert FrameContent(0, DataKind, [0x41, 0x42]) == c;
    ExampleBitCounts();
    var t: seq<Byte> := [0x42];
    assert t[1..] == [] && OnesOf(t) == 2;
    assert c[1..][1..][1..] == t && c[1..][1..] == [0x41] + t && OnesOf([0x41] + t) == 4;
    assert c[1..] == [0, 0x41, 0x42] && OnesOf(c[1..]) == 4;
    assert OnesOf(c) == 4;
    assert StuffAll(c) == c;
  }

  /** Worked wire image: an ACK for frame 0 has one set bit, so parity 1. */
  lemma AckFrameExample()
    ensures EncodeFrame(0, AckKind, []) == [0x7B, 0x01, 0x00, 0x01, 0x7D]
  {
    var c: seq<Byte> := [0, 1];
    assert FrameContent(0, AckKind, []) == c;
    ExampleBitCounts();
    assert c[1..] == [1] && c[1..][1..] == [];
    assert OnesOf(c) == 1;
    assert StuffAll(c) == c;
  }

  /** Worked wire image: a payload byte 0x7D, the stop tag, travels escaped and comes back as the one byte 0x7D. */
  lemma EscapedStopTagExample(resume: bool)
    ensures EncodeFrame(0, DataKind, [0x7D]) == [0x7B, 0x00, 0x00, 0x00, 0x5C, 0x7D, 0x7D]
    ensures Deframe([0x7B, 0x00, 0x00, 0x00, 0x5C, 0x7D, 0x7D], resume) == Extraction(Some([0x00, 0x00, 0x00, 0x7D]), [])
  {
    var c: seq<Byte> := [0, 0, 0x7D];
    assert FrameContent(0, DataKind, [0x7D]) == c;
    ExampleBitCounts();
    assert c[1..] == [0, 0x7D] && c[1..][1..] == [0x7D] && c[1..][1..][1..] == [];
    assert OnesOf(c) == 6;
    assert Deframed(0, DataKind, [0x7D]) == [0, 0, 0, 0x7D];
    assert StuffAll(c) == [0, 0, 0x5C, 0x7D];
    DeframeEncodeFrame(0, DataKind, [0x7D], [], resume);
    assert EncodeFrame(0, DataKind, [0x7D]) + [] == EncodeFrame(0, DataKind, [0x7D]);
  }

  // ---------------------------------------------------------------------------
  // Deframer, as processFrame is written

  /** Index of the first start tag, or |s| when there is none. */
  function FirstStart(s: seq<Byte>): (k: nat)
    ensures k <= |s|
    ensures forall t :: 0 <= t < k ==> s[t] != StartTag
    ensures k < |s| ==> s[k] == StartTag
  {
    if s == [] || s[0] == StartTag then 0 else 1 + FirstStart(s[1..])
  }

  /**
   * The outcome of processFrame's extraction loop: the frame it returns, if
   * any, and whether cleanBufferUpTo ran, which empties the whole buffer.
   */
  datatype ScanResult = ScanResult(frame: Option<seq<Byte>>, drained: bool)

  function Drained(r: ScanResult): ScanResult {
    r.(drained := true)
  }

  /**
   * The extraction loop of processFrame over the bytes `s` that follow a start
   * tag, with `acc` the literal bytes taken so far. An escape makes the next
   * byte literal, or ends the scan with no frame when it is the last byte; an
   * unescaped stop tag drains the buffer and yields `acc`; an unescaped start
   * tag drains the buffer and clears `acc`. What the scan does after that drain
   * depends on the buffer's iterator: with `resume` it goes on over the bytes
   * it had not reached, without it the scan ends with no frame.
   */
  function Scan(s: seq<Byte>, acc: seq<Byte>, resume: bool): (r: ScanResult)
    ensures r.frame.Some? ==> r.drained && StopTag in s
    decreases |s|
  {
    if s == [] then ScanResult(None, false)
    else if s[0] == EscapeTag then
      if |s| == 1 then ScanResult(None, false) else Scan(s[2..], acc + [s[1]], resume)
    else if s[0] == StopTag then ScanResult(Some(acc), true)
    else if s[0] == StartTag then
      if resume then Drained(Scan(s[1..], [], resume)) else ScanResult(None, true)
    else Scan(s[1..], acc + [s[0]], resume)
  }

  /** One step of `Scan` over the suffix of `view` that starts at `p`. */
  lemma ScanAt(view: seq<Byte>, p: nat, acc: seq<Byte>, resume: bool)
    requires p < |view|
    ensures view[p] == EscapeTag && p + 1 == |view| ==> Scan(view[p..], acc, resume) == ScanResult(None, false)
    ensures view[p] == EscapeTag && p + 1 < |view| ==>
      Scan(view[p..], acc, resume) == Scan(view[p + 2..], acc + [view[p + 1]], resume)
    ensures view[p] == StopTag ==> Scan(view[p..], acc, resume) == ScanResult(Some(acc), true)
    ensures view[p] == StartTag ==>
      Scan(view[p..], acc, resume) == if resume then Drained(Scan(view[p + 1..], [], resume)) else ScanResult(None, true)
    ensures view[p] != EscapeTag && view[p] != StopTag && view[p] != StartTag ==>
      Scan(view[p..], acc, resume) == Scan(view[p + 1..], acc + [view[p]], resume)
  {
    var s := view[p..];
    assert s[0] == view[p] && s[1..] == view[p + 1..];
    if p + 1 < |view| {
      assert s[1] == view[p + 1] && s[2..] == view[p + 2..];
    }
  }

  /** The value processFrame returns and the receive buffer it leaves behind. */
  datatype Extraction = Extraction(frame: Option<seq<Byte>>, rest: seq<Byte>)

  /**
   * processFrame's extraction loop on a buffer `t` that begins with its start
   * tag: the buffer is either emptied or left as it was.
   */
  function Extract(t: seq<Byte>, resume: bool): (e: Extraction)
    requires t != []
    ensures e.frame.Some? ==> e.rest == []
    ensures e.rest == [] || e.rest == t
  {
    var r := Scan(t[1..], [], resume);
    Extraction(r.frame, if r.drained then [] else t)
  }

  /**
   * processFrame on the receive buffer `buf`: bytes before the first start tag
   * are dropped; once a frame is returned the buffer is empty.
   */
  function Deframe(buf: seq<Byte>, resume: bool): (e: Extraction)
    ensures e.frame.Some? ==> e.rest == []
    ensures e.rest == [] || (FirstStart(buf) < |buf| && e.rest == buf[FirstStart(buf)..])
  {
    var k := FirstStart(buf);
    if k == |buf| then Extraction(None, []) else Extract(buf[k..], resume)
  }

  /** Scanning the stuffed image of one byte takes that byte literally. */
  lemma ScanStuffOne(b: Byte, y: seq<Byte>, acc: seq<Byte>, resume: bool)
    ensures Scan(Stuff(b) + y, acc, resume) == Scan(y, acc + [b], resume)
  {
    var x := Stuff(b) + y;
    if IsTag(b) {
      assert x[0] == EscapeTag && x[1] == b && x[2..] == y;
    } else {
      assert x[0] == b && x[1..] == y;
    }
  }

  /** Scanning stuffed bytes takes exactly the unstuffed bytes: unescaping inverts addData. */
  lemma {:induction false} ScanStuffed(s: seq<Byte>, tail: seq<Byte>, acc: seq<Byte>, resume: bool)
    ensures Scan(StuffAll(s) + tail, acc, resume) == Scan(tail, acc + s, resume)
  {
    if s == [] {
      assert StuffAll(s) + tail == tail;
      assert acc + s == acc;
    } else {
      var b := s[0];
      var y := StuffAll(s[1..]) + tail;
      assert StuffAll(s) + tail == Stuff(b) + y;
      ScanStuffOne(b, y, acc, resume);
      ScanStuffed(s[1..], tail, acc + [b], resume);
      AppendHead(acc, s);
    }
  }

  /**
   * Round trip: a buffer holding a frame built by the framer, followed by
   * anything, yields that frame's parity, frame number, kind and payload,
   * and is left empty.
   */
  lemma DeframeEncodeFrame(frameNumber: Byte, kind: Byte, payload: seq<Byte>, rest: seq<Byte>, resume: bool)
    ensures Deframe(EncodeFrame(frameNumber, kind, payload) + rest, resume)
            == Extraction(Some(Deframed(frameNumber, kind, payload)), [])
  {
    var c := FrameContent(frameNumber, kind, payload);
    var p := Parity(c);
    var buf := EncodeFrame(frameNumber, kind, payload) + rest;
    assert buf[0] == StartTag;
    assert FirstStart(buf) == 0;
    var tail := StuffAll(c) + ([StopTag] + rest);
    assert buf[1..] == [p] + tail;
    assert ([p] + tail)[0] == p && ([p] + tail)[1..] == tail && [] + [p] == [p];
    assert Scan(buf[1..], [], resume) == Scan(tail, [p], resume);
    ScanStuffed(c, [StopTag] + rest, [p], resume);
    assert ([StopTag] + rest)[0] == StopTag;
  }

  lemma {:induction false} FirstStartAfterGarbage(garbage: seq<Byte>, buf: seq<Byte>)
    requires forall t :: 0 <= t < |garbage| ==> garbage[t] != StartTag
    ensures FirstStart(garbage + buf) == |garbage| + FirstStart(buf)
  {
    if garbage != [] {
      assert (garbage + buf)[0] == garbage[0];
      assert (garbage + buf)[1..] == garbage[1..] + buf;
      FirstStartAfterGarbage(garbage[1..], buf);
    } else {
      assert garbage + buf == buf;
    }
  }

  /** With a start tag present, processFrame is the extraction loop from the first one. */
  lemma DeframeAtStart(buf: seq<Byte>, resume: bool)
    requires FirstStart(buf) < |buf|
    ensures Deframe(buf, resume) == Extract(buf[FirstStart(buf)..], resume)
  {
  }

  /** Bytes before the first start tag play no part: processFrame only discards them. */
  lemma {:induction false} DeframeSkipsGarbage(garbage: seq<Byte>, buf: seq<Byte>, resume: bool)
    requires forall t :: 0 <= t < |garbage| ==> garbage[t] != StartTag
    ensures Deframe(garbage + buf, resume) == Deframe(buf, resume)
  {
    FirstStartAfterGarbage(garbage, buf);
    if FirstStart(buf) < |buf| {
      DeframeFromShiftedStart(garbage + buf, |garbage|, buf, resume);
    }
  }

  /** Deframing a buffer whose first start tag is the suffix `buf`'s, `g` bytes further in. */
  lemma DeframeFromShiftedStart(all: seq<Byte>, g: nat, buf: seq<Byte>, resume: bool)
    requires g <= |all| && all[g..] == buf
    requires FirstStart(buf) < |buf| && FirstStart(all) == g + FirstStart(buf)
    ensures Deframe(all, resume) == Deframe(buf, resume)
  {
    var k := FirstStart(buf);
    var t := buf[k..];
    assert all[g + k..] == t;
    assert Deframe(buf, resume) == Extract(t, resume) by {
      DeframeAtStart(buf, resume);
    }
    assert Deframe(all, resume) == Extract(t, resume) by {
      var K := FirstStart(all);
      assert K == g + k && K < |all|;
      assert all[K..] == t;
      DeframeAtStart(all, resume);
    }
  }

  /** With no start tag in the buffer there is no frame, and the buffer is emptied. */
  lemma DeframeNoStartTag(buf: seq<Byte>, resume: bool)
    requires forall t :: 0 <= t < |buf| ==> buf[t] != StartTag
    ensures Deframe(buf, resume) == Extraction(None, [])
  {
    assert FirstStart(buf) == |buf|;
  }

  /**
   * A frame cut off before its stop tag, or right after an escape byte, is
   * not returned, and the buffer from its start tag on is kept for the next call.
   */
  lemma DeframeIncomplete(parity: Byte, content: seq<Byte>, endsInEscape: bool, resume: bool)
    requires !IsTag(parity)
    ensures var buf := [StartTag, parity] + StuffAll(content) + (if endsInEscape then [EscapeTag] else []);
            Deframe(buf, resume) == Extraction(None, buf)
  {
    var tail: seq<Byte> := if endsInEscape then [EscapeTag] else [];
    var buf := [StartTag, parity] + StuffAll(content) + tail;
    assert FirstStart(buf) == 0;
    var scanned := StuffAll(content) + tail;
    assert buf[1..] == [parity] + scanned;
    assert ([parity] + scanned)[1..] == scanned && [] + [parity] == [parity];
    assert Scan(buf[1..], [], resume) == Scan(scanned, [parity], resume);
    ScanStuffed(content, tail, [parity], resume);
    assert Scan(tail, [parity] + content, resume).frame == None;
    assert !Scan(tail, [parity] + content, resume).drained;
  }

  /**
   * Resynchronisation: when an unescaped start tag follows stuffed bytes
   * inside a frame, everything scanned so far is dropped; what the call can
   * still return comes only from the bytes after that start tag.
   */
  lemma ScanResync(before: seq<Byte>, after: seq<Byte>, acc: seq<Byte>, resume: bool)
    ensures Scan(StuffAll(before) + [StartTag] + after, acc, resume)
            == if resume then Drained(Scan(after, [], resume)) else ScanResult(None, true)
  {
    assert StuffAll(before) + [StartTag] + after == StuffAll(before) + ([StartTag] + after);
    ScanStuffed(before, [StartTag] + after, acc, resume);
    assert ([StartTag] + after)[1..] == after;
  }

  /**
   * The stream `garbage START p1 START p2 STOP`: the bytes of p1 never reach a
   * returned frame. If the scan goes on after the drain the frame is p2;
   * otherwise there is none. Either way the buffer ends up empty.
   */
  lemma DeframeResyncExample(garbage: seq<Byte>, p1: seq<Byte>, p2: seq<Byte>, resume: bool)
    requires forall t :: 0 <= t < |garbage| ==> garbage[t] != StartTag
    ensures Deframe(garbage + [StartTag] + StuffAll(p1) + [StartTag] + StuffAll(p2) + [StopTag], resume)
            == Extraction(if resume then Some(p2) else None, [])
  {
    var after := StuffAll(p2) + [StopTag];
    var buf := [StartTag] + (StuffAll(p1) + [StartTag] + after);
    var whole := garbage + [StartTag] + StuffAll(p1) + [StartTag] + StuffAll(p2) + [StopTag];
    assert Deframe(whole, resume) == Deframe(buf, resume) by {
      assert whole == garbage + buf;
      DeframeSkipsGarbage(garbage, buf, resume);
    }
    assert Scan(after, [], resume) == ScanResult(Some(p2), true) by {
      ScanStuffed(p2, [StopTag], [], resume);
      assert [] + p2 == p2;
    }
    assert Scan(buf[1..], [], resume) == ScanResult(if resume then Some(p2) else None, true) by {
      assert buf[1..] == StuffAll(p1) + [StartTag] + after;
      ScanResync(p1, after, [], resume);
    }
    assert FirstStart(buf) == 0;
  }

  /**
   * The as-written drain: two frames arriving back to back in the buffer, and
   * the first call returns the first frame and leaves nothing of the second.
   */
  lemma DrainLosesFollowingFrame(n1: Byte, k1: Byte, p1: seq<Byte>, n2: Byte, k2: Byte, p2: seq<Byte>, resume: bool)
    ensures Deframe(EncodeFrame(n1, k1, p1) + EncodeFrame(n2, k2, p2), resume)
            == Extraction(Some(Deframed(n1, k1, p1)), [])
  {
    DeframeEncodeFrame(n1, k1, p1, EncodeFrame(n2, k2, p2), resume);
  }

  // ---------------------------------------------------------------------------
  // Deframer as processFrame's comments describe it: only the processed bytes are removed

  /**
   * The extraction loop over `buf`, whose frame began with the start tag at
   * index 0, from index `j` on. A stop tag removes the bytes up to and
   * including it; a start tag removes what precedes it and restarts there;
   * an incomplete frame keeps the buffer.
   */
  function ScanFrom(buf: seq<Byte>, j: nat, acc: seq<Byte>): (e: Extraction)
    requires 1 <= j <= |buf|
    ensures |e.rest| <= |buf|
    ensures e.frame.Some? ==> |e.rest| < |buf| - j
    decreases |buf| - j
  {
    if j == |buf| then Extraction(None, buf)
    else if buf[j] == EscapeTag then
      if j + 1 == |buf| then Extraction(None, buf) else ScanFrom(buf, j + 2, acc + [buf[j + 1]])
    else if buf[j] == StopTag then Extraction(Some(acc), buf[j + 1..])
    else if buf[j] == StartTag then ScanFrom(buf[j..], 1, [])
    else ScanFrom(buf, j + 1, acc + [buf[j]])
  }

  /** processFrame with cleanBufferUpTo removing only the bytes before the iterator's position. */
  function DeframeIntended(buf: seq<Byte>): (e: Extraction)
    ensures |e.rest| <= |buf|
    ensures e.frame.Some? ==> |e.rest| + 2 <= |buf| - FirstStart(buf)
  {
    var k := FirstStart(buf);
    if k == |buf| then Extraction(None, []) else ScanFrom(buf[k..], 1, [])
  }

  /** The corrected extraction loop takes the stuffed image of one byte as that byte. */
  lemma ScanFromStuffOne(buf: seq<Byte>, j: nat, b: Byte, tail: seq<Byte>, acc: seq<Byte>)
    requires 1 <= j <= |buf|
    requires buf[j..] == Stuff(b) + tail
    ensures j + |Stuff(b)| <= |buf| && buf[j + |Stuff(b)|..] == tail
    ensures ScanFrom(buf, j, acc) == ScanFrom(buf, j + |Stuff(b)|, acc + [b])
  {
    if IsTag(b) {
      assert buf[j] == EscapeTag && buf[j + 1] == b && buf[j + 2..] == tail;
    } else {
      assert buf[j] == b && buf[j + 1..] == tail;
    }
  }

  lemma {:induction false} ScanFromStuffed(buf: seq<Byte>, j: nat, s: seq<Byte>, acc: seq<Byte>, rest: seq<Byte>)
    requires 1 <= j <= |buf|
    requires buf[j..] == StuffAll(s) + [StopTag] + rest
    ensures ScanFrom(buf, j, acc) == Extraction(Some(acc + s), rest)
    decreases |s|
  {
    if s == [] {
      var here := buf[j..];
      assert here == [StopTag] + rest;
      assert buf[j] == here[0] && buf[j + 1..] == here[1..];
      assert acc + s == acc;
    } else {
      var b := s[0];
      var tail := StuffAll(s[1..]) + [StopTag] + rest;
      var next := j + |Stuff(b)|;
      assert next <= |buf| && buf[next..] == tail && ScanFrom(buf, j, acc) == ScanFrom(buf, next, acc + [b]) by {
        assert StuffAll(s) + [StopTag] + rest == Stuff(b) + tail;
        ScanFromStuffOne(buf, j, b, tail, acc);
      }
      ScanFromStuffed(buf, next, s[1..], acc + [b], rest);
      AppendHead(acc, s);
    }
  }

  /** Corrected round trip: the frame is returned and the bytes after its stop tag stay in the buffer. */
  lemma DeframeIntendedEncodeFrame(frameNumber: Byte, kind: Byte, payload: seq<Byte>, rest: seq<Byte>)
    ensures DeframeIntended(EncodeFrame(frameNumber, kind, payload) + rest)
            == Extraction(Some(Deframed(frameNumber, kind, payload)), rest)
  {
    var c := FrameContent(frameNumber, kind, payload);
    var p := Parity(c);
    var buf := EncodeFrame(frameNumber, kind, payload) + rest;
    assert FirstStart(buf) == 0;
    assert buf[0..] == buf;
    assert buf[1] == p && buf[2..] == StuffAll(c) + [StopTag] + rest;
    assert [] + [p] == [p];
    assert ScanFrom(buf, 1, []) == ScanFrom(buf, 2, [p]);
    ScanFromStuffed(buf, 2, c, [p], rest);
  }

  /** With the corrected deframer, two frames back to back are both recovered, by two calls. */
  lemma IntendedKeepsFollowingFrame(n1: Byte, k1: Byte, p1: seq<Byte>, n2: Byte, k2: Byte, p2: seq<Byte>)
    ensures var first := DeframeIntended(EncodeFrame(n1, k1, p1) + EncodeFrame(n2, k2, p2));
            first == Extraction(Some(Deframed(n1, k1, p1)), EncodeFrame(n2, k2, p2))
            && DeframeIntended(first.rest) == Extraction(Some(Deframed(n2, k2, p2)), [])
  {
    DeframeIntendedEncodeFrame(n1, k1, p1, EncodeFrame(n2, k2, p2));
    DeframeIntendedEncodeFrame(n2, k2, p2, []);
    assert EncodeFrame(n2, k2, p2) + [] == EncodeFrame(n2, k2, p2);
  }

  /**
   * Scanning stuffed bytes up to an unescaped start tag ends in a fresh
   * extraction from that tag: what precedes it is removed from the buffer.
   */
  lemma {:induction false} ScanFromStuffedToStart(buf: seq<Byte>, j: nat, s: seq<Byte>, acc: seq<Byte>, rest: seq<Byte>)
    requires 1 <= j <= |buf|
    requires buf[j..] == StuffAll(s) + [StartTag] + rest
    ensures ScanFrom(buf, j, acc) == ScanFrom([StartTag] + rest, 1, [])
    decreases |s|
  {
    if s == [] {
      assert buf[j] == StartTag && buf[j..] == [StartTag] + rest;
    } else {
      var b := s[0];
      var tail := StuffAll(s[1..]) + [StartTag] + rest;
      assert StuffAll(s) + [StartTag] + rest == Stuff(b) + tail;
      ScanFromStuffOne(buf, j, b, tail, acc);
      ScanFromStuffedToStart(buf, j + |Stuff(b)|, s[1..], acc + [b], rest);
    }
  }

  /** The corrected deframer also discards the bytes before the first start tag and nothing else. */
  lemma DeframeIntendedSkipsGarbage(garbage: seq<Byte>, buf: seq<Byte>)
    requires forall t :: 0 <= t < |garbage| ==> garbage[t] != StartTag
    ensures DeframeIntended(garbage + buf) == DeframeIntended(buf)
  {
    FirstStartAfterGarbage(garbage, buf);
    var all := garbage + buf;
    var g := |garbage|;
    assert all[g..] == buf;
    var k := FirstStart(buf);
    if k < |buf| {
      assert all[g + k..] == buf[k..];
      assert DeframeIntended(all) == ScanFrom(buf[k..], 1, []);
    } else {
      assert DeframeIntended(all) == Extraction(None, []);
    }
  }

  /** Corrected resynchronisation from the first start tag: `START p1 START p2 STOP` gives p2. */
  lemma IntendedResyncFromStart(p1: seq<Byte>, p2: seq<Byte>)
    ensures DeframeIntended([StartTag] + (StuffAll(p1) + [StartTag] + (StuffAll(p2) + [StopTag])))
            == Extraction(Some(p2), [])
  {
    var after := StuffAll(p2) + [StopTag];
    var buf := [StartTag] + (StuffAll(p1) + [StartTag] + after);
    var second := [StartTag] + after;
    assert DeframeIntended(buf) == ScanFrom(second, 1, []) by {
      assert FirstStart(buf) == 0 && buf[0..] == buf;
      assert buf[1..] == StuffAll(p1) + [StartTag] + after;
      ScanFromStuffedToStart(buf, 1, p1, [], after);
    }
    assert ScanFrom(second, 1, []) == Extraction(Some(p2), []) by {
      assert second[1..] == StuffAll(p2) + [StopTag] + [];
      ScanFromStuffed(second, 1, p2, [], []);
      assert [] + p2 == p2;
    }
  }

  /**
   * Corrected resynchronisation: in `garbage START p1 START p2 STOP` the
   * damaged p1 is dropped and p2 is returned, with nothing left in the buffer.
   */
  lemma IntendedResync(garbage: seq<Byte>, p1: seq<Byte>, p2: seq<Byte>)
    requires forall t :: 0 <= t < |garbage| ==> garbage[t] != StartTag
    ensures DeframeIntended(garbage + [StartTag] + StuffAll(p1) + [StartTag] + StuffAll(p2) + [StopTag])
            == Extraction(Some(p2), [])
  {
    var buf := [StartTag] + (StuffAll(p1) + [StartTag] + (StuffAll(p2) + [StopTag]));
    assert garbage + [StartTag] + StuffAll(p1) + [StartTag] + StuffAll(p2) + [StopTag] == garbage + buf;
    DeframeIntendedSkipsGarbage(garbage, buf);
    IntendedResyncFromStart(p1, p2);
  }
}
