/**
 The SLIP driver of os/dev/slip.c: framing of RFC 1055 on the sending side, and on the receiving side a
 cyclic buffer filled byte by byte from the interrupt and emptied packet by packet by the poll handler.
 */
module Slip {

  type byte = int

  const END: byte := 192
  const ESC: byte := 219
  const ESC_END: byte := 220
  const ESC_ESC: byte := 221

  type BufferSize = n: int | n >= 2 witness 2

  const RX_BUFSIZE: BufferSize

  // ----- Sending -----

  function EscapedByte(c: byte): seq<byte> {
    if c == END then [ESC, ESC_END] else if c == ESC then [ESC, ESC_ESC] else [c]
  }

  /** Escaped payload, without the frame ends. */
  function Escaped(p: seq<byte>, n: nat): seq<byte>
    requires n <= |p|
  {
    if n == 0 then [] else Escaped(p, n - 1) + EscapedByte(p[n - 1])
  }

  function Frame(p: seq<byte>): seq<byte> {
    [END] + Escaped(p, |p|) + [END]
  }

  method SlipWrite(p: seq<byte>) returns (out: seq<byte>)
    ensures out == Frame(p)
  {
    out := [END];
    for i := 0 to |p|
      invariant out == [END] + Escaped(p, i)
    {
      var c := p[i];
      ghost var before := out;
      if c == END {
        out := out + [ESC];
        c := ESC_END;
      } else if c == ESC {
        out := out + [ESC];
        c := ESC_ESC;
      }
      out := out + [c];
      assert out == before + EscapedByte(p[i]);
    }
    out := out + [END];
  }

  // ----- Receiving a byte -----

  datatype Mode = TwoPackets | Ok | Esc | Rubbish

  datatype Rx = Rx(mode: Mode, begin: nat, nextFree: nat, pktEnd: nat, rxbuf: seq<byte>)

  ghost predicate InRange(s: Rx) {
    |s.rxbuf| == RX_BUFSIZE && s.begin < RX_BUFSIZE && s.nextFree < RX_BUFSIZE && s.pktEnd < RX_BUFSIZE
  }

  /** The index after i in the cyclic buffer. */
  function Next(i: nat): nat {
    if i + 1 == RX_BUFSIZE then 0 else i + 1
  }

  /** Storing a byte in the buffer; a full buffer throws the unfinished packet away. */
  function AddChar(s: Rx, c: byte): Rx
    requires InRange(s)
  {
    if Next(s.nextFree) == s.begin then s.(mode := Rubbish, nextFree := s.pktEnd)
    else
      var t := s.(rxbuf := s.rxbuf[s.nextFree := c], nextFree := Next(s.nextFree));
      if c != END then t
      else if s.nextFree == s.pktEnd then t.(nextFree := s.nextFree)
      else if s.begin == s.pktEnd then t.(pktEnd := s.nextFree)
      else t
  }

  /** slip_input_byte */
  function Input(s: Rx, c: byte): (t: Rx)
    requires InRange(s)
    ensures InRange(t)
  {
    match s.mode
    case Rubbish => if c == END then s.(mode := Ok) else s
    case Esc =>
      if c != ESC_END && c != ESC_ESC then s.(mode := Rubbish, nextFree := s.pktEnd) else AddChar(s.(mode := Ok), c)
    case _ => AddChar(if c == ESC then s.(mode := Esc) else s, c)
  }

  function Feed(s: Rx, bytes: seq<byte>, n: nat): (t: Rx)
    requires InRange(s) && n <= |bytes|
    ensures InRange(t)
  {
    if n == 0 then s else Input(Feed(s, bytes, n - 1), bytes[n - 1])
  }

  // ----- Polling -----

  /** What the decoding loops have done so far: `out` is the packet, `aborted` that it got too long. */
  datatype Decoder = Decoder(esc: bool, out: seq<byte>, aborted: bool)

  /** One turn of a decoding loop. */
  function DecodeByte(d: Decoder, c: byte, blen: nat): Decoder {
    if d.aborted then d
    else if |d.out| > blen then d.(out := [], aborted := true)
    else if d.esc then
      (if c == ESC_ESC then d.(esc := false, out := d.out + [ESC])
       else if c == ESC_END then d.(esc := false, out := d.out + [END])
       else d.(esc := false))
    else if c == ESC then d.(esc := true)
    else d.(out := d.out + [c])
  }

  /** A decoding loop over the buffer from `from` up to `stop`. */
  function Decode(d: Decoder, rxbuf: seq<byte>, from: nat, stop: nat, blen: nat): Decoder
    requires from <= stop <= |rxbuf|
    decreases stop
  {
    if from == stop then d else DecodeByte(Decode(d, rxbuf, from, stop - 1, blen), rxbuf[stop - 1], blen)
  }

  /** The packet that a poll returns. A break out of the first loop of a wrapped packet does not stop the second. */
  function Packet(s: Rx, blen: nat): seq<byte>
    requires InRange(s)
  {
    if s.begin == s.pktEnd then []
    else if s.begin < s.pktEnd then Decode(Decoder(false, [], false), s.rxbuf, s.begin, s.pktEnd, blen).out
    else
      var d := Decode(Decoder(false, [], false), s.rxbuf, s.begin, RX_BUFSIZE, blen);
      Decode(d.(aborted := false), s.rxbuf, 0, s.pktEnd, blen).out
  }

  /** The first END at or after i and before `stop`, going round; `stop` itself if there is none. */
  function FindEnd(rxbuf: seq<byte>, i: nat, stop: nat): (r: nat)
    requires |rxbuf| == RX_BUFSIZE && i < RX_BUFSIZE && stop < RX_BUFSIZE
    ensures r < RX_BUFSIZE
    decreases if i <= stop then stop - i else RX_BUFSIZE - i + stop
  {
    if i == stop || rxbuf[i] == END then i else FindEnd(rxbuf, Next(i), stop)
  }

  /** The first END behind the packet that is polled, or where the next byte will go. */
  function NextEnd(s: Rx): (r: nat)
    requires InRange(s)
    ensures r < RX_BUFSIZE
  {
    FindEnd(s.rxbuf, Next(s.pktEnd), s.nextFree)
  }

  /** The receiver after a poll. */
  function Polled(s: Rx): (t: Rx)
    requires InRange(s)
    ensures InRange(t)
  {
    if s.begin == s.pktEnd then s
    else
      var start := Next(s.pktEnd);
      if start == s.nextFree then s.(begin := start, pktEnd := start)
      else s.(begin := start, pktEnd := if FindEnd(s.rxbuf, start, s.nextFree) == s.nextFree then start else FindEnd(s.rxbuf, start, s.nextFree))
  }

  // ----- Escaping is undone by decoding -----

  function DecodeSeq(bytes: seq<byte>, n: nat, blen: nat): Decoder
    requires n <= |bytes|
  {
    if n == 0 then Decoder(false, [], false) else DecodeByte(DecodeSeq(bytes, n - 1, blen), bytes[n - 1], blen)
  }

  lemma {:induction false} DecodeSeqPrefix(a: seq<byte>, b: seq<byte>, n: nat, blen: nat)
    requires n <= |a|
    ensures DecodeSeq(a + b, n, blen) == DecodeSeq(a, n, blen)
  {
    if n > 0 {
      DecodeSeqPrefix(a, b, n - 1, blen);
    }
  }

  lemma DecodeSeqSnoc(a: seq<byte>, c: byte, blen: nat)
    ensures DecodeSeq(a + [c], |a| + 1, blen) == DecodeByte(DecodeSeq(a, |a|, blen), c, blen)
  {
    DecodeSeqPrefix(a, [c], |a|, blen);
  }

  lemma EscapedByteDecodes(a: seq<byte>, c: byte, out: seq<byte>, blen: nat)
    requires DecodeSeq(a, |a|, blen) == Decoder(false, out, false) && |out| < blen
    ensures var e := a + EscapedByte(c); DecodeSeq(e, |e|, blen) == Decoder(false, out + [c], false)
  {
    hide DecodeSeq;
    var x := if c == END then ESC_END else ESC_ESC;
    if c == END || c == ESC {
      DecodeSeqSnoc(a, ESC, blen);
      DecodeSeqSnoc(a + [ESC], x, blen);
      assert (a + [ESC]) + [x] == a + EscapedByte(c);
    } else {
      DecodeSeqSnoc(a, c, blen);
    }
  }

  /** Decoding undoes escaping. */
  lemma {:induction false} EscapedDecodes(p: seq<byte>, n: nat, blen: nat)
    requires n <= |p| <= blen
    ensures DecodeSeq(Escaped(p, n), |Escaped(p, n)|, blen) == Decoder(false, p[..n], false)
  {
    if n > 0 {
      EscapedDecodes(p, n - 1, blen);
      EscapedByteDecodes(Escaped(p, n - 1), p[n - 1], p[..n - 1], blen);
      assert p[..n] == p[..n - 1] + [p[n - 1]];
    }
  }

  /** A decoding loop over a stretch of the buffer continues the decoding of the bytes stored there. */
  lemma {:induction false} LoopDecodesSeq(rxbuf: seq<byte>, from: nat, stop: nat, bytes: seq<byte>, k: nat, blen: nat)
    requires from <= stop <= |rxbuf| && k + stop - from <= |bytes|
    requires forall i :: from <= i < stop ==> rxbuf[i] == bytes[k + (i - from)]
    ensures Decode(DecodeSeq(bytes, k, blen), rxbuf, from, stop, blen) == DecodeSeq(bytes, k + stop - from, blen)
    decreases stop
  {
    if from < stop {
      LoopDecodesSeq(rxbuf, from, stop - 1, bytes, k, blen);
    }
  }

  // ----- One frame through the buffer -----

  /** The index j places after b. */
  function Off(b: nat, j: nat): int {
    if b + j >= RX_BUFSIZE then b + j - RX_BUFSIZE else b + j
  }

  /** Nothing is buffered and the receiver is in step. */
  ghost predicate Idle(s: Rx) {
    InRange(s) && s.mode == Ok && s.begin == s.pktEnd == s.nextFree
  }

  /** The first k bytes of e are stored from `begin` on, as a packet that has not ended. */
  ghost predicate Pending(s: Rx, e: seq<byte>, k: nat) {
    && InRange(s) && s.begin == s.pktEnd && k <= |e| && k < RX_BUFSIZE
    && s.nextFree == Off(s.begin, k)
    && (forall i :: 0 <= i < k ==> s.rxbuf[Off(s.begin, i)] == e[i])
    && s.mode == if k > 0 && e[k - 1] == ESC then Esc else Ok
  }

  /** No byte is END, and every ESC is followed by one of its two partners. */
  ghost predicate WellEscaped(e: seq<byte>) {
    && (forall i :: 0 <= i < |e| ==> e[i] != END)
    && (forall i, j :: 0 <= i && j == i + 1 && j < |e| && e[i] == ESC ==> e[j] == ESC_END || e[j] == ESC_ESC)
    && (|e| > 0 ==> e[|e| - 1] != ESC)
  }

  lemma WellEscapedSnoc(e: seq<byte>, c: byte)
    requires WellEscaped(e)
    ensures WellEscaped(e + EscapedByte(c))
  {
  }

  lemma {:induction false} EscapedIsWellEscaped(p: seq<byte>, n: nat)
    requires n <= |p|
    ensures WellEscaped(Escaped(p, n)) && |Escaped(p, n)| >= n
  {
    if n > 0 {
      EscapedIsWellEscaped(p, n - 1);
      WellEscapedSnoc(Escaped(p, n - 1), p[n - 1]);
    }
  }

  lemma FeedByte(s: Rx, e: seq<byte>, k: nat)
    requires Pending(s, e, k) && WellEscaped(e) && k < |e| && k + 1 < RX_BUFSIZE
    ensures Pending(Input(s, e[k]), e, k + 1) && Input(s, e[k]).begin == s.begin
  {
    assert k > 0 && e[k - 1] == ESC ==> e[k] == ESC_END || e[k] == ESC_ESC;
    assert forall i :: 0 <= i < k ==> Off(s.begin, i) != s.nextFree;
  }

  lemma {:induction false} FeedEscaped(s: Rx, frame: seq<byte>, e: seq<byte>, k: nat)
    requires Idle(s) && WellEscaped(e) && k < RX_BUFSIZE && k <= |e| && |frame| > |e| && frame[..|e| + 1] == [END] + e
    ensures Pending(Feed(s, frame, k + 1), e, k) && Feed(s, frame, k + 1).begin == s.begin
  {
    if k == 0 {
      assert frame[0] == frame[..|e| + 1][0];
      OpeningEnd(s, frame, e);
    } else {
      hide Pending, WellEscaped, Input;
      FeedEscaped(s, frame, e, k - 1);
      assert frame[k] == frame[..|e| + 1][k] == e[k - 1];
      FeedByte(Feed(s, frame, k), e, k - 1);
    }
  }

  /** The opening END of a frame changes nothing. */
  lemma OpeningEnd(s: Rx, frame: seq<byte>, e: seq<byte>)
    requires Idle(s) && frame != [] && frame[0] == END
    ensures Pending(Feed(s, frame, 1), e, 0) && Feed(s, frame, 1).begin == s.begin
  {
    assert Feed(s, frame, 1) == Input(Feed(s, frame, 0), END);
  }

  /** A whole packet e is stored from `begin` up to `pktEnd`, followed by its END. */
  ghost predicate Buffered(s: Rx, e: seq<byte>) {
    && InRange(s) && 1 <= |e| <= RX_BUFSIZE - 2 && s.mode == Ok
    && s.pktEnd == Off(s.begin, |e|) && s.nextFree == Next(s.pktEnd)
    && (forall i :: 0 <= i < |e| ==> s.rxbuf[Off(s.begin, i)] == e[i])
  }

  /** The closing END ends the packet that is pending. */
  lemma EndByte(s: Rx, e: seq<byte>)
    requires Pending(s, e, |e|) && WellEscaped(e) && 1 <= |e| <= RX_BUFSIZE - 2
    ensures Buffered(Input(s, END), e)
  {
    assert s.mode == Ok;
    assert forall i :: 0 <= i < |e| ==> Off(s.begin, i) != s.nextFree;
  }

  lemma FeedLast(s: Rx, bytes: seq<byte>)
    requires InRange(s) && bytes != []
    ensures Feed(s, bytes, |bytes|) == Input(Feed(s, bytes, |bytes| - 1), bytes[|bytes| - 1])
  {
  }

  lemma FeedFrame(s: Rx, p: seq<byte>)
    requires Idle(s) && 1 <= |p| && |Escaped(p, |p|)| <= RX_BUFSIZE - 2
    ensures Buffered(Feed(s, Frame(p), |Frame(p)|), Escaped(p, |p|))
  {
    hide Pending, Buffered, Input, WellEscaped, Feed, Escaped;
    var e, frame := Escaped(p, |p|), Frame(p);
    EscapedIsWellEscaped(p, |p|);
    assert frame[..|e| + 1] == [END] + e;
    FeedEscaped(s, frame, e, |e|);
    EndByte(Feed(s, frame, |e| + 1), e);
    assert |frame| == |e| + 2 && frame[|e| + 1] == END;
    FeedLast(s, frame);
  }

  /** Polling a buffered packet returns its decoding and leaves the receiver idle. */
  lemma PollPacket(s: Rx, p: seq<byte>, blen: nat)
    requires Buffered(s, Escaped(p, |p|)) && |p| <= blen
    ensures Packet(s, blen) == p && Idle(Polled(s))
  {
    var e := Escaped(p, |p|);
    BufferedIsPolled(s, e);
    EscapedDecodes(p, |p|, blen);
    assert p[..|p|] == p;
    if s.begin < s.pktEnd {
      ContiguousDecodes(s, e, blen);
    } else {
      WrappedDecodes(s, e, blen);
    }
  }

  lemma BufferedIsPolled(s: Rx, e: seq<byte>)
    requires Buffered(s, e)
    ensures s.begin != s.pktEnd && Idle(Polled(s))
  {
  }

  /** Where the bytes of a buffered packet are. */
  lemma StoredAt(s: Rx, e: seq<byte>, j: nat)
    requires Buffered(s, e) && j < |e|
    ensures s.rxbuf[Off(s.begin, j)] == e[j]
  {
  }

  lemma StoredBounds(s: Rx, e: seq<byte>)
    requires Buffered(s, e)
    ensures InRange(s) && 1 <= |e| < RX_BUFSIZE && s.pktEnd == Off(s.begin, |e|)
  {
  }

  lemma ContiguousDecodes(s: Rx, e: seq<byte>, blen: nat)
    requires Buffered(s, e) && s.begin < s.pktEnd
    ensures Packet(s, blen) == DecodeSeq(e, |e|, blen).out
  {
    hide DecodeSeq, Decode, DecodeByte, Buffered;
    StoredBounds(s, e);
    forall i | s.begin <= i < s.pktEnd
      ensures s.rxbuf[i] == e[0 + (i - s.begin)]
    {
      StoredAt(s, e, i - s.begin);
    }
    LoopDecodesSeq(s.rxbuf, s.begin, s.pktEnd, e, 0, blen);
    NothingDecoded(e, blen);
  }

  lemma NothingDecoded(e: seq<byte>, blen: nat)
    ensures DecodeSeq(e, 0, blen) == Decoder(false, [], false)
  {
  }

  lemma WrappedDecodes(s: Rx, e: seq<byte>, blen: nat)
    requires Buffered(s, e) && s.pktEnd < s.begin && !DecodeSeq(e, |e|, blen).aborted
    ensures Packet(s, blen) == DecodeSeq(e, |e|, blen).out
  {
    hide DecodeByte, Buffered;
    StoredBounds(s, e);
    var first := RX_BUFSIZE - s.begin;
    forall i | s.begin <= i < RX_BUFSIZE
      ensures s.rxbuf[i] == e[0 + (i - s.begin)]
    {
      StoredAt(s, e, i - s.begin);
    }
    LoopDecodesSeq(s.rxbuf, s.begin, RX_BUFSIZE, e, 0, blen);
    NothingDecoded(e, blen);
    NotAbortedBefore(e, first, |e|, blen);
    forall i | 0 <= i < s.pktEnd
      ensures s.rxbuf[i] == e[first + (i - 0)]
    {
      StoredAt(s, e, first + i);
    }
    LoopDecodesSeq(s.rxbuf, 0, s.pktEnd, e, first, blen);
    var d := DecodeSeq(e, first, blen);
    assert d.(aborted := false) == d;
    assert first + s.pktEnd == |e|;
  }

  lemma {:induction false} NotAbortedBefore(e: seq<byte>, m: nat, n: nat, blen: nat)
    requires m <= n <= |e| && !DecodeSeq(e, n, blen).aborted
    ensures !DecodeSeq(e, m, blen).aborted
    decreases n
  {
    if m < n {
      NotAbortedBefore(e, m, n - 1, blen);
    }
  }

  // ----- Runs -----

  /** The packets returned when each payload is written as a frame, received and polled before the next. */
  function Session(s: Rx, payloads: seq<seq<byte>>, blen: nat): seq<seq<byte>>
    requires InRange(s)
    decreases |payloads|
  {
    if payloads == [] then []
    else
      var t := Feed(s, Frame(payloads[0]), |Frame(payloads[0])|);
      [Packet(t, blen)] + Session(Polled(t), payloads[1..], blen)
  }

  /** Every run of payloads that fit comes back unchanged, wherever in the ring it starts. */
  lemma {:induction false} RoundTrip(s: Rx, payloads: seq<seq<byte>>, blen: nat)
    requires Idle(s)
    requires forall i :: 0 <= i < |payloads| ==>
               1 <= |payloads[i]| <= blen && |Escaped(payloads[i], |payloads[i]|)| <= RX_BUFSIZE - 2
    ensures Session(s, payloads, blen) == payloads
    decreases |payloads|
  {
    if payloads != [] {
      var p := payloads[0];
      FeedFrame(s, p);
      var t := Feed(s, Frame(p), |Frame(p)|);
      PollPacket(t, p, blen);
      RoundTrip(Polled(t), payloads[1..], blen);
      assert payloads == [p] + payloads[1..];
    }
  }

  // ----- Rubbish -----

  /** After giving up no unfinished bytes are left. */
  ghost predicate Clean(s: Rx) {
    InRange(s) && (s.mode == Rubbish ==> s.nextFree == s.pktEnd)
  }

  /** Whatever comes in keeps it so: giving up drops what was pending, and then nothing is stored. */
  lemma {:induction false} BytesKeepClean(s: Rx, bytes: seq<byte>, n: nat)
    requires Clean(s) && n <= |bytes|
    ensures Clean(Feed(s, bytes, n))
  {
    if n > 0 {
      BytesKeepClean(s, bytes, n - 1);
    }
  }

  /**
   Any bytes that make the receiver give up with no packet buffered are forgotten at the next END: every frame after
   it is received as if nothing had happened.
   */
  lemma RubbishIsRecovered(s: Rx, garbage: seq<byte>, payloads: seq<seq<byte>>, blen: nat)
    requires Clean(s)
    requires var t := Feed(s, garbage, |garbage|); t.mode == Rubbish && t.begin == t.pktEnd
    requires forall i :: 0 <= i < |payloads| ==>
               1 <= |payloads[i]| <= blen && |Escaped(payloads[i], |payloads[i]|)| <= RX_BUFSIZE - 2
    ensures var t := Input(Feed(s, garbage, |garbage|), END);
      Idle(t) && Session(t, payloads, blen) == payloads
  {
    BytesKeepClean(s, garbage, |garbage|);
    RoundTrip(Input(Feed(s, garbage, |garbage|), END), payloads, blen);
  }

  // ----- Frames that are dropped -----

  /** Nothing is buffered, and nothing is pending. */
  ghost predicate Empty(s: Rx) {
    InRange(s) && s.begin == s.pktEnd == s.nextFree && (s.mode == Ok || s.mode == Rubbish)
  }

  /** After giving up, bytes other than END change nothing. */
  lemma {:induction false} RubbishStays(s: Rx, bytes: seq<byte>, from: nat, n: nat)
    requires InRange(s) && from <= n <= |bytes| && Feed(s, bytes, from).mode == Rubbish
    requires forall i :: from <= i < n ==> bytes[i] != END
    ensures Feed(s, bytes, n) == Feed(s, bytes, from)
    decreases n
  {
    if n > from {
      RubbishStays(s, bytes, from, n - 1);
    }
  }

  /** A full buffer drops the packet that is pending. */
  lemma FullDrops(s: Rx, e: seq<byte>, c: byte)
    requires Pending(s, e, RX_BUFSIZE - 1) && (s.mode == Esc ==> c == ESC_END || c == ESC_ESC)
    ensures var t := Input(s, c); t.mode == Rubbish && Empty(t)
  {
  }

  /** A payload whose escaped form does not fit is dropped as a whole, and the next END at the latest restores the driver. */
  lemma LongFrameIsDropped(s: Rx, p: seq<byte>, blen: nat)
    requires Idle(s) && |Escaped(p, |p|)| > RX_BUFSIZE - 2
    ensures var t := Feed(s, Frame(p), |Frame(p)|); Empty(t) && Packet(t, blen) == [] && Idle(Input(t, END))
  {
    hide Pending, WellEscaped, Feed, Escaped;
    var e, frame, k := Escaped(p, |p|), Frame(p), RX_BUFSIZE - 1;
    EscapedIsWellEscaped(p, |p|);
    assert frame[..|e| + 1] == [END] + e;
    FeedEscaped(s, frame, e, k);
    var t := Feed(s, frame, k + 1);
    NextIsPartner(e, k, t);
    assert frame[k + 1] == if k < |e| then e[k] else END;
    FullDrops(t, e, frame[k + 1]);
    FeedNext(s, frame, k + 1);
    if k < |e| {
      NoEndInside(e);
      RubbishStays(s, frame, k + 2, |e| + 1);
      FeedNext(s, frame, |e| + 1);
    }
  }

  lemma NextIsPartner(e: seq<byte>, k: nat, t: Rx)
    requires WellEscaped(e) && Pending(t, e, k)
    ensures t.mode == Esc ==> k < |e| && (e[k] == ESC_END || e[k] == ESC_ESC)
  {
    if t.mode == Esc {
      assert k > 0 && e[k - 1] == ESC;
    }
  }

  lemma NoEndInside(e: seq<byte>)
    requires WellEscaped(e)
    ensures forall i :: 0 <= i < |e| ==> e[i] != END
  {
  }

  lemma FeedNext(s: Rx, bytes: seq<byte>, n: nat)
    requires InRange(s) && n < |bytes|
    ensures Feed(s, bytes, n + 1) == Input(Feed(s, bytes, n), bytes[n])
  {
  }

  /** A frame with a bad escape is dropped, whatever follows up to its END. */
  lemma BadEscapeIsDropped(s: Rx, e: seq<byte>, c: byte, rest: seq<byte>)
    requires Idle(s) && WellEscaped(e) && |e| + 1 < RX_BUFSIZE && c != ESC_END && c != ESC_ESC
    requires forall i :: 0 <= i < |rest| ==> rest[i] != END
    ensures var bytes := [END] + e + [ESC, c] + rest + [END]; Idle(Feed(s, bytes, |bytes|))
  {
    hide Pending, WellEscaped, Feed;
    var bytes, n := [END] + e + [ESC, c] + rest + [END], |e|;
    assert bytes[..n + 1] == [END] + e && bytes[n + 1] == ESC && bytes[n + 2] == c;
    FeedEscaped(s, bytes, e, n);
    FeedNext(s, bytes, n + 1);
    FeedNext(s, bytes, n + 2);
    BadEscape(Feed(s, bytes, n + 1), e, c);
    assert forall i :: n + 3 <= i < n + 3 + |rest| ==> bytes[i] == rest[i - (n + 3)];
    RubbishStays(s, bytes, n + 3, n + 3 + |rest|);
    FeedNext(s, bytes, n + 3 + |rest|);
  }

  lemma BadEscape(s: Rx, e: seq<byte>, c: byte)
    requires Pending(s, e, |e|) && WellEscaped(e) && |e| + 1 < RX_BUFSIZE && c != ESC_END && c != ESC_ESC
    ensures var t := Input(Input(s, ESC), c); t.mode == Rubbish && Empty(t)
  {
  }

  /** Behind packet e come an END and the first k bytes of f, which has not ended; t is the driver as it was with e alone. */
  ghost predicate Queued(t: Rx, u: Rx, e: seq<byte>, f: seq<byte>, k: nat) {
    && Buffered(t, e) && InRange(u) && u.begin == t.begin && u.pktEnd == t.pktEnd && k <= |f| && |e| + k + 2 < RX_BUFSIZE
    && u.nextFree == Off(t.begin, |e| + 2 + k) && u.rxbuf[Off(t.begin, |e| + 1)] == END
    && (forall i :: 0 <= i < |e| ==> u.rxbuf[Off(t.begin, i)] == t.rxbuf[Off(t.begin, i)])
    && u.mode == if k > 0 && f[k - 1] == ESC then Esc else Ok
  }

  lemma QueueEnd(t: Rx, e: seq<byte>, f: seq<byte>)
    requires Buffered(t, e) && |e| + 2 < RX_BUFSIZE
    ensures Queued(t, Input(t, END), e, f, 0)
  {
    assert t.nextFree == Off(t.begin, |e| + 1);
    assert forall i :: 0 <= i < |e| ==> Off(t.begin, i) != t.nextFree;
  }

  lemma QueueByte(t: Rx, u: Rx, e: seq<byte>, f: seq<byte>, k: nat)
    requires Queued(t, u, e, f, k) && WellEscaped(f) && k < |f| && |e| + k + 3 < RX_BUFSIZE
    ensures Queued(t, Input(u, f[k]), e, f, k + 1)
  {
    assert k > 0 && f[k - 1] == ESC ==> f[k] == ESC_END || f[k] == ESC_ESC;
    assert forall i :: 0 <= i < |e| + 2 ==> Off(t.begin, i) != u.nextFree;
  }

  lemma {:induction false} QueueFrame(s: Rx, bytes: seq<byte>, n: nat, e: seq<byte>, f: seq<byte>, k: nat)
    requires InRange(s) && n + 1 + |f| <= |bytes| && Buffered(Feed(s, bytes, n), e) && WellEscaped(f) && |e| + |f| + 3 < RX_BUFSIZE
    requires bytes[n] == END && k <= |f| && forall i :: 0 <= i < |f| ==> bytes[n + 1 + i] == f[i]
    ensures Queued(Feed(s, bytes, n), Feed(s, bytes, n + 1 + k), e, f, k)
  {
    hide Queued, Buffered, WellEscaped, Feed, Input;
    if k == 0 {
      FeedNext(s, bytes, n);
      QueueEnd(Feed(s, bytes, n), e, f);
    } else {
      QueueFrame(s, bytes, n, e, f, k - 1);
      FeedNext(s, bytes, n + k);
      QueueByte(Feed(s, bytes, n), Feed(s, bytes, n + k), e, f, k - 1);
    }
  }

  /**
   Two frames before the first is polled: the opening END of the second is stored like a byte. The first poll returns
   the first payload, and then nothing can be polled although the second frame is still in the buffer.
   */
  lemma SecondFrameIsStranded(s: Rx, p: seq<byte>, q: seq<byte>, blen: nat)
    requires Idle(s) && 1 <= |p| <= blen && |Escaped(p, |p|)| + |Escaped(q, |q|)| + 3 < RX_BUFSIZE
    ensures var two := Feed(s, Frame(p) + Frame(q), |Frame(p) + Frame(q)|);
      && Packet(two, blen) == p && Polled(two).begin == Polled(two).pktEnd != Polled(two).nextFree
      && Packet(Polled(two), blen) == []
  {
    hide Escaped, Feed, Buffered, Queued, Decode, DecodeByte, WellEscaped, Polled, Packet, Input;
    var e, f, both, n := Escaped(p, |p|), Escaped(q, |q|), Frame(p) + Frame(q), |Frame(p)|;
    EscapedIsWellEscaped(q, |q|);
    EscapedNotEmpty(p);
    FeedFrame(s, p);
    FeedPrefix(s, Frame(p), Frame(q), n);
    assert both[n] == END && both[n + 1 + |f|] == END && |both| == n + |f| + 2;
    assert forall i :: 0 <= i < |f| ==> both[n + 1 + i] == f[i];
    QueueFrame(s, both, n, e, f, |f|);
    FeedNext(s, both, n + 1 + |f|);
    Stranded(Feed(s, both, n), Feed(s, both, n + 1 + |f|), e, f, p, blen);
  }

  lemma EscapedNotEmpty(p: seq<byte>)
    requires |p| >= 1
    ensures |Escaped(p, |p|)| >= 1
  {
    EscapedIsWellEscaped(p, |p|);
  }

  lemma {:induction false} FeedPrefix(s: Rx, a: seq<byte>, b: seq<byte>, n: nat)
    requires InRange(s) && n <= |a|
    ensures Feed(s, a + b, n) == Feed(s, a, n)
  {
    if n > 0 {
      FeedPrefix(s, a, b, n - 1);
    }
  }

  lemma Stranded(t: Rx, u: Rx, e: seq<byte>, f: seq<byte>, p: seq<byte>, blen: nat)
    requires Queued(t, u, e, f, |f|) && WellEscaped(f) && |e| + |f| + 3 < RX_BUFSIZE && e == Escaped(p, |p|) && |p| <= blen
    ensures var w := Input(u, END);
      && Packet(w, blen) == p && Polled(w).begin == Polled(w).pktEnd != Polled(w).nextFree && Packet(Polled(w), blen) == []
  {
    hide Escaped, Decode, DecodeByte, Packet;
    PollPacket(t, p, blen);
    var w := Input(u, END);
    ClosingEnd(t, u, e, f);
    SamePacket(t, w, e, blen);
    NothingToPoll(Polled(w), blen);
  }

  lemma ClosingEnd(t: Rx, u: Rx, e: seq<byte>, f: seq<byte>)
    requires Queued(t, u, e, f, |f|) && WellEscaped(f) && |e| + |f| + 3 < RX_BUFSIZE
    ensures var w := Input(u, END);
      && w.begin == t.begin && w.pktEnd == t.pktEnd && Polled(w).begin == Polled(w).pktEnd != Polled(w).nextFree
      && forall i :: 0 <= i < |e| ==> w.rxbuf[Off(t.begin, i)] == t.rxbuf[Off(t.begin, i)]
  {
    assert u.mode == Ok;
    assert forall i :: 0 <= i < |e| + 2 ==> Off(t.begin, i) != u.nextFree;
    assert Next(u.pktEnd) == Off(t.begin, |e| + 1);
  }

  lemma NothingToPoll(s: Rx, blen: nat)
    requires InRange(s) && s.begin == s.pktEnd
    ensures Packet(s, blen) == []
  {
  }

  /** What is stored behind a packet does not change it. */
  lemma SamePacket(t: Rx, u: Rx, e: seq<byte>, blen: nat)
    requires Buffered(t, e) && InRange(u) && u.begin == t.begin && u.pktEnd == t.pktEnd
    requires forall i :: 0 <= i < |e| ==> u.rxbuf[Off(t.begin, i)] == t.rxbuf[Off(t.begin, i)]
    ensures Packet(u, blen) == Packet(t, blen)
  {
    var w := u.(nextFree := t.nextFree, mode := Ok);
    assert Buffered(w, e) && Packet(w, blen) == Packet(u, blen);
    hide Decode, DecodeByte;
    forall i | 0 <= i < RX_BUFSIZE && (if t.begin < t.pktEnd then t.begin <= i < t.pktEnd else i >= t.begin || i < t.pktEnd)
      ensures u.rxbuf[i] == t.rxbuf[i]
    {
      var j := if i >= t.begin then i - t.begin else RX_BUFSIZE - t.begin + i;
      assert Off(t.begin, j) == i && j < |e|;
    }
    if t.begin < t.pktEnd {
      SameDecode(Decoder(false, [], false), t.rxbuf, u.rxbuf, t.begin, t.pktEnd, blen);
    } else {
      SameDecode(Decoder(false, [], false), t.rxbuf, u.rxbuf, t.begin, RX_BUFSIZE, blen);
      var d := Decode(Decoder(false, [], false), t.rxbuf, t.begin, RX_BUFSIZE, blen);
      SameDecode(d.(aborted := false), t.rxbuf, u.rxbuf, 0, t.pktEnd, blen);
    }
  }

  lemma {:induction false} SameDecode(d: Decoder, a: seq<byte>, b: seq<byte>, from: nat, stop: nat, blen: nat)
    requires from <= stop <= |a| && |a| == |b| && forall i :: from <= i < stop ==> b[i] == a[i]
    ensures Decode(d, b, from, stop, blen) == Decode(d, a, from, stop, blen)
    decreases stop
  {
    if from < stop {
      SameDecode(d, a, b, from, stop - 1, blen);
    }
  }

  // ----- The driver -----

  lemma {:induction false} AbortSticks(d: Decoder, rxbuf: seq<byte>, from: nat, i: nat, stop: nat, blen: nat)
    requires from <= i <= stop <= |rxbuf| && Decode(d, rxbuf, from, i, blen).aborted
    ensures Decode(d, rxbuf, from, stop, blen) == Decode(d, rxbuf, from, i, blen)
    decreases stop
  {
    if i < stop {
      AbortSticks(d, rxbuf, from, i, stop - 1, blen);
    }
  }

  class Receiver {
    var mode: Mode
    var begin: nat
    var nextFree: nat
    var pktEnd: nat
    const rxbuf: array<byte>

    ghost function State(): Rx
      reads this, rxbuf
    {
      Rx(mode, begin, nextFree, pktEnd, rxbuf[..])
    }

    /** rxbuf_init */
    constructor ()
      ensures Idle(State()) && fresh(rxbuf)
    {
      mode, begin, nextFree, pktEnd := Ok, 0, 0, 0;
      rxbuf := new byte[RX_BUFSIZE];
    }

    /** slip_input_byte; `polled` says that a packet has ended. */
    method InputByte(c: byte) returns (polled: bool)
      requires InRange(State())
      modifies this, rxbuf
      ensures State() == Input(old(State()), c)
      ensures polled ==> c == END && State().begin != State().pktEnd
      ensures old(begin == pktEnd) && State().begin != State().pktEnd ==> polled
    {
      if mode == Rubbish {
        if c == END {
          mode := Ok;
        }
        return false;
      }
      if mode == Esc {
        if c != ESC_END && c != ESC_ESC {
          mode, nextFree := Rubbish, pktEnd;
          return false;
        }
        mode := Ok;
      }
      if c == ESC {
        mode := Esc;
      }
      var curEnd := nextFree;
      nextFree := nextFree + 1;
      if nextFree == RX_BUFSIZE {
        nextFree := 0;
      }
      if nextFree == begin {
        mode, nextFree := Rubbish, pktEnd;
        return false;
      }
      rxbuf[curEnd] := c;
      if c == END {
        if curEnd != pktEnd {
          if begin == pktEnd {
            pktEnd := curEnd;
          }
          return true;
        }
        nextFree := curEnd;
      }
      return false;
    }

    /** One of the decoding loops of slip_poll_handler, which has the same loop three times. */
    method DecodeLoop(from: nat, stop: nat, blen: nat, esc0: bool, out0: seq<byte>) returns (esc: bool, out: seq<byte>)
      requires from <= stop <= rxbuf.Length
      ensures var d := Decode(Decoder(esc0, out0, false), rxbuf[..], from, stop, blen); esc == d.esc && out == d.out
    {
      esc, out := esc0, out0;
      var i := from;
      while i < stop
        invariant from <= i <= stop
        invariant Decode(Decoder(esc0, out0, false), rxbuf[..], from, i, blen) == Decoder(esc, out, false)
      {
        if |out| > blen {
          out := [];
          AbortSticks(Decoder(esc0, out0, false), rxbuf[..], from, i + 1, stop, blen);
          break;
        }
        if esc {
          if rxbuf[i] == ESC_ESC {
            out := out + [ESC];
          } else if rxbuf[i] == ESC_END {
            out := out + [END];
          }
          esc := false;
        } else if rxbuf[i] == ESC {
          esc := true;
        } else {
          out := out + [rxbuf[i]];
        }
        i := i + 1;
      }
    }

    /** slip_poll_handler; `again` says that it asks to be polled once more. */
    method PollHandler(blen: nat) returns (out: seq<byte>, again: bool)
      requires InRange(State())
      modifies this
      ensures out == Packet(old(State()), blen)
      ensures State() == Polled(old(State()))
      ensures again <==> old(begin != pktEnd) && NextEnd(old(State())) != old(nextFree)
    {
      out, again := [], false;
      if begin != pktEnd {
        out := Copy(blen);
        pktEnd := Next(pktEnd);
        if pktEnd != nextFree {
          var cur := pktEnd;
          while cur != nextFree && rxbuf[cur] != END
            invariant 0 <= cur < RX_BUFSIZE
            invariant FindEnd(rxbuf[..], cur, nextFree) == FindEnd(rxbuf[..], pktEnd, nextFree)
            decreases if cur <= nextFree then nextFree - cur else RX_BUFSIZE - cur + nextFree
          {
            cur := Next(cur);
          }
          begin := pktEnd;
          if cur != nextFree {
            pktEnd := cur;
            again := true;
          }
        } else {
          begin := pktEnd;
        }
      }
    }

    method Copy(blen: nat) returns (out: seq<byte>)
      requires InRange(State()) && begin != pktEnd
      ensures out == Packet(State(), blen)
    {
      var esc;
      if begin < pktEnd {
        esc, out := DecodeLoop(begin, pktEnd, blen, false, []);
      } else {
        esc, out := DecodeLoop(begin, RX_BUFSIZE, blen, false, []);
        esc, out := DecodeLoop(0, pktEnd, blen, esc, out);
      }
    }
  }
}
