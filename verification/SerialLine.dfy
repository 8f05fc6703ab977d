/**
 The serial line driver of os/dev/serial-line.c: bytes from the interrupt go through the ring buffer to a process
 that puts lines together.
 */
module SerialLine {
  import opened RingBuffer

  const BUFSIZE := 128
  const END: byte := 0x0a
  const IGNORED: byte := 0x0d

  // ----- Putting lines together -----

  /** The lines posted so far and the line in the making. */
  datatype Assembly = Assembly(lines: seq<seq<byte>>, buf: seq<byte>)

  /** What the process does with a byte; what does not fit in the line is dropped. */
  function Take(a: Assembly, c: byte): Assembly {
    if c == END then Assembly(a.lines + [a.buf], [])
    else if |a.buf| < BUFSIZE - 1 then a.(buf := a.buf + [c])
    else a
  }

  function TakeAll(a: Assembly, bytes: seq<byte>): Assembly {
    if bytes == [] then a else Take(TakeAll(a, bytes[..|bytes| - 1]), bytes[|bytes| - 1])
  }

  lemma TakeSnoc(a: Assembly, bytes: seq<byte>, c: byte)
    ensures TakeAll(a, bytes + [c]) == Take(TakeAll(a, bytes), c)
  {
    assert (bytes + [c])[..|bytes|] == bytes;
  }

  lemma {:induction false} TakeConcat(a: Assembly, x: seq<byte>, y: seq<byte>)
    ensures TakeAll(a, x + y) == TakeAll(TakeAll(a, x), y)
    decreases |y|
  {
    if y == [] {
      assert x + y == x;
    } else {
      var front, c := y[..|y| - 1], y[|y| - 1];
      TakeConcat(a, x, front);
      TakeSnoc(a, x + front, c);
      TakeSnoc(TakeAll(a, x), front, c);
      assert x + y == (x + front) + [c] && y == front + [c];
    }
  }

  /** A line that can be sent: short enough, and without the two special bytes. */
  ghost predicate Sendable(line: seq<byte>) {
    |line| < BUFSIZE && END !in line && IGNORED !in line
  }

  lemma {:induction false} TakeText(lines: seq<seq<byte>>, text: seq<byte>)
    requires Sendable(text)
    ensures TakeAll(Assembly(lines, []), text) == Assembly(lines, text)
    decreases |text|
  {
    if text != [] {
      TakeText(lines, text[..|text| - 1]);
      assert text == text[..|text| - 1] + [text[|text| - 1]];
    }
  }

  lemma TakeEnd(lines: seq<seq<byte>>, line: seq<byte>)
    ensures Take(Assembly(lines, line), END) == Assembly(lines + [line], [])
  {
  }

  /** The bytes of some lines, each with its end. */
  function Stream(lines: seq<seq<byte>>, n: nat): seq<byte>
    requires n <= |lines|
  {
    if n == 0 then [] else Stream(lines, n - 1) + lines[n - 1] + [END]
  }

  lemma NothingTaken(a: Assembly)
    ensures TakeAll(a, []) == a
  {
  }

  lemma TakeLine(start: Assembly, front: seq<byte>, done: seq<seq<byte>>, line: seq<byte>)
    requires TakeAll(start, front) == Assembly(done, []) && Sendable(line)
    ensures TakeAll(start, front + line + [END]) == Assembly(done + [line], [])
  {
    hide Take, TakeAll, Sendable;
    TakeConcat(start, front, line);
    TakeText(done, line);
    TakeSnoc(start, front + line, END);
    TakeEnd(done, line);
  }

  /** Lines that can be sent come out as they went in. */
  lemma {:induction false} StreamIsAssembled(lines: seq<seq<byte>>, n: nat)
    requires n <= |lines| && forall i :: 0 <= i < |lines| ==> Sendable(lines[i])
    ensures TakeAll(Assembly([], []), Stream(lines, n)) == Assembly(lines[..n], [])
  {
    NothingTaken(Assembly([], []));
    hide TakeAll, Sendable, Take;
    if n > 0 {
      StreamIsAssembled(lines, n - 1);
      TakeLine(Assembly([], []), Stream(lines, n - 1), lines[..n - 1], lines[n - 1]);
      assert lines[..n] == lines[..n - 1] + [lines[n - 1]];
    }
  }

  // ----- The driver -----

  /** What the process keeps of a line. */
  function Kept(line: seq<byte>): seq<byte> {
    if |line| < BUFSIZE then line else line[..BUFSIZE - 1]
  }

  lemma {:induction false} TakeLongText(lines: seq<seq<byte>>, text: seq<byte>)
    requires END !in text
    ensures TakeAll(Assembly(lines, []), text) == Assembly(lines, Kept(text))
    decreases |text|
  {
    if text != [] {
      var front, c := text[..|text| - 1], text[|text| - 1];
      TakeLongText(lines, front);
      assert text == front + [c];
      if |front| >= BUFSIZE {
        assert front[..BUFSIZE - 1] == text[..BUFSIZE - 1];
      }
    }
  }

  /** Lines of any length come out in order, each cut to what fits. */
  lemma {:induction false} LongLinesAreCut(lines: seq<seq<byte>>, n: nat)
    requires n <= |lines| && forall i :: 0 <= i < |lines| ==> END !in lines[i]
    ensures TakeAll(Assembly([], []), Stream(lines, n)) == Assembly(seq(n, i requires 0 <= i < n => Kept(lines[i])), [])
  {
    if n == 0 {
      NothingTaken(Assembly([], []));
    } else {
      LongLinesAreCut(lines, n - 1);
      var done := seq(n - 1, i requires 0 <= i < n - 1 => Kept(lines[i]));
      var front, line := Stream(lines, n - 1), lines[n - 1];
      TakeConcat(Assembly([], []), front, line);
      TakeLongText(done, line);
      TakeSnoc(Assembly([], []), front + line, END);
      TakeEnd(done, Kept(line));
      assert seq(n, i requires 0 <= i < n => Kept(lines[i])) == done + [Kept(line)];
    }
  }

  /** A byte goes into the ring if there is room, and after an overflow only if it ends a line. */
  predicate Accepts(overflow: bool, buffered: nat, c: byte) {
    c != IGNORED && buffered < BUFSIZE - 1 && (overflow ==> c == END)
  }

  class SerialDriver {
    const ring: RingBuf
    var overflow: bool
    var buf: seq<byte>
    var lines: seq<seq<byte>>
    ghost var sent: seq<byte>  // all bytes that came in, without the ignored ones
    ghost var lossless: bool   // no put has been refused

    ghost predicate Valid()
      reads this, ring
    {
      && ring.Valid() && |ring.data| == BUFSIZE
      && TakeAll(Assembly([], []), ring.returned) == Assembly(lines, buf)
      && |ring.returned| <= |ring.accepted|
      && (lossless ==> ring.accepted == sent && !overflow)
    }

    /** Nothing was lost, and nothing is left in the ring. */
    ghost predicate Drained()
      reads this, ring
    {
      Valid() && lossless && ring.Contents() == []
    }

    constructor (data: seq<byte>)
      requires |data| == BUFSIZE
      ensures Drained() && fresh(ring) && sent == [] && lines == []
    {
      ring := new RingBuf(data);
      overflow, buf, lines, sent, lossless := false, [], [], [], true;
    }

    /** serial_line_input_byte */
    method InputByte(c: byte)
      requires Valid()
      modifies this, ring
      ensures Valid() && lines == old(lines) && buf == old(buf)
      ensures sent == if c == IGNORED then old(sent) else old(sent) + [c]
      ensures old(lossless) ==> (lossless <==> c == IGNORED || |old(ring.Contents())| < BUFSIZE - 1)
      ensures ring.Contents() == if Accepts(old(overflow), |old(ring.Contents())|, c) then old(ring.Contents()) + [c] else old(ring.Contents())
      ensures overflow == if c == IGNORED then old(overflow) else !Accepts(old(overflow), |old(ring.Contents())|, c)
    {
      if c == IGNORED {
        return;
      }
      sent := sent + [c];
      if !overflow {
        var ok := ring.Put(c);
        if !ok {
          overflow := true;
          lossless := false;
        }
      } else if c == END {
        var ok := ring.Put(c);
        if ok {
          overflow := false;
        }
      }
    }

    /** One turn of the loop of serial_line_process; false when the ring is empty. */
    method ProcessByte() returns (more: bool)
      requires Valid()
      modifies `buf, `lines, ring
      ensures Valid()
      ensures more <==> old(ring.Contents()) != []
      ensures more ==> ring.Contents() == old(ring.Contents())[1..]
      ensures more ==> Assembly(lines, buf) == Take(old(Assembly(lines, buf)), old(ring.Contents())[0])
      ensures !more ==> Assembly(lines, buf) == old(Assembly(lines, buf)) && ring.Contents() == []
    {
      var c := ring.Get();
      if c == -1 {
        return false;
      }
      TakeSnoc(Assembly([], []), old(ring.returned), c);
      if c != END {
        if |buf| < BUFSIZE - 1 {
          buf := buf + [c];
        }
      } else {
        lines := lines + [buf];
        buf := [];
      }
      return true;
    }

    /** However bytes and turns were interleaved, once the ring is empty all lines are there, if none was lost. */
    lemma AllLinesArrive(sentLines: seq<seq<byte>>)
      requires Drained()
      requires sent == Stream(sentLines, |sentLines|) && forall i :: 0 <= i < |sentLines| ==> Sendable(sentLines[i])
      ensures lines == sentLines && buf == []
    {
      assert ring.returned == ring.accepted;
      StreamIsAssembled(sentLines, |sentLines|);
      assert sentLines[..|sentLines|] == sentLines;
    }
  }
}
