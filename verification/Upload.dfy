/**
 The upload of the schedule file: hexadecimal lines on the scheduler's side (Master/Python/upload_schedule.py), the
 serial line between them (os/dev/serial-line.c), and on the mote decoding in place and writing to flash
 (os/net/master-routing/master-schedule.c).
 */
module Upload {
  import opened Options
  import opened RingBuffer
  import opened SerialLine

  const MESSAGE_BEGIN: byte := 0
  const MESSAGE_CONTINUE: byte := 1
  const MESSAGE_END: byte := 2
  const CHUNK := 39

  // ----- Hexadecimal -----

  /** '0' to '9' and 'A' to 'F' */
  function Digit(nibble: nat): byte
    requires nibble < 16
  {
    if nibble > 9 then nibble - 10 + 65 else nibble + 48
  }

  /** byte_to_ascii */
  function ByteToAscii(b: byte): (s: seq<byte>)
    ensures |s| == 2
  {
    [Digit(b / 16), Digit(b % 16)]
  }

  /** The value of a digit in 8-bit arithmetic. */
  function DigitValue(c: byte): byte {
    if c >= 65 then (c - 55) % 256 else (c - 48) % 256
  }

  /** asciiHex_to_int, on the two bytes at a position */
  function AsciiToByte(high: byte, low: byte): byte {
    if high == 0 then 0 else (16 * DigitValue(high) + DigitValue(low)) % 256
  }

  /** The digits are the hexadecimal ones with capital letters. */
  lemma DigitsAre(n: nat)
    requires n < 16
    ensures Digit(n) == ("0123456789ABCDEF"[n]) as int
  {
  }

  lemma DigitRoundTrip(n: nat)
    requires n < 16
    ensures DigitValue(Digit(n)) == n && 48 <= Digit(n) <= 70
  {
  }

  lemma HexRoundTrip(b: byte)
    ensures var s := ByteToAscii(b); AsciiToByte(s[0], s[1]) == b && s[0] != 0 && s[1] != 0
    ensures var s := ByteToAscii(b); 48 <= s[0] <= 70 && 48 <= s[1] <= 70
  {
    DigitRoundTrip(b / 16);
    DigitRoundTrip(b % 16);
    hide Digit, DigitValue;
  }

  /** The digits of some bytes. */
  function Hex(bytes: seq<byte>): (r: seq<byte>)
    ensures |r| == 2 * |bytes|
  {
    seq(2 * |bytes|, i requires 0 <= i < 2 * |bytes| => ByteToAscii(bytes[i / 2])[i % 2])
  }

  /** The bytes of an even number of digits. */
  function FromHex(digits: seq<byte>): (r: seq<byte>)
    requires |digits| % 2 == 0
    ensures |r| == |digits| / 2
  {
    seq(|digits| / 2, i requires 0 <= i < |digits| / 2 => AsciiToByte(digits[2 * i], digits[2 * i + 1]))
  }

  lemma FromHexOfHex(bytes: seq<byte>)
    ensures FromHex(Hex(bytes)) == bytes
  {
    forall i | 0 <= i < |bytes|
      ensures FromHex(Hex(bytes))[i] == bytes[i]
    {
      HexRoundTrip(bytes[i]);
      assert Hex(bytes)[2 * i] == ByteToAscii(bytes[i])[0];
      assert Hex(bytes)[2 * i + 1] == ByteToAscii(bytes[i])[1];
    }
  }

  lemma HexIsDigits(bytes: seq<byte>)
    ensures forall i :: 0 <= i < |Hex(bytes)| ==> 48 <= Hex(bytes)[i] <= 70
  {
    forall i | 0 <= i < |Hex(bytes)|
      ensures 48 <= Hex(bytes)[i] <= 70
    {
      HexRoundTrip(bytes[i / 2]);
    }
  }

  lemma HexSnoc(bytes: seq<byte>, b: byte)
    ensures Hex(bytes + [b]) == Hex(bytes) + ByteToAscii(b)
  {
    forall i | 0 <= i < 2 * |bytes|
      ensures Hex(bytes + [b])[i] == Hex(bytes)[i]
    {
      assert (bytes + [b])[i / 2] == bytes[i / 2];
    }
  }

  // ----- The sender -----

  function ChunkAt(file: seq<byte>, k: nat): seq<byte>
    requires CHUNK * k <= |file|
  {
    if CHUNK * (k + 1) <= |file| then file[CHUNK * k..CHUNK * (k + 1)] else file[CHUNK * k..]
  }

  /** The first line begins, the last of several ends, the ones between continue. */
  function Prefix(n: nat, k: nat): byte {
    if k == 0 then MESSAGE_BEGIN else if CHUNK * (k + 1) >= n then MESSAGE_END else MESSAGE_CONTINUE
  }

  function LineCount(n: nat): nat {
    if n == 0 then 1 else (n + CHUNK - 1) / CHUNK
  }

  function LineAt(file: seq<byte>, k: nat): seq<byte>
    requires CHUNK * k <= |file|
  {
    Hex([Prefix(|file|, k)] + ChunkAt(file, k))
  }

  method ToAscii(bytes: seq<byte>) returns (text: seq<byte>)
    ensures text == Hex(bytes)
  {
    text := [];
    for i := 0 to |bytes|
      invariant text == Hex(bytes[..i])
    {
      text := text + ByteToAscii(bytes[i]);
      HexSnoc(bytes[..i], bytes[i]);
      assert bytes[..i + 1] == bytes[..i] + [bytes[i]];
    }
    assert bytes[..|bytes|] == bytes;
  }

  /** The lines that an upload of a file sends; each goes out with its end. */
  ghost predicate LinesOf(file: seq<byte>, lines: seq<seq<byte>>) {
    |lines| == LineCount(|file|) && forall k :: 0 <= k < |lines| ==> CHUNK * k <= |file| && lines[k] == LineAt(file, k)
  }

  /** The number of bytes that k reads get. */
  function Tell(n: nat, k: nat): nat {
    if CHUNK * k <= n then CHUNK * k else n
  }

  /** What is sent as line k. */
  ghost predicate BytesOf(file: seq<byte>, k: nat, bytes: seq<byte>) {
    (k == 0 || CHUNK * k < |file|) && bytes == [Prefix(|file|, k)] + ChunkAt(file, k)
  }

  /** The read for line k, and its prefix; nothing at the end of the file. */
  method ReadNext(file: seq<byte>, tell: nat, ghost k: nat) returns (bytes: seq<byte>, next: nat)
    requires k >= 1 && tell == Tell(|file|, k)
    ensures next == Tell(|file|, k + 1)
    ensures bytes == [] <==> CHUNK * k >= |file|
    ensures bytes != [] ==> BytesOf(file, k, bytes)
  {
    next := if tell + CHUNK <= |file| then tell + CHUNK else |file|;
    bytes := file[tell..next];
    if bytes != [] {
      assert bytes == ChunkAt(file, k);
      if |bytes| != CHUNK || next == |file| {
        bytes := [MESSAGE_END] + bytes;
      } else {
        bytes := [MESSAGE_CONTINUE] + bytes;
      }
    }
  }

  lemma CountIs(n: nat, k: nat)
    requires k >= 1 && (k == 1 || CHUNK * (k - 1) < n) && CHUNK * k >= n
    ensures k == LineCount(n)
  {
  }

  /** The loop of upload_schedule_kiel. A last, empty line follows. */
  method UploadSchedule(file: seq<byte>) returns (lines: seq<seq<byte>>)
    ensures Sent(file, lines)
  {
    hide Hex, Prefix, ChunkAt, LineCount;
    ghost var n := |file|;
    lines := [];
    var tell := if CHUNK <= |file| then CHUNK else |file|;
    var bytes := [MESSAGE_BEGIN] + file[..tell];
    FirstBytes(file);
    while bytes != []
      invariant bytes != [] ==> tell == Tell(n, |lines| + 1) && BytesOf(file, |lines|, bytes)
      invariant bytes == [] ==> |lines| == LineCount(n)
      invariant forall k :: 0 <= k < |lines| ==> CHUNK * k <= n && lines[k] == LineAt(file, k)
      decreases bytes != [], n - CHUNK * |lines|
    {
      var text := ToAscii(bytes);
      lines := lines + [text];
      bytes, tell := ReadNext(file, tell, |lines|);
      if bytes == [] {
        CountIs(n, |lines|);
      }
    }
    ghost var sent := lines;
    lines := lines + [[]];
    assert lines[..|lines| - 1] == sent;
  }

  lemma FirstBytes(file: seq<byte>)
    ensures BytesOf(file, 0, [MESSAGE_BEGIN] + file[..Tell(|file|, 1)])
  {
  }

  /** There is a line that ends the message exactly for files that need more than one line. */
  lemma EndsExactlyWhenLong(n: nat)
    ensures (exists k :: 0 <= k < LineCount(n) && Prefix(n, k) == MESSAGE_END) <==> n > CHUNK
    ensures Prefix(n, 0) == MESSAGE_BEGIN
    ensures forall k :: 0 < k < LineCount(n) - 1 ==> Prefix(n, k) == MESSAGE_CONTINUE
    ensures n > CHUNK ==> Prefix(n, LineCount(n) - 1) == MESSAGE_END
  {
    if n > CHUNK {
      assert Prefix(n, LineCount(n) - 1) == MESSAGE_END;
    }
  }

  // ----- The mote -----

  /**
   The loader of the schedule: whether it still listens, what it wrote to flash, and the line buffer that it shares
   with the serial driver. `Overrun` stands for a decoding loop that has read past the end of the buffer.
   */
  datatype Loader = Loader(loading: bool, flash: seq<byte>, buf: seq<byte>) | Overrun

  /** How many digit pairs there are from `at` on before a zero in the place of a first digit. */
  function PairCount(data: seq<byte>, at: nat): (r: Option<nat>)
    ensures r.Some? ==> at + 2 * r.value < |data| && data[at + 2 * r.value] == 0
    decreases |data| - at
  {
    if at >= |data| then None
    else if data[at] == 0 then Some(0)
    else match PairCount(data, at + 2)
         case None => None
         case Some(n) => Some(n + 1)
  }

  /** The buffer after n pairs from `off` on were decoded in place. */
  function DecodedAt(data: seq<byte>, off: nat, n: nat): (r: seq<byte>)
    requires off + 2 * n <= |data|
    ensures |r| == |data|
  {
    data[..off] + FromHex(data[off..off + 2 * n]) + data[off + n..]
  }

  /** The reaction to a buffer: known messages are decoded to flash, the ending one stops the loader. */
  function React(l: Loader): Loader
    requires l.Loader? ==> |l.buf| == BUFSIZE
  {
    if l.Overrun? || !l.loading || AsciiToByte(l.buf[0], l.buf[1]) > MESSAGE_END then l
    else match PairCount(l.buf, 2)
         case None => Overrun
         case Some(n) =>
           Loader(AsciiToByte(l.buf[0], l.buf[1]) != MESSAGE_END, l.flash + FromHex(l.buf[2..2 + 2 * n]), DecodedAt(l.buf, 2, n))
  }

  /** The driver writes a line and a zero over the front of its buffer; what is behind stays. */
  function Stored(buf: seq<byte>, line: seq<byte>): (r: seq<byte>)
    requires |line| < |buf|
    ensures |r| == |buf|
  {
    line + [0] + buf[|line| + 1..]
  }

  /** What the loader does with a line. */
  function Handle(l: Loader, line: seq<byte>): (r: Loader)
    requires |line| < BUFSIZE && (l.Loader? ==> |l.buf| == BUFSIZE)
    ensures r.Loader? ==> |r.buf| == BUFSIZE
  {
    if l.Overrun? then l else React(l.(buf := Stored(l.buf, line)))
  }

  /** The buffer after `half` of n pairs were decoded. */
  ghost predicate Decoding(was: seq<byte>, data: seq<byte>, off: nat, n: nat, half: nat) {
    && half <= n && off + 2 * n < |was| == |data| && PairsFrom(was, off + 2 * half, n - half)
    && (forall i :: off <= i < off + half ==> data[i] == FromHex(was[off..off + 2 * n])[i - off])
    && (forall i :: 0 <= i < off || off + half <= i < |data| ==> data[i] == was[i])
  }

  lemma DecodingStarts(was: seq<byte>, off: nat, n: nat)
    requires PairsFrom(was, off, n) && off + 2 * n < |was|
    ensures Decoding(was, was, off, n, 0)
  {
  }

  /** The zero is reached exactly after all pairs; before it, a pair can be decoded over what was decoded already. */
  lemma DecodingStep(was: seq<byte>, data: seq<byte>, off: nat, n: nat, half: nat)
    requires Decoding(was, data, off, n, half)
    ensures off + 2 * half < |data| && (data[off + 2 * half] == 0 <==> half == n)
    ensures half < n ==>
      off + 2 * half + 1 < |data| &&
      Decoding(was, data[off + half := AsciiToByte(data[off + 2 * half], data[off + 2 * half + 1])], off, n, half + 1)
  {
    hide AsciiToByte, PairsFrom, FromHex;
    NextPair(was, off + 2 * half, n - half);
    if half < n {
      DecodedPair(was, off, n, half);
    }
  }

  /** The loop of write_to_flash: decodes in place, the bytes over the digits they come from. */
  method DecodeInPlace(data: array<byte>, off: nat, ghost n: nat) returns (len: nat)
    requires PairsFrom(data[..], off, n) && off + 2 * n < data.Length
    modifies data
    ensures len == 2 * n && Decoding(old(data[..]), data[..], off, n, n)
  {
    hide *;
    ghost var was := data[..];
    ghost var cur := was;
    DecodingStarts(was, off, n);
    DecodingStep(was, cur, off, n, 0);
    len := 0;
    ghost var half: nat := 0;
    while data[off + len] != 0
      invariant half <= n && len == 2 * half && |cur| == data.Length
      invariant forall i :: 0 <= i < data.Length ==> data[i] == cur[i]
      invariant Decoding(was, cur, off, n, half) && off + len < data.Length
      decreases n - half
    {
      DecodingStep(was, cur, off, n, half);
      Half(half);
      cur := cur[off + half := AsciiToByte(cur[off + 2 * half], cur[off + 2 * half + 1])];
      data[off + len / 2] := AsciiToByte(data[off + len], data[off + len + 1]);
      len, half := len + 2, half + 1;
      DecodingStep(was, cur, off, n, half);
    }
    DecodingStep(was, cur, off, n, half);
    assert data[..] == cur;
  }

  lemma Half(n: nat)
    ensures 2 * n / 2 == n
  {
  }

  /** write_to_flash */
  method WriteToFlash(data: array<byte>, off: nat, flash: seq<byte>, ghost n: nat) returns (r: seq<byte>)
    requires PairsFrom(data[..], off, n) && off + 2 * n < data.Length
    modifies data
    ensures r == flash + FromHex(old(data[..])[off..off + 2 * n]) && data[..] == DecodedAt(old(data[..]), off, n)
  {
    hide *;
    var len := DecodeInPlace(data, off, n);
    DecodedIs(old(data[..]), data[..], off, n);
    Half(n);
    r := flash + data[off..off + len / 2];
  }

  ghost predicate PairsFrom(data: seq<byte>, at: nat, n: nat) {
    PairCount(data, at) == Some(n)
  }

  lemma PairsStart(data: seq<byte>, at: nat)
    requires PairCount(data, at).Some?
    ensures PairsFrom(data, at, PairCount(data, at).value) && at + 2 * PairCount(data, at).value < |data|
  {
  }

  lemma NextPair(data: seq<byte>, at: nat, n: nat)
    requires PairsFrom(data, at, n)
    ensures at < |data| && (data[at] == 0 <==> n == 0)
    ensures n > 0 ==> at + 2 < |data| && PairsFrom(data, at + 2, n - 1)
  {
  }

  lemma DecodedPair(data: seq<byte>, off: nat, n: nat, i: nat)
    requires off + 2 * n <= |data| && i < n
    ensures FromHex(data[off..off + 2 * n])[i] == AsciiToByte(data[off + 2 * i], data[off + 2 * i + 1])
  {
    FromHexAt(data[off..off + 2 * n], i);
  }

  lemma DecodedIs(was: seq<byte>, data: seq<byte>, off: nat, n: nat)
    requires Decoding(was, data, off, n, n)
    ensures off + 2 * n <= |was| == |data|
    ensures data == DecodedAt(was, off, n) && data[off..off + n] == FromHex(was[off..off + 2 * n])
  {
    hide FromHex, PairsFrom;
  }

  lemma FromHexAt(digits: seq<byte>, i: nat)
    requires |digits| % 2 == 0 && 2 * i < |digits|
    ensures FromHex(digits)[i] == AsciiToByte(digits[2 * i], digits[2 * i + 1])
  {
  }

  /** The loader's reaction to the line in the buffer. */
  method HandleLine(data: array<byte>, loading: bool, flash: seq<byte>) returns (loading': bool, flash': seq<byte>)
    requires data.Length == BUFSIZE && React(Loader(loading, flash, data[..])) != Overrun
    modifies data
    ensures Loader(loading', flash', data[..]) == React(Loader(loading, flash, old(data[..])))
  {
    loading', flash' := loading, flash;
    if loading {
      var prefix := AsciiToByte(data[0], data[1]);
      if prefix == MESSAGE_BEGIN || prefix == MESSAGE_CONTINUE || prefix == MESSAGE_END {
        PairsStart(data[..], 2);
        flash' := WriteToFlash(data, 2, flash, PairCount(data[..], 2).value);
        loading' := prefix != MESSAGE_END;
      }
    }
  }

  ghost predicate FitLines(lines: seq<seq<byte>>) {
    forall k :: 0 <= k < |lines| ==> |lines[k]| < BUFSIZE
  }

  /** The loader after the first n lines. */
  function HandleAll(l: Loader, lines: seq<seq<byte>>, n: nat): (r: Loader)
    requires n <= |lines| && FitLines(lines) && (l.Loader? ==> |l.buf| == BUFSIZE)
    ensures r.Loader? ==> |r.buf| == BUFSIZE
  {
    if n == 0 then l else Handle(HandleAll(l, lines, n - 1), lines[n - 1])
  }

  // ----- A whole upload -----

  lemma HexHead(b: byte, rest: seq<byte>)
    ensures var line := Hex([b] + rest); AsciiToByte(line[0], line[1]) == b && line[2..] == Hex(rest)
  {
    var line := Hex([b] + rest);
    HexRoundTrip(b);
    assert line[0] == ByteToAscii(b)[0] && line[1] == ByteToAscii(b)[1];
    forall i | 0 <= i < 2 * |rest|
      ensures line[2..][i] == Hex(rest)[i]
    {
      assert ([b] + rest)[(i + 2) / 2] == rest[i / 2];
    }
  }

  lemma {:induction false} TextPairs(data: seq<byte>, at: nat, n: nat)
    requires at + 2 * n < |data| && data[at + 2 * n] == 0
    requires forall i :: at <= i < at + 2 * n ==> data[i] != 0
    ensures PairCount(data, at) == Some(n)
    decreases n
  {
    if n > 0 {
      TextPairs(data, at + 2, n - 1);
    }
  }

  /** A zero at an even distance ends the count there at the latest. */
  lemma {:induction false} PairsBeforeZero(data: seq<byte>, at: nat, n: nat)
    requires at + 2 * n < |data| && data[at + 2 * n] == 0
    ensures PairCount(data, at).Some? && PairCount(data, at).value <= n
    ensures PairCount(data, at) == Some(0) <==> data[at] == 0
    decreases n
  {
    if n > 0 && data[at] != 0 {
      PairsBeforeZero(data, at + 2, n - 1);
    }
  }

  /** The buffer after a line with a prefix and some bytes. */
  lemma StoredHex(buf: seq<byte>, b: byte, rest: seq<byte>)
    requires |buf| == BUFSIZE && |rest| <= CHUNK
    ensures |Hex([b] + rest)| < BUFSIZE
    ensures var data := Stored(buf, Hex([b] + rest));
      && AsciiToByte(data[0], data[1]) == b && PairCount(data, 2) == Some(|rest|)
      && data[2..2 + 2 * |rest|] == Hex(rest) && data[2 + 2 * |rest|] == 0
  {
    HexHead(b, rest);
    HexIsDigits([b] + rest);
    hide Hex, AsciiToByte;
    var line := Hex([b] + rest);
    var data := Stored(buf, line);
    assert forall i :: 0 <= i < |line| ==> data[i] == line[i];
    assert data[2..2 + 2 * |rest|] == line[2..];
    TextPairs(data, 2, |rest|);
  }

  /** A line of the upload adds its chunk, and the last of several stops the loader. */
  lemma HandlesLine(l: Loader, file: seq<byte>, k: nat)
    requires CHUNK * k <= |file| && l.Loader? && l.loading && |l.buf| == BUFSIZE
    ensures |LineAt(file, k)| < BUFSIZE
    ensures var chunk := ChunkAt(file, k);
      Handle(l, LineAt(file, k)) == Loader(Prefix(|file|, k) != MESSAGE_END, l.flash + chunk,
                                           DecodedAt(Stored(l.buf, LineAt(file, k)), 2, |chunk|))
  {
    hide *;
    var b, chunk := Prefix(|file|, k), ChunkAt(file, k);
    LineIs(file, k);
    HandlesHex(l, b, chunk);
  }

  lemma LineIs(file: seq<byte>, k: nat)
    requires CHUNK * k <= |file|
    ensures LineAt(file, k) == Hex([Prefix(|file|, k)] + ChunkAt(file, k))
    ensures |ChunkAt(file, k)| <= CHUNK && Prefix(|file|, k) <= MESSAGE_END
  {
    hide Hex;
  }

  lemma HandlesHex(l: Loader, b: byte, rest: seq<byte>)
    requires l.Loader? && l.loading && |l.buf| == BUFSIZE && b <= MESSAGE_END && |rest| <= CHUNK
    ensures |Hex([b] + rest)| < BUFSIZE
    ensures Handle(l, Hex([b] + rest)) == Loader(b != MESSAGE_END, l.flash + rest,
                                                 DecodedAt(Stored(l.buf, Hex([b] + rest)), 2, |rest|))
  {
    StoredHex(l.buf, b, rest);
    FromHexOfHex(rest);
    hide Hex, FromHex, AsciiToByte, PairCount, DecodedAt, Stored, React;
    Reacts(l.(buf := Stored(l.buf, Hex([b] + rest))), |rest|);
  }

  lemma Reacts(l: Loader, n: nat)
    requires l.Loader? && l.loading && |l.buf| == BUFSIZE && PairCount(l.buf, 2) == Some(n)
    requires AsciiToByte(l.buf[0], l.buf[1]) <= MESSAGE_END
    ensures React(l) == Loader(AsciiToByte(l.buf[0], l.buf[1]) != MESSAGE_END, l.flash + FromHex(l.buf[2..2 + 2 * n]),
                               DecodedAt(l.buf, 2, n))
  {
  }

  lemma NextChunk(file: seq<byte>, k: nat)
    requires CHUNK * k <= |file|
    ensures file[..Tell(|file|, k)] + ChunkAt(file, k) == file[..Tell(|file|, k + 1)]
  {
  }

  /** The lines start with those of an upload of the file. */
  ghost predicate UploadLines(file: seq<byte>, lines: seq<seq<byte>>) {
    && LineCount(|file|) <= |lines|
    && forall i :: 0 <= i < LineCount(|file|) ==> CHUNK * i <= |file| && lines[i] == LineAt(file, i)
  }

  /** After k lines the flash holds what k reads of the file got. */
  lemma {:induction false} LoadsUpTo(buf: seq<byte>, file: seq<byte>, lines: seq<seq<byte>>, k: nat)
    requires |buf| == BUFSIZE && UploadLines(file, lines) && k <= LineCount(|file|) && FitLines(lines)
    ensures var l := HandleAll(Loader(true, [], buf), lines, k);
      l.Loader? && l.flash == file[..Tell(|file|, k)] && (l.loading <==> !(k == LineCount(|file|) && |file| > CHUNK))
  {
    hide Hex, Handle, ChunkAt, LineAt;
    if k > 0 {
      LoadsUpTo(buf, file, lines, k - 1);
      HandlesLine(HandleAll(Loader(true, [], buf), lines, k - 1), file, k - 1);
      NextChunk(file, k - 1);
    }
  }

  lemma AllRead(file: seq<byte>)
    ensures file[..Tell(|file|, LineCount(|file|))] == file
  {
  }

  /** An empty line begins a message: the pairs that are left in the buffer behind the prefix are decoded. */
  lemma EmptyLine(l: Loader, n: nat)
    requires l.Loader? && l.loading && |l.buf| == BUFSIZE && 2 + 2 * n < BUFSIZE && l.buf[2 + 2 * n] == 0
    ensures var data := Stored(l.buf, []); var r := Handle(l, []);
      && AsciiToByte(data[0], data[1]) == MESSAGE_BEGIN && PairCount(data, 2).Some? && r.Loader? && r.loading
      && r.flash == l.flash + FromHex(data[2..2 + 2 * PairCount(data, 2).value])
      && (PairCount(data, 2).value == 0 <==> l.buf[2] == 0)
  {
    var data := Stored(l.buf, []);
    assert data[0] == 0;
    assert forall i :: 1 <= i < BUFSIZE ==> data[i] == l.buf[i];
    PairsBeforeZero(data, 2, n);
    hide FromHex, PairCount, DecodedAt, Stored, React;
    Reacts(l.(buf := data), PairCount(data, 2).value);
  }

  /**
   The empty line after the upload of a file that took one line: what the first line left in the buffer is decoded
   once more, which is nothing exactly if the file is empty or starts with a zero.
   */
  lemma EmptyLineAfterShort(buf: seq<byte>, file: seq<byte>)
    requires |buf| == BUFSIZE && |file| <= CHUNK
    ensures |LineAt(file, 0)| < BUFSIZE
    ensures var l := Handle(Handle(Loader(true, [], buf), LineAt(file, 0)), []);
      && l.Loader? && l.loading && file <= l.flash
      && (l.flash == file <==> file == [] || file[0] == 0)
  {
    AfterOneLine(buf, file);
    hide Handle, LineAt, FromHex, PairCount;
    EmptyLine(Handle(Loader(true, [], buf), LineAt(file, 0)), |file|);
  }

  lemma AfterOneLine(buf: seq<byte>, file: seq<byte>)
    requires |buf| == BUFSIZE && |file| <= CHUNK
    ensures |LineAt(file, 0)| < BUFSIZE
    ensures var l := Handle(Loader(true, [], buf), LineAt(file, 0));
      && l.Loader? && l.loading && l.flash == file && l.buf == DecodedAt(Stored(buf, LineAt(file, 0)), 2, |file|)
      && l.buf[2 + 2 * |file|] == 0 && (l.buf[2] == 0 <==> file == [] || file[0] == 0)
  {
    hide Hex, FromHex, PairCount, DecodedAt, LineAt, Handle, Stored, AsciiToByte;
    OnlyLine(file);
    HandlesHex(Loader(true, [], buf), MESSAGE_BEGIN, file);
    StoredHex(buf, MESSAGE_BEGIN, file);
    FromHexOfHex(file);
    LeftOver(Stored(buf, LineAt(file, 0)), file);
  }

  lemma OnlyLine(file: seq<byte>)
    requires |file| <= CHUNK
    ensures LineAt(file, 0) == Hex([MESSAGE_BEGIN] + file)
  {
    assert ChunkAt(file, 0) == file;
  }

  lemma LeftOver(data: seq<byte>, file: seq<byte>)
    requires |data| == BUFSIZE && |file| <= CHUNK && data[2 + 2 * |file|] == 0
    requires FromHex(data[2..2 + 2 * |file|]) == file
    ensures var left := DecodedAt(data, 2, |file|);
      left[2 + 2 * |file|] == 0 && (left[2] == 0 <==> file == [] || file[0] == 0)
  {
    hide FromHex;
  }

  /** The upload of the one-byte file 05 leaves 05 55 in flash. */
  lemma ShortFileIsSpoiled(buf: seq<byte>)
    requires |buf| == BUFSIZE
    ensures |LineAt([5], 0)| < BUFSIZE
    ensures Handle(Handle(Loader(true, [], buf), LineAt([5], 0)), []).Loader?
    ensures Handle(Handle(Loader(true, [], buf), LineAt([5], 0)), []).flash == [5, 0x55]
  {
    AfterOneLine(buf, [5]);
    OneByteLeft(buf);
    hide Handle, LineAt, DecodedAt;
    var l := Handle(Loader(true, [], buf), LineAt([5], 0));
    EmptyLine(l, 1);
    OnePairMore(l.buf);
  }

  lemma OneByteLeft(buf: seq<byte>)
    requires |buf| == BUFSIZE
    ensures |LineAt([5], 0)| < BUFSIZE
    ensures var left := DecodedAt(Stored(buf, LineAt([5], 0)), 2, 1); left[2] == 5 && left[3] == 53 && left[4] == 0
  {
    assert LineAt([5], 0) == [48, 48, 48, 53];
    var data := Stored(buf, LineAt([5], 0));
    assert data[2] == 48 && data[3] == 53 && data[4] == 0;
    assert FromHex(data[2..4]) == [5];
  }

  lemma OnePairMore(buf: seq<byte>)
    requires |buf| == BUFSIZE && buf[2] == 5 && buf[3] == 53 && buf[4] == 0
    ensures var data := Stored(buf, []); PairCount(data, 2) == Some(1) && FromHex(data[2..4]) == [0x55]
  {
    var data := Stored(buf, []);
    assert data[2] == 5 && data[3] == 53 && data[4] == 0;
    assert PairCount(data, 4) == Some(0);
  }

  lemma LinesAreSendable(file: seq<byte>, k: nat)
    requires CHUNK * k <= |file|
    ensures Sendable(LineAt(file, k))
  {
    HexIsDigits([Prefix(|file|, k)] + ChunkAt(file, k));
    hide Hex, Prefix;
  }

  /** What `UploadSchedule` sends. */
  ghost predicate Sent(file: seq<byte>, lines: seq<seq<byte>>) {
    lines != [] && lines[|lines| - 1] == [] && LinesOf(file, lines[..|lines| - 1])
  }

  /**
   An upload of which nothing is lost on the way has been handled to its last line: the loader has stopped exactly
   if the file took more than one line, and the flash holds exactly the file if and only if so or the file is empty
   or starts with a zero.
   */
  lemma UploadArrives(d: SerialDriver, file: seq<byte>, lines: seq<seq<byte>>, buf: seq<byte>)
    requires d.Drained() && |buf| == BUFSIZE
    requires Sent(file, lines) && d.sent == Stream(lines, |lines|)
    ensures d.lines == lines && FitLines(lines)
    ensures var l := HandleAll(Loader(true, [], buf), d.lines, |lines|);
      && l.Loader? && file <= l.flash && (l.loading <==> |file| <= CHUNK)
      && (l.flash == file <==> |file| > CHUNK || file == [] || file[0] == 0)
  {
    SentIsSendable(file, lines);
    hide Sent, HandleAll, TakeAll, SerialDriver.Drained, Stream;
    d.AllLinesArrive(lines);
    UploadHandled(file, lines, buf);
  }

  lemma UploadHandled(file: seq<byte>, lines: seq<seq<byte>>, buf: seq<byte>)
    requires |buf| == BUFSIZE && Sent(file, lines) && FitLines(lines)
    ensures var l := HandleAll(Loader(true, [], buf), lines, |lines|);
      && l.Loader? && file <= l.flash && (l.loading <==> |file| <= CHUNK)
      && (l.flash == file <==> |file| > CHUNK || file == [] || file[0] == 0)
  {
    hide LineAt, Handle;
    var n := |lines| - 1;
    var front := lines[..n];
    assert forall i :: 0 <= i < n ==> lines[i] == front[i];
    LoadsUpTo(buf, file, lines, n);
    AllRead(file);
    var l := HandleAll(Loader(true, [], buf), lines, n);
    assert HandleAll(Loader(true, [], buf), lines, |lines|) == Handle(l, []);
    if |file| > CHUNK {
      StoppedIgnores(l, []);
    } else {
      assert n == 1 && lines[0] == LineAt(file, 0);
      assert HandleAll(Loader(true, [], buf), lines, 0) == Loader(true, [], buf);
      EmptyLineAfterShort(buf, file);
    }
  }

  lemma StoppedIgnores(l: Loader, line: seq<byte>)
    requires l.Loader? && !l.loading && |l.buf| == BUFSIZE && |line| < BUFSIZE
    ensures Handle(l, line).Loader? && !Handle(l, line).loading && Handle(l, line).flash == l.flash
  {
  }

  // ----- Running an upload -----

  /** The driver fills its buffer with a line and the zero behind it. */
  method StoreLine(data: array<byte>, line: seq<byte>)
    requires |line| < data.Length
    modifies data
    ensures data[..] == Stored(old(data[..]), line)
  {
    var ptr := 0;
    while ptr < |line|
      invariant 0 <= ptr <= |line|
      invariant forall i :: 0 <= i < data.Length ==> data[i] == if i < ptr then line[i] else old(data[i])
    {
      data[ptr] := line[ptr];
      ptr := ptr + 1;
    }
    data[ptr] := 0;
  }

  lemma {:induction false} NoOverrunBefore(l: Loader, lines: seq<seq<byte>>, k: nat, n: nat)
    requires k <= n <= |lines| && FitLines(lines) && (l.Loader? ==> |l.buf| == BUFSIZE) && HandleAll(l, lines, n).Loader?
    ensures HandleAll(l, lines, k).Loader?
    decreases n
  {
    if k < n {
      NoOverrunBefore(l, lines, k, n - 1);
    }
  }

  /** The loader handles all lines, one after the other. */
  method HandleLines(data: array<byte>, lines: seq<seq<byte>>) returns (loading: bool, flash: seq<byte>)
    requires data.Length == BUFSIZE && FitLines(lines)
    requires HandleAll(Loader(true, [], data[..]), lines, |lines|).Loader?
    modifies data
    ensures Loader(loading, flash, data[..]) == HandleAll(Loader(true, [], old(data[..])), lines, |lines|)
  {
    loading, flash := true, [];
    ghost var start := Loader(true, [], data[..]);
    for k := 0 to |lines|
      invariant Loader(loading, flash, data[..]) == HandleAll(start, lines, k)
    {
      hide React, Stored;
      NoOverrunBefore(start, lines, k + 1, |lines|);
      StoreLine(data, lines[k]);
      loading, flash := HandleLine(data, loading, flash);
    }
  }

  /** A byte is sent and taken up before the next one. */
  method SendByte(d: SerialDriver, c: byte)
    requires d.Drained() && c != IGNORED
    modifies d, d.ring
    ensures d.Drained() && d.sent == old(d.sent) + [c]
  {
    d.InputByte(c);
    var more := d.ProcessByte();
  }

  method SendLine(d: SerialDriver, line: seq<byte>)
    requires d.Drained() && Sendable(line)
    modifies d, d.ring
    ensures d.Drained() && d.sent == old(d.sent) + line + [END]
  {
    hide SerialDriver.Drained;
    for i := 0 to |line|
      invariant d.Drained() && d.sent == old(d.sent) + line[..i]
    {
      assert line[i] in line;
      SendByte(d, line[i]);
      assert line[..i + 1] == line[..i] + [line[i]];
    }
    assert line[..|line|] == line;
    SendByte(d, END);
  }

  /** The lines go over the serial line; the ring is emptied often enough for nothing to be lost. */
  method SendLines(lines: seq<seq<byte>>) returns (d: SerialDriver)
    requires forall i :: 0 <= i < |lines| ==> Sendable(lines[i])
    ensures fresh(d) && fresh(d.ring) && d.Drained()
    ensures d.sent == Stream(lines, |lines|)
  {
    d := new SerialDriver(seq(BUFSIZE, _ => 0));
    hide SerialDriver.Drained, Sendable;
    for k := 0 to |lines|
      invariant fresh(d) && fresh(d.ring) && d.Drained()
      invariant d.sent == Stream(lines, k)
    {
      SendLine(d, lines[k]);
    }
  }

  /** An upload of a file that takes more than one line ends with the file in flash. */
  method Transfer(file: seq<byte>) returns (loading: bool, flash: seq<byte>)
    requires |file| > CHUNK
    ensures !loading && flash == file
  {
    var lines := UploadSchedule(file);
    SentIsSendable(file, lines);
    var d := SendLines(lines);
    var data := new byte[BUFSIZE](_ => 0);
    hide Sent, SerialDriver.Drained, HandleAll, Stream, Sendable;
    UploadArrives(d, file, lines, data[..]);
    loading, flash := HandleLines(data, d.lines);
  }

  lemma SentIsSendable(file: seq<byte>, lines: seq<seq<byte>>)
    requires Sent(file, lines)
    ensures forall i :: 0 <= i < |lines| ==> Sendable(lines[i])
  {
    hide LineAt;
    var front := lines[..|lines| - 1];
    forall i | 0 <= i < |lines|
      ensures Sendable(lines[i])
    {
      if i < |front| {
        assert lines[i] == front[i];
        LinesAreSendable(file, i);
      }
    }
  }
}
