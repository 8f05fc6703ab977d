/**
 The schedule file that the scheduler writes for the motes (generate_for_enhanced_beacon in
 Master/Python/scheduling_contiki.py) and the reader on the mote that picks one node's record out of it
 (read_from_flash_by_id in os/net/master-routing/master-schedule.c).
 */
module Beacon {
  import opened Options

  type byte = int

  const NUM_FLOWS := 8
  const CONFIG_LEN := 4 * NUM_FLOWS + 2

  /** c_uint8 */
  function Byte(n: int): (b: byte)
    ensures 0 <= b < 256 && (n - b) % 256 == 0
  {
    n % 256
  }

  // ----- Layout of a file -----

  datatype LinkEntry = LinkEntry(flow: byte, option: byte, timeslot: byte, channel: byte)

  /** What the file says about one node; a node without a flow of its own has ownFlow and ownReceiver 0. */
  datatype Record = Record(id: byte, ownFlow: byte, ownReceiver: byte, links: seq<LinkEntry>,
                           forwards: seq<byte>, maxTransmissions: seq<byte>)

  /** The part of the file that is the same for all nodes. */
  datatype Config = Config(slotframeLength: byte, numFlows: byte, senders: seq<byte>, receivers: seq<byte>,
                           first: seq<byte>, last: seq<byte>)

  ghost predicate WellFormed(r: Record) {
    |r.links| < 256 && |r.forwards| == |r.maxTransmissions| == NUM_FLOWS && (r.ownFlow == 0 ==> r.ownReceiver == 0)
  }

  ghost predicate WellFormedConfig(c: Config) {
    |c.senders| == |c.receivers| == |c.first| == |c.last| == NUM_FLOWS
  }

  function LinkByte(l: LinkEntry, i: nat): byte {
    if i == 0 then l.flow else if i == 1 then l.option else if i == 2 then l.timeslot else l.channel
  }

  function LinkBytes(links: seq<LinkEntry>): (r: seq<byte>)
    ensures |r| == 4 * |links|
  {
    seq(4 * |links|, i requires 0 <= i < 4 * |links| => LinkByte(links[i / 4], i % 4))
  }

  function Head(r: Record): seq<byte> {
    if r.ownFlow == 0 then [r.id, 0, |r.links|] else [r.id, r.ownFlow, r.ownReceiver, |r.links|]
  }

  function Encode(r: Record): seq<byte> {
    Head(r) + LinkBytes(r.links) + r.forwards + r.maxTransmissions
  }

  function EncodeAll(rs: seq<Record>): seq<byte> {
    if rs == [] then [] else Encode(rs[0]) + EncodeAll(rs[1..])
  }

  function EncodeConfig(c: Config): seq<byte> {
    [c.slotframeLength, c.numFlows] + c.senders + c.receivers + c.first + c.last
  }

  function EncodeFile(c: Config, rs: seq<Record>): seq<byte> {
    EncodeConfig(c) + EncodeAll(rs)
  }

  // ----- Parsing -----

  function LinksFrom(s: seq<byte>, n: nat): seq<LinkEntry>
    requires 4 * n <= |s|
  {
    seq(n, k requires 0 <= k < n => LinkEntry(s[4 * k], s[4 * k + 1], s[4 * k + 2], s[4 * k + 3]))
  }

  /** How many bytes of the own flow come after the node id. */
  function OwnLength(s: seq<byte>): nat
    requires |s| >= 2
  {
    if s[1] == 0 then 1 else 2
  }

  /** The length of the record at the front of s, if s is that long. */
  function RecordLength(s: seq<byte>): (r: Option<nat>)
    ensures r.Some? ==> 2 <= r.value <= |s|
  {
    if |s| < 2 || |s| < 2 + OwnLength(s) || s[1 + OwnLength(s)] < 0 then None
    else
      var n := 2 + OwnLength(s) + 4 * s[1 + OwnLength(s)] + 2 * NUM_FLOWS;
      if n <= |s| then Some(n) else None
  }

  /** The record at the front of s. */
  function Parsed(s: seq<byte>): Record
    requires RecordLength(s).Some?
  {
    var at := 2 + OwnLength(s);
    var n := s[at - 1];
    var f := at + 4 * n;
    Record(s[0], s[1], if s[1] == 0 then 0 else s[2], LinksFrom(s[at..f], n), s[f..f + NUM_FLOWS],
           s[f + NUM_FLOWS..f + 2 * NUM_FLOWS])
  }

  /** The first record for node `id` in s. */
  function Find(s: seq<byte>, id: byte): Option<Record>
    decreases |s|
  {
    match RecordLength(s)
    case None => None
    case Some(n) => if s[0] == id then Some(Parsed(s)) else Find(s[n..], id)
  }

  lemma LinksRoundTrip(links: seq<LinkEntry>)
    ensures LinksFrom(LinkBytes(links), |links|) == links
  {
  }

  lemma EncodedLength(r: Record, rest: seq<byte>)
    requires WellFormed(r)
    ensures RecordLength(Encode(r) + rest) == Some(|Encode(r)|)
  {
  }

  lemma Slices(h: seq<byte>, l: seq<byte>, f: seq<byte>, m: seq<byte>, rest: seq<byte>)
    ensures var s, i, j, k := h + l + f + m + rest, |h| + |l|, |h| + |l| + |f|, |h| + |l| + |f| + |m|;
      && s[..|h|] == h && s[|h|..i] == l && s[i..j] == f && s[j..k] == m && s[k..] == rest
      && forall n :: 0 <= n < |h| ==> s[n] == h[n]
  {
  }

  /** The fields in the head of an encoded record. */
  lemma EncodedHead(r: Record, s: seq<byte>)
    requires |s| >= |Head(r)| && forall n :: 0 <= n < |Head(r)| ==> s[n] == Head(r)[n]
    ensures 2 + OwnLength(s) == |Head(r)| && s[|Head(r)| - 1] == |r.links|
    ensures s[0] == r.id && s[1] == r.ownFlow && (r.ownFlow != 0 ==> s[2] == r.ownReceiver)
  {
  }

  lemma ParsedIs(s: seq<byte>, r: Record, at: nat)
    requires RecordLength(s).Some? && 2 + OwnLength(s) == at && s[at - 1] == |r.links| && WellFormed(r)
    requires s[0] == r.id && s[1] == r.ownFlow && (r.ownFlow != 0 ==> s[2] == r.ownReceiver)
    requires s[at..at + 4 * |r.links|] == LinkBytes(r.links)
    requires var f := at + 4 * |r.links|; s[f..f + 8] == r.forwards && s[f + 8..f + 16] == r.maxTransmissions
    ensures Parsed(s) == r
  {
    LinksRoundTrip(r.links);
    hide LinkBytes, LinksFrom;
  }

  lemma EncodedParses(r: Record, rest: seq<byte>)
    requires WellFormed(r)
    ensures RecordLength(Encode(r) + rest) == Some(|Encode(r)|) && Parsed(Encode(r) + rest) == r
    ensures (Encode(r) + rest)[|Encode(r)|..] == rest
  {
    EncodedLength(r, rest);
    hide LinkBytes, LinksFrom, RecordLength, Head, OwnLength, Parsed;
    Slices(Head(r), LinkBytes(r.links), r.forwards, r.maxTransmissions, rest);
    EncodedHead(r, Encode(r) + rest);
    ParsedIs(Encode(r) + rest, r, |Head(r)|);
  }

  /** The first record with this id. */
  function FirstWith(rs: seq<Record>, id: byte): Option<Record> {
    if rs == [] then None else if rs[0].id == id then Some(rs[0]) else FirstWith(rs[1..], id)
  }

  /** The reader gets back exactly the record that was written for a node. */
  lemma {:induction false} FindsRecord(rs: seq<Record>, id: byte)
    requires forall i :: 0 <= i < |rs| ==> WellFormed(rs[i])
    ensures Find(EncodeAll(rs), id) == FirstWith(rs, id)
  {
    if rs != [] {
      hide Encode, Parsed, RecordLength;
      EncodedParses(rs[0], EncodeAll(rs[1..]));
      FindsRecord(rs[1..], id);
    }
  }

  /** No two different files have the same bytes. */
  lemma {:induction false} RecordsAreUnique(a: seq<Record>, b: seq<Record>)
    requires forall i :: 0 <= i < |a| ==> WellFormed(a[i])
    requires forall i :: 0 <= i < |b| ==> WellFormed(b[i])
    requires EncodeAll(a) == EncodeAll(b)
    ensures a == b
  {
    if a != [] && b != [] {
      hide Encode, Parsed, RecordLength;
      EncodedParses(a[0], EncodeAll(a[1..]));
      EncodedParses(b[0], EncodeAll(b[1..]));
      RecordsAreUnique(a[1..], b[1..]);
      assert a == [a[0]] + a[1..] && b == [b[0]] + b[1..];
    }
  }

  function ConfigFrom(s: seq<byte>): Config
    requires |s| >= CONFIG_LEN
  {
    Config(s[0], s[1], s[2..10], s[10..18], s[18..26], s[26..34])
  }

  lemma ConfigRoundTrip(c: Config, rest: seq<byte>)
    requires WellFormedConfig(c)
    ensures var s := EncodeConfig(c) + rest;
      |s| >= CONFIG_LEN && ConfigFrom(s) == c && s[CONFIG_LEN..] == rest
  {
    var s := EncodeConfig(c) + rest;
    assert s[2..10] == c.senders;
    assert s[10..18] == c.receivers;
    assert s[18..26] == c.first;
    assert s[26..34] == c.last;
    assert s[34..] == rest;
  }

  /** The bytes of a file determine the configuration and every record. */
  lemma FileIsUniquelyDecodable(c1: Config, rs1: seq<Record>, c2: Config, rs2: seq<Record>)
    requires WellFormedConfig(c1) && WellFormedConfig(c2)
    requires forall i :: 0 <= i < |rs1| ==> WellFormed(rs1[i])
    requires forall i :: 0 <= i < |rs2| ==> WellFormed(rs2[i])
    ensures EncodeFile(c1, rs1) == EncodeFile(c2, rs2) <==> c1 == c2 && rs1 == rs2
  {
    if EncodeFile(c1, rs1) == EncodeFile(c2, rs2) {
      hide EncodeConfig, ConfigFrom;
      ConfigRoundTrip(c1, EncodeAll(rs1));
      ConfigRoundTrip(c2, EncodeAll(rs2));
      RecordsAreUnique(rs1, rs2);
    }
  }

  // ----- The reader on the mote -----

  /** cfs_read: at most n bytes from the front of what is left of the file. */
  function Got(rest: seq<byte>, n: nat): seq<byte> {
    if n <= |rest| then rest[..n] else rest
  }

  function Left(rest: seq<byte>, n: nat): seq<byte> {
    if n <= |rest| then rest[n..] else []
  }

  /** The fields up to the number of links, with the bytes read and the bytes asked for. */
  method ReadHead(file: seq<byte>, was: Record) returns (read: nat, asked: nat, rest: seq<byte>, r: Record, n: nat)
    requires forall i :: 0 <= i < |file| ==> 0 <= file[i] < 256
    ensures read <= asked && (read < asked ==> rest == [])
    ensures read == asked <==> |file| >= 2 && |file| >= 2 + OwnLength(file)
    ensures read == asked ==> read == 2 + OwnLength(file) && rest == file[read..] && n == file[read - 1]
    ensures read == asked ==> r == was.(id := file[0], ownFlow := file[1], ownReceiver := if file[1] == 0 then 0 else file[2])
  {
    r := was;
    var got := Got(file, 1);
    rest := Left(file, 1);
    read, asked := |got|, 1;
    if |got| == 1 {
      r := r.(id := got[0]);
    }
    got := Got(rest, 1);
    rest := Left(rest, 1);
    read, asked := read + |got|, asked + 1;
    if |got| == 1 {
      r := r.(ownFlow := got[0]);
    }
    if r.ownFlow == 0 {
      r := r.(ownReceiver := 0);
    } else {
      got := Got(rest, 1);
      rest := Left(rest, 1);
      read, asked := read + |got|, asked + 1;
      if |got| == 1 {
        r := r.(ownReceiver := got[0]);
      }
    }
    got := Got(rest, 1);
    rest := Left(rest, 1);
    n := if |got| == 1 then got[0] else |r.links|;
    read, asked := read + |got|, asked + 1;
  }

  /** One pass of the loop: the bytes read, the bytes asked for, what is left, and the record. */
  method ReadRecord(file: seq<byte>, was: Record) returns (read: nat, asked: nat, rest: seq<byte>, r: Record)
    requires forall i :: 0 <= i < |file| ==> 0 <= file[i] < 256
    ensures read == asked <==> RecordLength(file).Some?
    ensures read == asked ==> read == RecordLength(file).value && rest == file[read..] && r == Parsed(file)
  {
    var n;
    read, asked, rest, r, n := ReadHead(file, was);
    var got := Got(rest, 4 * n);
    rest := Left(rest, 4 * n);
    read, asked := read + |got|, asked + 4 * n;
    if |got| == 4 * n {
      r := r.(links := LinksFrom(got, n));
    }
    got := Got(rest, NUM_FLOWS);
    rest := Left(rest, NUM_FLOWS);
    read, asked := read + |got|, asked + NUM_FLOWS;
    r := r.(forwards := got);
    got := Got(rest, NUM_FLOWS);
    rest := Left(rest, NUM_FLOWS);
    read, asked := read + |got|, asked + NUM_FLOWS;
    r := r.(maxTransmissions := got);
  }

  /** read_from_flash_by_id: the configuration and the first record of node `id`. */
  method ReadFromFlashById(file: seq<byte>, id: byte) returns (ok: bool, config: Config, r: Record)
    requires forall i :: 0 <= i < |file| ==> 0 <= file[i] < 256
    ensures ok <==> |file| >= CONFIG_LEN && Find(file[CONFIG_LEN..], id).Some?
    ensures ok ==> config == ConfigFrom(file) && Some(r) == Find(file[CONFIG_LEN..], id)
  {
    config, r := Config(0, 0, [], [], [], []), Record(0, 0, 0, [], [], []);
    if |file| < CONFIG_LEN {
      return false, config, r;
    }
    config := ConfigFrom(file);
    hide RecordLength, Parsed, ConfigFrom;
    var rest := file[CONFIG_LEN..];
    var total := 0;
    while true
      invariant forall i :: 0 <= i < |rest| ==> 0 <= rest[i] < 256
      invariant Find(rest, id) == Find(file[CONFIG_LEN..], id)
      invariant total + |rest| + CONFIG_LEN == |file|
      decreases |rest|
    {
      var read, asked, left;
      read, asked, left, r := ReadRecord(rest, r);
      if read != asked {
        return false, config, r;
      }
      FindStep(rest, id);
      total := total + read;
      if r.id == id || total >= |file| {
        return true, config, r;
      }
      rest := left;
    }
  }

  lemma FindStep(s: seq<byte>, id: byte)
    requires RecordLength(s).Some?
    ensures Find(s, id) == if s[0] == id then Some(Parsed(s)) else Find(s[RecordLength(s).value..], id)
    ensures Parsed(s).id == s[0]
  {
  }

  /** A file that the scheduler wrote gives every node back its own record. */
  lemma NodeReadsOwnRecord(c: Config, rs: seq<Record>, i: nat)
    requires WellFormedConfig(c) && i < |rs|
    requires forall k :: 0 <= k < |rs| ==> WellFormed(rs[k])
    requires forall j, k :: 0 <= j < k < |rs| ==> rs[j].id != rs[k].id
    ensures var file := EncodeFile(c, rs);
      && |file| >= CONFIG_LEN && ConfigFrom(file) == c
      && Find(file[CONFIG_LEN..], rs[i].id) == Some(rs[i])
  {
    ConfigRoundTrip(c, EncodeAll(rs));
    FindsRecord(rs, rs[i].id);
    FirstIsOnly(rs, i);
  }

  lemma {:induction false} FirstIsOnly(rs: seq<Record>, i: nat)
    requires i < |rs|
    requires forall j, k :: 0 <= j < k < |rs| ==> rs[j].id != rs[k].id
    ensures FirstWith(rs, rs[i].id) == Some(rs[i])
  {
    if i > 0 {
      FirstIsOnly(rs[1..], i - 1);
    }
  }

  // ----- A file without the slot tables -----

  /** What is written when retransmissions by time to live are off: the configuration ends after the receivers. */
  function EncodeShort(c: Config): seq<byte> {
    [c.slotframeLength, c.numFlows] + c.senders + c.receivers
  }

  function EncodeShortFile(c: Config, rs: seq<Record>): seq<byte> {
    EncodeShort(c) + EncodeAll(rs)
  }

  /** The reader takes the first sixteen bytes of the records for the slot tables and searches behind them. */
  lemma ShortFileIsMisread(c: Config, rs: seq<Record>)
    requires WellFormedConfig(c) && |EncodeAll(rs)| >= 2 * NUM_FLOWS
    ensures var file, bytes := EncodeShortFile(c, rs), EncodeAll(rs);
      && |file| >= CONFIG_LEN && file[CONFIG_LEN..] == bytes[2 * NUM_FLOWS..]
      && ConfigFrom(file) == c.(first := bytes[..NUM_FLOWS], last := bytes[NUM_FLOWS..2 * NUM_FLOWS])
  {
    var file, bytes := EncodeShortFile(c, rs), EncodeAll(rs);
    assert file[2..10] == c.senders;
    assert file[10..18] == c.receivers;
    assert file[18..26] == bytes[..8];
    assert file[26..34] == bytes[8..16];
    assert file[34..] == bytes[16..];
  }

  /** Its records are as unique as those of a full file. */
  lemma ShortFileIsUniquelyDecodable(c1: Config, rs1: seq<Record>, c2: Config, rs2: seq<Record>)
    requires WellFormedConfig(c1) && WellFormedConfig(c2)
    requires forall i :: 0 <= i < |rs1| ==> WellFormed(rs1[i])
    requires forall i :: 0 <= i < |rs2| ==> WellFormed(rs2[i])
    requires EncodeShortFile(c1, rs1) == EncodeShortFile(c2, rs2)
    ensures rs1 == rs2
  {
    var n := 2 + 2 * NUM_FLOWS;
    assert EncodeShortFile(c1, rs1)[n..] == EncodeAll(rs1);
    assert EncodeShortFile(c2, rs2)[n..] == EncodeAll(rs2);
    hide WellFormed, EncodeAll;
    RecordsAreUnique(rs1, rs2);
  }

  function TotalLength(rs: seq<Record>): nat {
    if rs == [] then 0 else |Encode(rs[0])| + TotalLength(rs[1..])
  }

  lemma {:induction false} EncodedTotal(rs: seq<Record>)
    ensures |EncodeAll(rs)| == TotalLength(rs)
  {
    if rs != [] {
      EncodedTotal(rs[1..]);
    }
  }

  /** Taking one record out takes its length out. */
  lemma {:induction false} TotalWithout(rs: seq<Record>, j: nat)
    requires j < |rs|
    ensures TotalLength(rs) == TotalLength(rs[..j] + rs[j + 1..]) + |Encode(rs[j])|
  {
    hide Encode;
    if j == 0 {
      assert rs[..0] + rs[1..] == rs[1..];
    } else {
      var w := rs[..j] + rs[j + 1..];
      assert w[0] == rs[0] && w[1..] == rs[1..][..j - 1] + rs[1..][j..];
      TotalWithout(rs[1..], j - 1);
    }
  }

  ghost predicate DistinctIds(rs: seq<Record>) {
    forall j, k :: 0 <= j < k < |rs| ==> rs[j].id != rs[k].id
  }

  /** All records are found in s under their ids. */
  ghost predicate AllFound(s: seq<byte>, rs: seq<Record>) {
    forall i :: 0 <= i < |rs| ==> Find(s, rs[i].id) == Some(rs[i])
  }

  lemma ParsedLength(s: seq<byte>)
    requires RecordLength(s).Some?
    ensures |Encode(Parsed(s))| == RecordLength(s).value && Parsed(s).id == s[0]
  {
  }

  /** Records with different ids that are all found take up at least their length. */
  lemma {:induction false} FoundFits(s: seq<byte>, rs: seq<Record>)
    requires DistinctIds(rs) && AllFound(s, rs)
    ensures TotalLength(rs) <= |s|
    decreases |s|
  {
    hide Encode, Parsed, RecordLength;
    if rs != [] {
      assert Find(s, rs[0].id) == Some(rs[0]);
      var n := RecordLength(s).value;
      ParsedLength(s);
      if j :| 0 <= j < |rs| && rs[j].id == s[0] {
        var w := rs[..j] + rs[j + 1..];
        assert Find(s, rs[j].id) == Some(rs[j]);
        TotalWithout(rs, j);
        forall i | 0 <= i < |w|
          ensures Find(s[n..], w[i].id) == Some(w[i])
        {
          assert w[i] == rs[if i < j then i else i + 1];
        }
        FoundFits(s[n..], w);
      } else {
        FoundFits(s[n..], rs);
      }
    }
  }

  /** So without the tables not all nodes find their records. */
  lemma ShortFileLosesRecords(c: Config, rs: seq<Record>)
    requires WellFormedConfig(c) && DistinctIds(rs) && rs != [] && |EncodeAll(rs)| >= 2 * NUM_FLOWS
    ensures var file := EncodeShortFile(c, rs); |file| >= CONFIG_LEN && !AllFound(file[CONFIG_LEN..], rs)
  {
    hide AllFound, ConfigFrom;
    ShortFileIsMisread(c, rs);
    EncodedTotal(rs);
    var file := EncodeShortFile(c, rs);
    if AllFound(file[CONFIG_LEN..], rs) {
      FoundFits(file[CONFIG_LEN..], rs);
    }
  }

  const NONE: seq<byte> := [0, 0, 0, 0, 0, 0, 0, 0]

  /** The records of a flow of one hop, from node 1 to node 2. */
  const HOP_SENDER := Record(0, 1, 2, [LinkEntry(1, 1, 0, 0)], [2, 0, 0, 0, 0, 0, 0, 0], [1, 0, 0, 0, 0, 0, 0, 0])
  const HOP_RECEIVER := Record(1, 0, 0, [LinkEntry(1, 2, 0, 0)], NONE, NONE)
  const ONE_HOP: seq<Record> := [HOP_SENDER, HOP_RECEIVER]

  lemma SenderBytes()
    ensures Encode(HOP_SENDER) == [0, 1, 2, 1] + [1, 1, 0, 0] + [2, 0, 0, 0, 0, 0, 0, 0] + [1, 0, 0, 0, 0, 0, 0, 0]
  {
    assert LinkBytes(HOP_SENDER.links) == [1, 1, 0, 0];
    assert Head(HOP_SENDER) == [0, 1, 2, 1];
  }

  lemma ReceiverBytes()
    ensures Encode(HOP_RECEIVER) == [1, 0, 1] + [1, 2, 0, 0] + NONE + NONE
  {
    assert LinkBytes(HOP_RECEIVER.links) == [1, 2, 0, 0];
    assert Head(HOP_RECEIVER) == [1, 0, 1];
  }

  /** What the reader searches in their bytes without the tables. */
  function OneHopTail(): seq<byte> {
    [1, 0, 0, 0, 0, 0, 0, 0] + ([1, 0, 1] + [1, 2, 0, 0] + NONE + NONE)
  }

  lemma OneHopBytes()
    ensures |EncodeAll(ONE_HOP)| == 47 && EncodeAll(ONE_HOP)[16..] == OneHopTail()
  {
    SenderBytes();
    ReceiverBytes();
    var a, b := Encode(HOP_SENDER), Encode(HOP_RECEIVER);
    hide Encode, Head, LinkBytes;
    assert ONE_HOP[1..] == [HOP_RECEIVER] && [HOP_RECEIVER][1..] == [];
    assert EncodeAll([HOP_RECEIVER]) == b + EncodeAll([]);
    assert EncodeAll(ONE_HOP) == a + b;
    assert a[16..] == [1, 0, 0, 0, 0, 0, 0, 0];
    assert (a + b)[16..] == a[16..] + b;
  }

  /** Without the tables node 1 is not found, and node 2 gets a record without links. */
  lemma OneHopIsMisread(c: Config)
    requires WellFormedConfig(c)
    ensures var file := EncodeShortFile(c, ONE_HOP);
      && |file| >= CONFIG_LEN && Find(file[CONFIG_LEN..], 0) == None
      && Find(file[CONFIG_LEN..], 1).Some? && Find(file[CONFIG_LEN..], 1).value.links == []
  {
    OneHopBytes();
    ShortFileIsMisread(c, ONE_HOP);
    OneHopSearch();
    hide *;
  }

  lemma OneHopSearch()
    ensures var s := OneHopTail(); Find(s, 0) == None && Find(s, 1).Some? && Find(s, 1).value.links == []
  {
    var s := OneHopTail();
    assert |s| == 31 && s[0] == 1 && s[1] == 0 && s[2] == 0;
    assert RecordLength(s) == Some(19);
    var t := s[19..];
    assert |t| == 12 && RecordLength(t) == None;
    assert Find(t, 0) == None;
  }
}
