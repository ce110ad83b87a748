/**
 The wire format between the tester and the router under test, as
 src/wrtmtester/WrtmTester.py packs and reads it: the 160-byte test packet
 (`struct` format `<IIILII128sII`), the 10-byte acknowledgement
 (`<2xiL`) and its classification, and the readiness beacon
 (`<II` at bytes 2..10 of a datagram on the init port).
 */
module Protocol {
  import opened Bytes
  import opened Text
  import opened Utf8
  import opened Plan

  const TEST_PORT: nat := 7999
  const INIT_PORT: nat := 4094

  const INIT_MAGIC: int := 0xFEE1_7357
  const SENTINEL: int := 0xFFFF_FFFF

  /** Ticks (seconds) an exchange may wait for its acknowledgement. */
  const RCV_TIMEOUT: nat := 10
  /** Ticks of one readiness round. */
  const INIT_TIMEOUT: nat := 120

  /** The fourth word of every test packet. */
  const HEADER_WORD: int := 136
  const NAME_LEN: nat := 128
  const PACKET_LEN: nat := 160
  const ACK_LEN: nat := 10

  // ---------------------------------------------------------------------
  // The test packet
  // ---------------------------------------------------------------------

  /** Every integer field fits the `I`/`L` range `struct.pack` accepts. */
  predicate Packable(t: Invocation) {
    IsU32(t.seqNo) && IsU32(t.testId) && IsU32(t.duration) && IsU32(t.address) && IsU32(t.mask)
  }

  /** A `128s` field: the bytes cut to 128, or padded with NULs up to 128. */
  function Fixed128(b: seq<byte>): (f: seq<byte>)
    ensures |f| == NAME_LEN
    ensures forall i :: 0 <= i < NAME_LEN ==> f[i] == if i < |b| then b[i] else 0
  {
    if |b| >= NAME_LEN then b[..NAME_LEN] else b + Zeros(NAME_LEN - |b|)
  }

  /** The name argument: the UTF-8 text followed by `128 - len(name)` NULs,
      where `len` counts characters, not bytes (no NULs once it is negative). */
  function NameArgument(name: string): seq<byte> {
    Encode(name) + Zeros(if |name| < NAME_LEN then NAME_LEN - |name| else 0)
  }

  /** The name field as packed. */
  function NameField(name: string): (f: seq<byte>)
    ensures |f| == NAME_LEN
  {
    Fixed128(NameArgument(name))
  }

  function StopWord(stop: bool): int {
    if stop then 1 else 0
  }

  /** `_prepareTestPacket`: `None` where `struct.pack` raises `struct.error`. */
  function EncodeTest(t: Invocation, stop: bool): (r: Option<seq<byte>>)
    ensures r.Some? <==> Packable(t)
    ensures r.Some? ==> |r.value| == PACKET_LEN
  {
    if !Packable(t) then None
    else Some(LE32(t.seqNo) + LE32(t.seqNo) + LE32(t.testId) + LE32(HEADER_WORD)
      + LE32(t.duration) + LE32(StopWord(stop)) + NameField(t.ifName)
      + LE32(t.address) + LE32(t.mask))
  }

  /** The fields of a 160-byte packet, as the router reads them. */
  datatype TestPacket = TestPacket(
    seqNo: int, seqCopy: int, testId: int, header: int, duration: int,
    stopWord: int, name: seq<byte>, address: int, mask: int)

  function Word(b: seq<byte>, at: nat): (n: int)
    requires at + 4 <= |b|
    ensures IsU32(n)
  {
    FromLE32(b[at..at + 4])
  }

  /** The router's reading of a test packet; `None` unless it is 160 bytes. */
  function DecodeTest(b: seq<byte>): (r: Option<TestPacket>)
    ensures r.Some? <==> |b| == PACKET_LEN
    ensures r.Some? ==> |r.value.name| == NAME_LEN
  {
    if |b| != PACKET_LEN then None
    else Some(TestPacket(Word(b, 0), Word(b, 4), Word(b, 8), Word(b, 12), Word(b, 16),
      Word(b, 20), b[24..152], Word(b, 152), Word(b, 156)))
  }

  /** The packet places each field at its offset: sequence number at 0 and 4,
      test id at 8, 136 at 12, duration at 16, stop word at 20, name at
      24..152, address at 152 and mask at 156, every word little-endian. */
  lemma PacketLayout(t: Invocation, stop: bool)
    requires Packable(t)
    ensures var p := EncodeTest(t, stop).value;
      p[0..4] == LE32(t.seqNo) && p[4..8] == LE32(t.seqNo) && p[8..12] == LE32(t.testId)
      && p[12..16] == LE32(HEADER_WORD) && p[16..20] == LE32(t.duration)
      && p[20..24] == LE32(StopWord(stop)) && p[24..152] == NameField(t.ifName)
      && p[152..156] == LE32(t.address) && p[156..160] == LE32(t.mask)
  {
    var p := EncodeTest(t, stop).value;
    var a := LE32(t.seqNo) + LE32(t.seqNo) + LE32(t.testId) + LE32(HEADER_WORD)
      + LE32(t.duration) + LE32(StopWord(stop));
    var n := NameField(t.ifName);
    var z := LE32(t.address) + LE32(t.mask);
    assert p == a + n + z;
    assert p[..24] == a;
    assert p[24..152] == n;
    assert p[152..] == z;
    assert p[0..4] == a[0..4];
    assert p[4..8] == a[4..8];
    assert p[8..12] == a[8..12];
    assert p[12..16] == a[12..16];
    assert p[16..20] == a[16..20];
    assert p[20..24] == a[20..24];
    assert p[152..156] == z[0..4];
    assert p[156..160] == z[4..8];
  }

  /** Reading a packed packet gives back every field of the invocation. */
  lemma DecodeEncodeTest(t: Invocation, stop: bool)
    requires Packable(t)
    ensures DecodeTest(EncodeTest(t, stop).value) ==
      Some(TestPacket(t.seqNo, t.seqNo, t.testId, HEADER_WORD, t.duration,
        StopWord(stop), NameField(t.ifName), t.address, t.mask))
  {
    PacketLayout(t, stop);
    LE32RoundTrip(t.seqNo);
    LE32RoundTrip(t.testId);
    LE32RoundTrip(HEADER_WORD);
    LE32RoundTrip(t.duration);
    LE32RoundTrip(StopWord(stop));
    LE32RoundTrip(t.address);
    LE32RoundTrip(t.mask);
  }

  /** The start and the stop packet of one invocation differ only in the
      stop word, which reads 0 in the one and 1 in the other. */
  lemma StartStopDiffer(t: Invocation)
    requires Packable(t)
    ensures var a := EncodeTest(t, false).value; var b := EncodeTest(t, true).value;
      (forall i :: 0 <= i < PACKET_LEN && !(20 <= i < 24) ==> a[i] == b[i])
      && Word(a, 20) == 0 && Word(b, 20) == 1
  {
    var a := EncodeTest(t, false).value;
    var b := EncodeTest(t, true).value;
    PacketLayout(t, false);
    PacketLayout(t, true);
    assert a[..20] == b[..20];
    assert a[24..] == b[24..];
    forall i | 0 <= i < PACKET_LEN && !(20 <= i < 24) ensures a[i] == b[i] {
      if i < 20 {
        assert a[i] == a[..20][i] && b[i] == b[..20][i];
      } else {
        assert a[i] == a[24..][i - 24] && b[i] == b[24..][i - 24];
      }
    }
    LE32RoundTrip(0);
    LE32RoundTrip(1);
  }

  /** The name field is the UTF-8 text padded with NULs or cut to 128 bytes,
      whatever the character count added. */
  lemma NameFieldBytes(name: string)
    ensures forall i :: 0 <= i < NAME_LEN ==>
      NameField(name)[i] == if i < |Encode(name)| then Encode(name)[i] else 0
  {
    var e := Encode(name);
    var pad: nat := if |name| < NAME_LEN then NAME_LEN - |name| else 0;
    var arg := NameArgument(name);
    assert arg == e + Zeros(pad);
    forall i | 0 <= i < NAME_LEN
      ensures NameField(name)[i] == if i < |e| then e[i] else 0
    {
      assert i < |arg| ==> arg[i] == if i < |e| then e[i] else 0;
    }
  }

  /** The bytes before the first NUL. */
  function UntilNul(b: seq<byte>): (r: seq<byte>)
    ensures |r| <= |b| && r == b[..|r|]
    ensures 0 !in r
    ensures |r| < |b| ==> b[|r|] == 0
    decreases |b|
  {
    if |b| == 0 || b[0] == 0 then [] else [b[0]] + UntilNul(b[1..])
  }

  /** A name whose encoding fits and holds no NUL is read back from the field
      by taking the bytes up to the first NUL and decoding them. */
  lemma NameFieldRoundTrip(name: string)
    requires |Encode(name)| <= NAME_LEN
    requires '\0' !in name
    ensures Decode(UntilNul(NameField(name))) == Some(name)
  {
    var e := Encode(name);
    var f := NameField(name);
    NameFieldBytes(name);
    EncodeNoNul(name);
    assert f[..|e|] == e;
    UntilNulPrefix(e, f);
    DecodeEncode(name);
  }

  /** A NUL-free prefix followed by a NUL (or the end) is what `UntilNul` keeps. */
  lemma {:induction false} UntilNulPrefix(e: seq<byte>, f: seq<byte>)
    requires |e| <= |f| && f[..|e|] == e && 0 !in e
    requires |e| < |f| ==> f[|e|] == 0
    ensures UntilNul(f) == e
    decreases |e|
  {
    if |e| > 0 {
      assert f[0] == e[0];
      assert f[1..][..|e| - 1] == e[1..];
      UntilNulPrefix(e[1..], f[1..]);
      assert [e[0]] + e[1..] == e;
    }
  }

  // ---------------------------------------------------------------------
  // The acknowledgement
  // ---------------------------------------------------------------------

  datatype Ack = Ack(testId: int, status: int)

  /** `recv(10)` then `struct.unpack("<2xiL", ...)`: a longer datagram is cut
      to its first ten bytes, a shorter one makes the unpack raise (`None`). */
  function DecodeAck(data: seq<byte>): (r: Option<Ack>)
    ensures r.Some? <==> |data| >= ACK_LEN
    ensures r.Some? ==> IsI32(r.value.testId) && IsU32(r.value.status)
  {
    if |data| < ACK_LEN then None
    else Some(Ack(FromLE32Signed(data[2..6]), FromLE32(data[6..10])))
  }

  /** An acknowledgement as the router writes it: two ignored bytes, the
      test id as a signed word, the status as an unsigned word. */
  function EncodeAck(pad0: byte, pad1: byte, a: Ack): (b: seq<byte>)
    requires IsI32(a.testId) && IsU32(a.status)
    ensures |b| == ACK_LEN
  {
    [pad0, pad1] + LE32Signed(a.testId) + LE32(a.status)
  }

  /** Reading a written acknowledgement gives it back, whatever follows it
      in the datagram. */
  lemma DecodeEncodeAck(pad0: byte, pad1: byte, a: Ack, trailer: seq<byte>)
    requires IsI32(a.testId) && IsU32(a.status)
    ensures DecodeAck(EncodeAck(pad0, pad1, a) + trailer) == Some(a)
  {
    var b := EncodeAck(pad0, pad1, a) + trailer;
    assert b[2..6] == LE32Signed(a.testId);
    assert b[6..10] == LE32(a.status);
    LE32SignedRoundTrip(a.testId);
    LE32RoundTrip(a.status);
  }

  /** How `_sendTest` treats one acknowledgement. */
  datatype Verdict = Accepted | Busy | WrongTest | UnknownTestType | Nack

  /** Status 0 accepts when the id matches and is an error otherwise, 2 asks
      to keep waiting, 1 reports an unknown test type, anything else is a NACK. */
  function Classify(a: Ack, expected: int): (v: Verdict)
    ensures v == Accepted <==> a.status == 0 && a.testId == expected
    ensures v == WrongTest <==> a.status == 0 && a.testId != expected
    ensures v == Busy <==> a.status == 2
    ensures v == UnknownTestType <==> a.status == 1
    ensures v == Nack <==> a.status != 0 && a.status != 1 && a.status != 2
  {
    if a.status == 0 then (if a.testId != expected then WrongTest else Accepted)
    else if a.status == 2 then Busy
    else if a.status == 1 then UnknownTestType
    else Nack
  }

  /** A router that echoes the test-id word of the packet it received, with
      status 0, is accepted exactly when the id is below 2^31: the packet
      carries the id unsigned but the acknowledgement is read signed. */
  lemma EchoAccepted(t: Invocation, stop: bool, pad0: byte, pad1: byte)
    requires Packable(t)
    ensures var p := EncodeTest(t, stop).value;
      var reply := [pad0, pad1] + p[8..12] + LE32(0);
      Classify(DecodeAck(reply).value, t.testId) == Accepted <==> t.testId < I32_LIMIT
  {
    var p := EncodeTest(t, stop).value;
    PacketLayout(t, stop);
    var reply := [pad0, pad1] + p[8..12] + LE32(0);
    assert reply[2..6] == LE32(t.testId);
    assert reply[6..10] == LE32(0);
    LE32RoundTrip(t.testId);
    LE32RoundTrip(0);
  }

  /** No acknowledgement at all accepts a test id of 2^31 or more. */
  lemma HighIdNeverAccepted(data: seq<byte>, testId: int)
    requires testId >= I32_LIMIT
    requires DecodeAck(data).Some?
    ensures Classify(DecodeAck(data).value, testId) != Accepted
  {
  }

  // ---------------------------------------------------------------------
  // The readiness beacon
  // ---------------------------------------------------------------------

  /** A datagram received on the init port, with its sender's address. */
  datatype Datagram = Datagram(source: string, data: seq<byte>)

  /** What the readiness wait makes of one datagram: one from another host is
      skipped, one from the router shorter than 10 bytes makes the unpack
      raise, and one from the router either announces readiness or is stale. */
  datatype BeaconKind = Foreign | Malformed | Stale | Ready

  function ClassifyBeacon(d: Datagram, routerIp: string): (k: BeaconKind)
    ensures k == Foreign <==> d.source != routerIp
    ensures k == Malformed <==> d.source == routerIp && |d.data| < 10
    ensures k == Ready <==>
      (d.source == routerIp && |d.data| >= 10
       && d.data[2..6] == LE32(INIT_MAGIC) && d.data[6..10] == LE32(SENTINEL))
  {
    if d.source != routerIp then Foreign
    else if |d.data| < 10 then Malformed
    else
      var magic := FromLE32(d.data[2..6]);
      var tag := FromLE32(d.data[6..10]);
      FromLE32RoundTrip(d.data[2..6]);
      FromLE32RoundTrip(d.data[6..10]);
      if tag == SENTINEL && magic == INIT_MAGIC then Ready else Stale
  }

  /** The router's announcement as it would write it. */
  function Announcement(pad0: byte, pad1: byte): (b: seq<byte>)
    ensures |b| == 10
  {
    [pad0, pad1] + LE32(INIT_MAGIC) + LE32(SENTINEL)
  }

  /** The announcement from the router's address is recognised, whatever
      follows it; from any other address it is skipped. */
  lemma AnnouncementReady(pad0: byte, pad1: byte, trailer: seq<byte>, source: string, routerIp: string)
    ensures ClassifyBeacon(Datagram(source, Announcement(pad0, pad1) + trailer), routerIp) ==
      if source == routerIp then Ready else Foreign
  {
    var b := Announcement(pad0, pad1) + trailer;
    assert b[2..6] == LE32(INIT_MAGIC);
    assert b[6..10] == LE32(SENTINEL);
  }
}
