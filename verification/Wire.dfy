/** The wire format: one packet header followed by records, each a header and its payload. */
module Wire {
  import opened Bytes

  const HEADER_SIZE := 8
  const OPTION_SIZE := 8
  const VERSION_V1 := 1
  const FORMAT_ENCAPSULATED := 1

  // Record types; a partial record that carries the COMPLETE bit too is the last part of its frame.
  const PARTIAL_PACKET: byte := 1
  const COMPLETE_PACKET: byte := 2
  const LAST_PART: byte := 3

  // Payload formats.
  const NONE: byte := 0
  const COMPRESSED_LZ4: byte := 1
  const COMPRESSED_ZSTD: byte := 2

  predicate IsValidType(kind: byte) {
    kind / 4 == 0
  }

  predicate IsPartialType(kind: byte) {
    kind % 2 == 1
  }

  predicate IsCompleteType(kind: byte) {
    kind / 2 % 2 == 1
  }

  predicate IsCompressed(format: byte) {
    format == COMPRESSED_LZ4 || format == COMPRESSED_ZSTD
  }

  /** One record: part (or all) of an ethernet frame of `size` octets. */
  datatype Record = Record(kind: byte, size: u16, format: byte, part: byte, payload: Bytes)

  datatype Packet = Packet(sequence: u32, records: seq<Record>)

  /** The payload length of a record is a 16-bit field. */
  predicate Writable(r: Record) {
    |r.payload| <= UINT16_MAX
  }

  predicate AllWritable(rs: seq<Record>) {
    forall i :: 0 <= i < |rs| ==> Writable(rs[i])
  }

  function OptionBytes(kind: byte, size: u16, format: byte, length: u16, part: byte): (s: Bytes)
    ensures |s| == OPTION_SIZE
  {
    [kind] + Be16(size) + [format] + Be16(length) + [part, 0]
  }

  function RecordBytes(r: Record): (s: Bytes)
    requires Writable(r)
    ensures |s| == OPTION_SIZE + |r.payload|
  {
    OptionBytes(r.kind, r.size, r.format, |r.payload|, r.part) + r.payload
  }

  function BodyBytes(rs: seq<Record>): Bytes
    requires AllWritable(rs)
  {
    if rs == [] then [] else RecordBytes(rs[0]) + BodyBytes(rs[1..])
  }

  function BodySize(rs: seq<Record>): nat {
    if rs == [] then 0 else OPTION_SIZE + |rs[0].payload| + BodySize(rs[1..])
  }

  // The first octet holds the version in its low and the option count in its high four bits; the
  // second holds the oam and critical flags and six reserved bits. Writer and reader share this
  // layout, so nothing proved here depends on which nibble comes first.
  function HeaderBytes(optLen: nat, sequence: u32): (s: Bytes)
    ensures |s| == HEADER_SIZE
  {
    [VERSION_V1 + 0x10 * (optLen % 0x10), 0, FORMAT_ENCAPSULATED, 0] + Be32(sequence)
  }

  function Version(s: Bytes): nat
    requires HEADER_SIZE <= |s|
  {
    s[0] % 0x10
  }

  function OptLen(s: Bytes): nat
    requires HEADER_SIZE <= |s|
  {
    s[0] / 0x10
  }

  function Reserved(s: Bytes): nat
    requires HEADER_SIZE <= |s|
  {
    s[1] / 4
  }

  /** A packet whose first record, if any, is announced by an option count of one. */
  function PacketBytes(p: Packet): (s: Bytes)
    requires AllWritable(p.records)
  {
    HeaderBytes(if p.records == [] then 0 else 1, p.sequence) + BodyBytes(p.records)
  }

  function WireAll(ps: seq<Packet>): (s: seq<Bytes>)
    requires forall i :: 0 <= i < |ps| ==> AllWritable(ps[i].records)
    ensures |s| == |ps| && forall i :: 0 <= i < |ps| ==> s[i] == PacketBytes(ps[i])
  {
    seq(|ps|, i requires 0 <= i < |ps| => PacketBytes(ps[i]))
  }

  lemma WireAllAppend(a: seq<Packet>, b: seq<Packet>)
    requires forall i :: 0 <= i < |a| ==> AllWritable(a[i].records)
    requires forall i :: 0 <= i < |b| ==> AllWritable(b[i].records)
    ensures forall i :: 0 <= i < |a + b| ==> AllWritable((a + b)[i].records)
    ensures WireAll(a + b) == WireAll(a) + WireAll(b)
  {
  }

  lemma {:induction false} BodySizeAppend(a: seq<Record>, b: seq<Record>)
    ensures BodySize(a + b) == BodySize(a) + BodySize(b)
  {
    if a == [] {
      assert a + b == b;
    } else {
      assert (a + b)[0] == a[0] && (a + b)[1..] == a[1..] + b;
      BodySizeAppend(a[1..], b);
    }
  }

  lemma {:induction false} BodyBytesAppend(a: seq<Record>, b: seq<Record>)
    requires AllWritable(a) && AllWritable(b)
    ensures AllWritable(a + b)
    ensures BodyBytes(a + b) == BodyBytes(a) + BodyBytes(b)
  {
    if a == [] {
      assert a + b == b;
    } else {
      assert (a + b)[0] == a[0] && (a + b)[1..] == a[1..] + b;
      BodyBytesAppend(a[1..], b);
      assert RecordBytes(a[0]) + (BodyBytes(a[1..]) + BodyBytes(b)) == BodyBytes(a) + BodyBytes(b);
    }
  }

  lemma {:induction false} BodyBytesSize(rs: seq<Record>)
    requires AllWritable(rs)
    ensures |BodyBytes(rs)| == BodySize(rs)
  {
    if rs != [] {
      BodyBytesSize(rs[1..]);
    }
  }

  lemma EmptyBody(rs: seq<Record>)
    ensures BodySize(rs) == 0 <==> rs == []
  {
  }

  lemma {:induction false} BodySizeCounts(rs: seq<Record>)
    ensures OPTION_SIZE * |rs| <= BodySize(rs)
  {
    if rs != [] {
      BodySizeCounts(rs[1..]);
    }
  }

  lemma BodySizeSnoc(rs: seq<Record>, r: Record)
    ensures BodySize(rs + [r]) == BodySize(rs) + OPTION_SIZE + |r.payload|
  {
    BodySizeAppend(rs, [r]);
    assert BodySize([r]) == OPTION_SIZE + |r.payload| + BodySize([r][1..]);
  }

  lemma BodyBytesSnoc(rs: seq<Record>, r: Record)
    requires AllWritable(rs) && Writable(r)
    ensures AllWritable(rs + [r])
    ensures BodyBytes(rs + [r]) == BodyBytes(rs) + RecordBytes(r)
  {
    BodyBytesAppend(rs, [r]);
    assert BodyBytes([r]) == RecordBytes(r) + BodyBytes([r][1..]) == RecordBytes(r);
  }

  // --- Parsing ---

  datatype OptionHeader = OptionHeader(kind: byte, size: u16, format: byte, length: u16, part: byte, reserved: byte)

  function ReadOption(s: Bytes, at: nat): OptionHeader
    requires at + OPTION_SIZE <= |s|
  {
    OptionHeader(s[at], ReadBe16(s, at + 1), s[at + 3], ReadBe16(s, at + 4), s[at + 6], s[at + 7])
  }

  /** Reading a record header where one was written gives its fields back. */
  lemma ReadOptionInverts(s: Bytes, at: nat, kind: byte, size: u16, format: byte, length: u16, part: byte)
    requires at + OPTION_SIZE <= |s|
    requires s[at..at + OPTION_SIZE] == OptionBytes(kind, size, format, length, part)
    ensures ReadOption(s, at) == OptionHeader(kind, size, format, length, part, 0)
  {
    var o := s[at..at + OPTION_SIZE];
    assert s[at] == o[0] && s[at + 3] == o[3] && s[at + 6] == o[6] && s[at + 7] == o[7];
    assert s[at + 1] == o[1] == Be16(size)[0] && s[at + 2] == o[2] == Be16(size)[1];
    assert s[at + 4] == o[4] == Be16(length)[0] && s[at + 5] == o[5] == Be16(length)[1];
    assert s[at + 1..at + 3] == Be16(size);
    assert s[at + 4..at + 6] == Be16(length);
    ReadBe16Inverts(s, at + 1, size);
    ReadBe16Inverts(s, at + 4, length);
  }

  /** The header of a packet reads back as it was written. */
  lemma HeaderInverts(p: Packet)
    requires AllWritable(p.records)
    ensures var s := PacketBytes(p);
            && HEADER_SIZE + BodySize(p.records) == |s|
            && Version(s) == VERSION_V1 && Reserved(s) == 0
            && s[2] == FORMAT_ENCAPSULATED && s[3] == 0
            && OptLen(s) == (if p.records == [] then 0 else 1)
            && ReadBe32(s, 4) == p.sequence
            && s[HEADER_SIZE..] == BodyBytes(p.records)
  {
    var s := PacketBytes(p);
    BodyBytesSize(p.records);
    var h := HeaderBytes(if p.records == [] then 0 else 1, p.sequence);
    assert s[..HEADER_SIZE] == h;
    assert s[4..8] == h[4..8] == Be32(p.sequence);
    ReadBe32Inverts(s, 4, p.sequence);
    assert s[0] == h[0] && s[1] == h[1];
  }

  /** Where octets start with a record, its header and payload read back, and what was behind it follows. */
  lemma RecordInverts(s: Bytes, at: nat, rs: seq<Record>, tail: Bytes)
    requires AllWritable(rs) && rs != []
    requires at <= |s| && s[at..] == BodyBytes(rs) + tail
    ensures var end := at + OPTION_SIZE + |rs[0].payload|;
            && end <= |s|
            && ReadOption(s, at) == OptionHeader(rs[0].kind, rs[0].size, rs[0].format, |rs[0].payload|, rs[0].part, 0)
            && s[at + OPTION_SIZE..end] == rs[0].payload
            && s[end..] == BodyBytes(rs[1..]) + tail
  {
    hide OptionBytes, ReadOption;
    var r := rs[0];
    var header, rest := OptionBytes(r.kind, r.size, r.format, |r.payload|, r.part), BodyBytes(rs[1..]) + tail;
    assert BodyBytes(rs) + tail == RecordBytes(r) + rest;
    ThreePieces(s, at, header, r.payload, rest);
    ReadOptionInverts(s, at, r.kind, r.size, r.format, |r.payload|, r.part);
  }

  lemma ThreePieces(s: Bytes, at: nat, a: Bytes, b: Bytes, c: Bytes)
    requires at <= |s| && s[at..] == a + b + c
    ensures at + |a| + |b| <= |s|
    ensures s[at..at + |a|] == a && s[at + |a|..at + |a| + |b|] == b && s[at + |a| + |b|..] == c
  {
    var t := s[at..];
    assert s[at..at + |a|] == t[..|a|];
    assert s[at + |a|..at + |a| + |b|] == t[|a|..|a| + |b|];
    assert s[at + |a| + |b|..] == t[|a| + |b|..];
  }

  // --- The layout, octet by octet ---

  /** The types and formats by number; a type has no bits but those for part and complete. */
  lemma TypesAndFormats(kind: byte, format: byte)
    ensures PARTIAL_PACKET == 1 && COMPLETE_PACKET == 2 && LAST_PART == 3
    ensures NONE == 0 && COMPRESSED_LZ4 == 1 && COMPRESSED_ZSTD == 2
    ensures IsValidType(kind) <==> kind < 4
    ensures IsPartialType(kind) <==> (kind as bv8) & 1 == 1
    ensures IsCompleteType(kind) <==> (kind as bv8) & 2 == 2
    ensures IsCompressed(format) <==> format == 1 || format == 2
  {
  }

  /** A record: type, size of the frame, format, length of the payload, part, an octet 0, and the payload. */
  lemma RecordLaidOut(r: Record)
    requires Writable(r)
    ensures var s, n := RecordBytes(r), |r.payload|;
            && |s| == 8 + n && s[8..] == r.payload
            && s[0] == r.kind && s[3] == r.format && s[6] == r.part && s[7] == 0
            && s[1] == r.size / 256 && s[2] == r.size % 256
            && s[4] == n / 256 && s[5] == n % 256
  {
  }

  /** What is read of a record header, whatever octets there are. */
  lemma OptionLaidOut(s: Bytes, at: nat)
    requires at + 8 <= |s|
    ensures var h := ReadOption(s, at);
            && h.kind == s[at] && h.format == s[at + 3] && h.part == s[at + 6] && h.reserved == s[at + 7]
            && h.size as int == 256 * s[at + 1] as int + s[at + 2] as int
            && h.length as int == 256 * s[at + 4] as int + s[at + 5] as int
  {
  }

  /** A packet: version 1, an option for its records, no flags, format 1, channel 0, its number, and the records. */
  lemma PacketLaidOut(p: Packet)
    requires AllWritable(p.records)
    ensures var s := PacketBytes(p);
            && 8 <= |s| && s[0] % 16 == 1 && s[0] / 16 == (if p.records == [] then 0 else 1)
            && s[1] == 0 && s[2] == 1 && s[3] == 0
            && s[4] == p.sequence / 0x100_0000 && s[5] == p.sequence / 0x1_0000 % 0x100
            && s[6] == p.sequence / 0x100 % 0x100 && s[7] == p.sequence % 0x100
            && s[8..] == BodyBytes(p.records)
  {
    hide HeaderBytes, BodyBytes;
    var n := if p.records == [] then 0 else 1;
    HeaderLaidOut(n, p.sequence);
    assert PacketBytes(p)[..8] == HeaderBytes(n, p.sequence);
  }

  lemma HeaderLaidOut(optLen: nat, sequence: u32)
    requires optLen < 16
    ensures HeaderBytes(optLen, sequence) ==
            [1 + 16 * optLen, 0, 1, 0, sequence / 0x100_0000, sequence / 0x1_0000 % 0x100, sequence / 0x100 % 0x100,
             sequence % 0x100]
  {
    hide Be32;
    Be32LaidOut(sequence);
  }

  /** Each record of a packet comes right behind those before it. */
  lemma RecordLiesAt(p: Packet, k: nat)
    requires AllWritable(p.records) && k < |p.records|
    ensures AllWritable(p.records[..k])
    ensures var s, at, r := PacketBytes(p), 8 + BodySize(p.records[..k]), p.records[k];
            && at + 8 + |r.payload| <= |s| && s[at..at + 8 + |r.payload|] == RecordBytes(r)
            && (k + 1 == |p.records| ==> at + 8 + |r.payload| == |s|)
  {
    hide RecordBytes, HeaderBytes;
    var before, r, after := p.records[..k], p.records[k], p.records[k + 1..];
    assert p.records == before + ([r] + after);
    BodyBytesAppend(before, [r] + after);
    BodyBytesSize(before);
    assert ([r] + after)[1..] == after;
    assert BodyBytes([r] + after) == RecordBytes(r) + BodyBytes(after);
    PacketLaidOut(p);
    var s := PacketBytes(p);
    assert s[8..] == BodyBytes(before) + RecordBytes(r) + BodyBytes(after);
    ThreePieces(s, 8, BodyBytes(before), RecordBytes(r), BodyBytes(after));
  }
}
