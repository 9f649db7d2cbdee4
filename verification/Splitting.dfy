/** The split loop against an independent account of cutting a frame into parts. */
module Splitting {
  import opened Bytes
  import opened Wire
  import opened EncoderSpec
  import opened Packing

  function AllRecords(ps: seq<Packet>): seq<Record> {
    if ps == [] then [] else ps[0].records + AllRecords(ps[1..])
  }

  function Joined(rs: seq<Record>): Bytes {
    if rs == [] then [] else rs[0].payload + Joined(rs[1..])
  }

  /** Parts `number` .. `number + |rs| - 1` of one frame, of which only the last is marked complete. */
  ghost predicate PartsOf(rs: seq<Record>, data: Bytes, size: u16, format: byte, number: nat) {
    && rs != []
    && Joined(rs) == data
    && forall i :: 0 <= i < |rs| ==>
         && rs[i].part as int == number + i
         && rs[i].size == size && rs[i].format == format
         && rs[i].kind == if i == |rs| - 1 then LAST_PART else PARTIAL_PACKET
  }

  lemma PartsOfCons(r: Record, rs: seq<Record>, data: Bytes, rest: Bytes, size: u16, format: byte, number: nat)
    requires PartsOf(rs, rest, size, format, number + 1)
    requires r == Record(PARTIAL_PACKET, size, format, r.part, r.payload) && r.part as int == number
    requires data == r.payload + rest
    ensures PartsOf([r] + rs, data, size, format, number)
  {
    assert ([r] + rs)[1..] == rs;
    forall i | 0 < i < |[r] + rs| ensures ([r] + rs)[i] == rs[i - 1] {}
  }

  lemma {:induction false} AllRecordsAppend(a: seq<Packet>, b: seq<Packet>)
    ensures AllRecords(a + b) == AllRecords(a) + AllRecords(b)
    decreases |a|
  {
    if a == [] {
      assert a + b == b;
    } else {
      assert (a + b)[0] == a[0] && (a + b)[1..] == a[1..] + b;
      AllRecordsAppend(a[1..], b);
    }
  }

  lemma StepRecords(cfg: EncoderConfig, st: EncState, data: Bytes, size: u16, format: byte, pos: nat, part: byte)
    requires pos <= |data|
    ensures var e := SplitStep(cfg, st, data, size, format, pos, part);
            AllRecords(e.packets) + e.state.records == st.records + [PartRecord(cfg, st, data, size, format, pos, part)]
  {
    var e := SplitStep(cfg, st, data, size, format, pos, part);
    if e.packets != [] {
      assert e.packets[1..] == [];
      assert AllRecords(e.packets) == e.packets[0].records + AllRecords(e.packets[1..]);
    }
  }

  /**
    The split loop over a frame: what it adds to the pending packet and to those it emits are the
    parts of the frame from `part` on, numbered without a gap; their payloads make up the data; only
    the last is marked complete; and every packet it emits is filled to exactly the layer 4 MTU. It
    takes at most `most` parts, if that many can carry the data.
   */
  lemma {:induction false} SplitIntoParts(cfg: EncoderConfig, st: EncState, data: Bytes, size: u16, format: byte,
                                          pos: nat, part: byte, most: nat) returns (parts: seq<Record>)
    requires Sized(cfg) && pos < |data| && Room(cfg, st) > 0 && Pending(cfg, st)
    requires 1 <= most && part + most <= 0x100
    requires Enough(cfg, st, |data| - pos, most)
    ensures PartsOf(parts, data[pos..], size, format, part) && |parts| <= most
    ensures |data| - pos > Room(cfg, st) ==> |parts| >= 2
    ensures var e := Split(cfg, st, data, size, format, pos, part);
            && AllRecords(e.packets) + e.state.records == st.records + parts
            && forall i :: 0 <= i < |e.packets| ==> Full(cfg, e.packets[i])
    decreases |data| - pos
  {
    hide WellMade, BodySize, MaxPayload, Sized, Pending, Full, PartsOf, Enough, Joined, AllRecords, Split;
    SplitUnfolds(cfg, st, data, size, format, pos, part);
    var e := SplitStep(cfg, st, data, size, format, pos, part);
    var n := PartSize(cfg, st, |data| - pos);
    var r := PartRecord(cfg, st, data, size, format, pos, part);
    SplitStepRoom(cfg, st, data, size, format, pos, part);
    SplitPacks(cfg, st, data, size, format, pos, part);
    StepRecords(cfg, st, data, size, format, pos, part);
    hide SplitStep;
    if pos + n == |data| {
      parts := [r];
      assert e.packets + [] == e.packets;
      LastPartOf(r, data[pos..], size, format, part);
    } else {
      EnoughStep(cfg, st, e.state, |data| - pos, most);
      EmptyPending(cfg, e.state);
      var rest := SplitIntoParts(cfg, e.state, data, size, format, pos + n, part + 1, most - 1);
      parts := [r] + rest;
      SomeParts(rest, data[pos + n..], size, format, part + 1);
      PartsChain(st.records, e, Split(cfg, e.state, data, size, format, pos + n, part + 1), r, rest,
                 data[pos..], data[pos + n..], size, format, part);
    }
  }

  lemma LastPartOf(r: Record, data: Bytes, size: u16, format: byte, number: byte)
    requires r == Record(LAST_PART, size, format, number, data)
    ensures PartsOf([r], data, size, format, number)
  {
    assert Joined([r]) == r.payload + Joined([r][1..]) == data;
  }

  lemma SomeParts(rs: seq<Record>, data: Bytes, size: u16, format: byte, number: nat)
    requires PartsOf(rs, data, size, format, number)
    ensures rs != []
  {
  }

  lemma EmptyPending(cfg: EncoderConfig, st: EncState)
    requires Sized(cfg) && st.records == []
    ensures Pending(cfg, st)
  {
  }

  lemma PartsChain(before: seq<Record>, e: Emission, f: Emission, r: Record, rest: seq<Record>, data: Bytes,
                   left: Bytes,
                   size: u16, format: byte, part: byte)
    requires AllRecords(e.packets) + e.state.records == before + [r]
    requires AllRecords(f.packets) + f.state.records == e.state.records + rest
    requires PartsOf(rest, left, size, format, part + 1)
    requires r == Record(PARTIAL_PACKET, size, format, part, r.payload) && data == r.payload + left
    ensures AllRecords(Then(f, e.packets).packets) + f.state.records == before + ([r] + rest)
    ensures PartsOf([r] + rest, data, size, format, part)
  {
    hide PartsOf, AllRecords;
    PartsOfCons(r, rest, data, left, size, format, part);
    AllRecordsAppend(e.packets, f.packets);
    RecordsChain(AllRecords(e.packets), e.state.records, AllRecords(f.packets), f.state.records, before, r, rest);
  }

  lemma RecordsChain(a: seq<Record>, b: seq<Record>, c: seq<Record>, d: seq<Record>, before: seq<Record>, r: Record,
                     rest: seq<Record>)
    requires a + b == before + [r] && c + d == b + rest
    ensures a + c + d == before + ([r] + rest)
  {
    assert a + c + d == a + (c + d) == (a + b) + rest == before + ([r] + rest);
  }
}
