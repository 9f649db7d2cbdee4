/** Where the parts of a frame lie in the packets of a run. */
module Layout {
  import opened Bytes
  import opened Wire
  import opened Compression
  import opened EncoderSpec
  import opened Packing

  /** The last part sent of an unfinished frame; part number 0 when there is none. */
  datatype Open = Open(part: byte, size: u16, format: byte)

  const CLOSED := Open(0, 0, NONE)

  /**
    A record that may stand next: the next part of the open frame, only at the start of a packet,
    or a record that starts a frame. `format` is that of the tunnel; a frame that did not compress
    goes out as NONE.
   */
  predicate Follows(format: byte, open: Open, atStart: bool, r: Record) {
    && Writable(r)
    && r.format in {NONE, format}
    && if open.part > 0 then
         && atStart && (r.kind == PARTIAL_PACKET || r.kind == LAST_PART)
         && r.part as int == open.part as int + 1 && r.size == open.size && r.format == open.format
       else
         (r.kind == COMPLETE_PACKET && r.part == 0) || (r.kind == PARTIAL_PACKET && r.part == 1)
  }

  function OpenAfterRecord(r: Record): Open {
    if r.kind == PARTIAL_PACKET then Open(r.part, r.size, r.format) else CLOSED
  }

  /** Records of one packet, each of which may follow the one before it. */
  predicate Laid(format: byte, open: Open, atStart: bool, rs: seq<Record>)
    decreases |rs|
  {
    rs == [] || (Follows(format, open, atStart, rs[0]) && Laid(format, OpenAfterRecord(rs[0]), false, rs[1..]))
  }

  function OpenAfter(open: Open, rs: seq<Record>): Open {
    if rs == [] then open else OpenAfterRecord(rs[|rs| - 1])
  }

  /** A run of packets, each laid out, each starting with the part the one before left open. */
  predicate LaidOut(format: byte, open: Open, ps: seq<Packet>)
    decreases |ps|
  {
    || ps == []
    || (&& ps[0].records != [] && Laid(format, open, true, ps[0].records)
        && LaidOut(format, OpenAfter(open, ps[0].records), ps[1..]))
  }

  function OpenAfterAll(open: Open, ps: seq<Packet>): Open
    decreases |ps|
  {
    if ps == [] then open else OpenAfterAll(OpenAfter(open, ps[0].records), ps[1..])
  }

  lemma {:induction false} LaidSnoc(format: byte, open: Open, atStart: bool, rs: seq<Record>, r: Record)
    requires Laid(format, open, atStart, rs)
    requires Follows(format, OpenAfter(open, rs), atStart && rs == [], r)
    ensures Laid(format, open, atStart, rs + [r])
    decreases |rs|
  {
    if rs == [] {
      assert rs + [r] == [r] && [r][1..] == [];
    } else {
      assert (rs + [r])[0] == rs[0] && (rs + [r])[1..] == rs[1..] + [r];
      LaidSnoc(format, OpenAfterRecord(rs[0]), false, rs[1..], r);
    }
  }

  lemma {:induction false} LaidOutAppend(format: byte, open: Open, a: seq<Packet>, b: seq<Packet>)
    requires LaidOut(format, open, a) && LaidOut(format, OpenAfterAll(open, a), b)
    ensures LaidOut(format, open, a + b)
    ensures OpenAfterAll(open, a + b) == OpenAfterAll(OpenAfterAll(open, a), b)
    decreases |a|
  {
    if a == [] {
      assert a + b == b;
    } else {
      assert (a + b)[0] == a[0] && (a + b)[1..] == a[1..] + b;
      LaidOutAppend(format, OpenAfter(open, a[0].records), a[1..], b);
    }
  }

  /**
    An emission that leaves things in order: `open` parts were open where the pending packet of
    `st` began; the emitted packets are laid out from there, and so is the new pending packet.
   */
  ghost predicate Orderly(format: byte, open: Open, e: Emission, openNow: Open) {
    && LaidOut(format, open, e.packets)
    && var open' := OpenAfterAll(open, e.packets);
    && Laid(format, open', true, e.state.records)
    && OpenAfter(open', e.state.records) == openNow
  }

  lemma OrderlyThen(format: byte, open: Open, e: Emission, openMid: Open, f: Emission, openNow: Open)
    requires Orderly(format, open, e, openMid)
    requires Orderly(format, OpenAfterAll(open, e.packets), f, openNow)
    ensures Orderly(format, open, Then(f, e.packets), openNow)
  {
    LaidOutAppend(format, open, e.packets, f.packets);
  }

  lemma FlushOrderly(format: byte, open: Open, st: EncState, openNow: Open)
    requires Laid(format, open, true, st.records) && OpenAfter(open, st.records) == openNow
    ensures Orderly(format, open, FlushPacket(st), openNow) && Orderly(format, open, Flush(st), openNow)
  {
    if st.records != [] {
      var p := FlushPacket(st).packets[0];
      assert LaidOut(format, OpenAfter(open, p.records), [p][1..]);
    }
  }

  lemma AddOrderly(format: byte, open: Open, st: EncState, r: Record)
    requires Laid(format, open, true, st.records) && Follows(format, OpenAfter(open, st.records), st.records == [], r)
    ensures Orderly(format, open, Emission(AddRecord(st, r), []), OpenAfterRecord(r))
  {
    LaidSnoc(format, open, true, st.records, r);
  }

  /** The state the split loop is in at part number `part`: the part before it is open. */
  ghost predicate SplitPoint(cfg: EncoderConfig, open: Open, st: EncState, data: Bytes, size: u16, format: byte,
                             pos: nat, part: byte)
  {
    && Pending(cfg, st)
    && pos < |data| <= UINT16_MAX && Room(cfg, st) > 0 && 1 <= part
    && (part > 1 ==> st.records == [])
    && (part == 1 ==> |data| - pos > Room(cfg, st))
    && Enough(cfg, st, |data| - pos, 0x100 - part)
    && Laid(cfg.format, open, true, st.records)
    && OpenAfter(open, st.records) == if part == 1 then CLOSED else Open(part - 1, size, format)
  }

  lemma SplitStepOrderly(cfg: EncoderConfig, open: Open, st: EncState, data: Bytes, size: u16, format: byte, pos: nat,
                         part: byte)
    requires Sized(cfg) && format in {NONE, cfg.format}
    requires SplitPoint(cfg, open, st, data, size, format, pos, part)
    ensures var e := SplitStep(cfg, st, data, size, format, pos, part);
            var n := PartSize(cfg, st, |data| - pos);
            && 0 < n <= |data| - pos
            && Orderly(cfg.format, open, e, if pos + n == |data| then CLOSED else Open(part, size, format))
            && (pos + n < |data| ==>
                  part < UINT8_MAX && SplitPoint(cfg, OpenAfterAll(open, e.packets), e.state, data, size, format, pos
                      + n, part + 1))
  {
    hide Enough, LaidOut;
    SplitStepRoom(cfg, st, data, size, format, pos, part);
    var n := PartSize(cfg, st, |data| - pos);
    var r := PartRecord(cfg, st, data, size, format, pos, part);
    BodySizeSnoc(st.records, r);
    var st' := AddRecord(st, r);
    AddOrderly(cfg.format, open, st, r);
    FlushOrderly(cfg.format, open, st', OpenAfterRecord(r));
    if pos + n < |data| {
      EnoughStep(cfg, st, SplitStep(cfg, st, data, size, format, pos, part).state, |data| - pos, 0x100 - part);
    }
  }

  lemma {:induction false} SplitOrderly(cfg: EncoderConfig, open: Open, st: EncState, data: Bytes, size: u16,
                                        format: byte, pos: nat, part: byte)
    requires Sized(cfg) && format in {NONE, cfg.format}
    requires SplitPoint(cfg, open, st, data, size, format, pos, part)
    ensures Orderly(cfg.format, open, Split(cfg, st, data, size, format, pos, part), CLOSED)
    decreases |data| - pos
  {
    hide Orderly, Enough, Laid, LaidOut, SplitStep, WellMade;
    SplitStepOrderly(cfg, open, st, data, size, format, pos, part);
    var e := SplitStep(cfg, st, data, size, format, pos, part);
    var n := PartSize(cfg, st, |data| - pos);
    if pos + n < |data| {
      SplitOrderly(cfg, OpenAfterAll(open, e.packets), e.state, data, size, format, pos + n, part + 1);
      var rest := Split(cfg, e.state, data, size, format, pos + n, part + 1);
      OrderlyThen(cfg.format, open, e, Open(part, size, format), rest, CLOSED);
    } else {
      assert e.packets + [] == e.packets;
    }
  }

  lemma EncodeOrderly(cfg: EncoderConfig, open: Open, st: EncState, frame: Bytes)
    requires Sized(cfg) && Settled(cfg, st)
    requires Laid(cfg.format, open, true, st.records) && OpenAfter(open, st.records) == CLOSED
    ensures Orderly(cfg.format, open, Encode(cfg, st, frame), CLOSED)
  {
    hide Orderly, Laid, LaidOut, WellMade, Split, Bounded;
    if |frame| <= cfg.l2mtu {
      var input := Compressed(cfg, st.history, frame);
      CompressedFits(cfg, st.history, frame);
      var st' := st.(history := input.history);
      var e := Place(cfg, st, |frame|, input);
      if |input.data| > Room(cfg, st) {
        SplitOrderly(cfg, open, st', input.data, |frame|, input.format, 0, 1);
        HistoryOrderly(cfg.format, open, Split(cfg, st', input.data, |frame|, input.format, 0, 1), e);
      } else {
        AddOrderly(cfg.format, open, st', Record(COMPLETE_PACKET, |frame|, input.format, 0, input.data));
      }
      assert Orderly(cfg.format, open, e, CLOSED);
      FlushAfterOrderly(cfg.format, open, e);
    } else {
      StayOrderly(cfg.format, open, st);
    }
  }

  lemma HistoryOrderly(format: byte, open: Open, e: Emission, f: Emission)
    requires Orderly(format, open, e, CLOSED) && f.packets == e.packets && f.state.records == e.state.records
    ensures Orderly(format, open, f, CLOSED)
  {
  }

  lemma StayOrderly(format: byte, open: Open, st: EncState)
    requires Laid(format, open, true, st.records) && OpenAfter(open, st.records) == CLOSED
    ensures Orderly(format, open, Emission(st, []), CLOSED)
  {
  }

  lemma FlushAfterOrderly(format: byte, open: Open, e: Emission)
    requires Orderly(format, open, e, CLOSED)
    ensures Orderly(format, open, Then(Flush(e.state), e.packets), CLOSED)
  {
    FlushOrderly(format, OpenAfterAll(open, e.packets), e.state, CLOSED);
    OrderlyThen(format, open, e, CLOSED, Flush(e.state), CLOSED);
  }

  /**
    In every run the packets are laid out: parts 1 .. n of a frame lie in n packets in a row, the
    first at the end of its packet, the last at the start of its own, and those between fill theirs.
   */
  lemma {:induction false} RunOrderly(cfg: EncoderConfig, open: Open, st: EncState, events: seq<Event>)
    requires Sized(cfg) && Settled(cfg, st)
    requires Laid(cfg.format, open, true, st.records) && OpenAfter(open, st.records) == CLOSED
    ensures Orderly(cfg.format, open, Run(cfg, st, events), CLOSED)
    decreases |events|
  {
    hide Encode, Flush, WellMade, Laid, LaidOut;
    if events == [] {
      StayOrderly(cfg.format, open, st);
    } else {
      EncodePacks(cfg, st, if events[0].Frame? then events[0].data else []);
      FlushPacks(cfg, st);
      var e := match events[0] {
        case Frame(data) => Encode(cfg, st, data)
        case Flushing => Flush(st)
      };
      assert Orderly(cfg.format, open, e, CLOSED) by {
        match events[0] {
          case Frame(data) => EncodeOrderly(cfg, open, st, data);
          case Flushing => FlushOrderly(cfg.format, open, st, CLOSED);
        }
      }
      RunOrderly(cfg, OpenAfterAll(open, e.packets), e.state, events[1..]);
      OrderlyThen(cfg.format, open, e, CLOSED, Run(cfg, e.state, events[1..]), CLOSED);
    }
  }
}
