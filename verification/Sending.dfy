/** What one call of the encoder sends, and when: in octets, without the steps in which it does so. */
module Sending {
  import opened Bytes
  import opened Wire
  import opened Compression
  import opened EncoderSpec
  import opened Packing
  import opened Splitting

  /** What goes out for a frame: what the codec makes of it, or the frame as it is. */
  ghost predicate GoesOutAs(cfg: EncoderConfig, history: Frames, frame: Bytes, data: Bytes, format: byte) {
    if cfg.format != 0 && cfg.codec.compress(history, frame).Some? then
      data == cfg.codec.compress(history, frame).value && format == cfg.format
    else
      data == frame && format == 0
  }

  /** A frame in one record of its own. */
  ghost predicate OneWhole(rs: seq<Record>, frame: Bytes, data: Bytes, format: byte) {
    && |rs| == 1 && rs[0].kind == 2 && rs[0].size as int == |frame|
    && rs[0].format == format && rs[0].part == 0 && rs[0].payload == data
  }

  /** A frame in at least two parts, numbered from 1, of which the last has type 3 and the others type 1. */
  ghost predicate InParts(rs: seq<Record>, frame: Bytes, data: Bytes, format: byte) {
    && 2 <= |rs| && Joined(rs) == data
    && forall i :: 0 <= i < |rs| ==>
         && rs[i].kind == (if i == |rs| - 1 then 3 else 1) && rs[i].size as int == |frame|
         && rs[i].format == format && rs[i].part as int == i + 1
  }

  /** A frame over the layer 2 MTU leaves everything as it was. */
  lemma TooBigNotSent(cfg: EncoderConfig, st: EncState, frame: Bytes)
    requires Sized(cfg) && Settled(cfg, st) && |frame| > cfg.l2mtu
    ensures Encode(cfg, st, frame) == Emission(st, [])
  {
  }

  /**
    Any other frame: what goes out for it, in which records, when packets go out, how full they are,
    and what the compressor knows afterwards.
   */
  lemma EncodeSends(cfg: EncoderConfig, st: EncState, frame: Bytes) returns (rs: seq<Record>, data: Bytes, format: byte)
    requires Sized(cfg) && Settled(cfg, st) && |frame| <= cfg.l2mtu
    ensures GoesOutAs(cfg, st.history, frame, data, format)
    ensures var e := Encode(cfg, st, frame);
            // All of it, behind what was pending, and nothing else.
            && AllRecords(e.packets) + e.state.records == st.records + rs
            // Whole if it fits the pending packet.
            && (if 8 + BodySize(st.records) + 8 + |data| <= cfg.l4mtu then OneWhole(rs, frame, data, format)
                else InParts(rs, frame, data, format))
            // Nothing goes out as long as there is room for 88 octets of payload more.
            && (e.packets == [] <==> 8 + BodySize(st.records) + 8 + |data| + 8 + 88 <= cfg.l4mtu)
            // What goes out has no such room, and all but the last packet is full.
            && (forall i :: 0 <= i < |e.packets| ==> 8 + BodySize(e.packets[i].records) + 8 + 88 > cfg.l4mtu)
            && (forall i :: 0 <= i < |e.packets| - 1 ==> 8 + BodySize(e.packets[i].records) == cfg.l4mtu)
            // The compressor goes on where nothing went out, and begins anew where something did.
            && e.state.history ==
               if e.packets != [] then [] else if format != 0 then st.history + [frame] else st.history
  {
    hide Place, WellMade, InParts, OneWhole, GoesOutAs, AllRecords, BodySize, Full, Joined, Sized, Compressed, Flush;
    var input := Compressed(cfg, st.history, frame);
    CompressedFits(cfg, st.history, frame);
    data, format := input.data, input.format;
    GoesOut(cfg, st.history, frame);
    rs := PlaceSends(cfg, st, frame, input);
    var e := Place(cfg, st, |frame|, input);
    RoomMeans(cfg, e.state);
    if Room(cfg, e.state) < MIN_ROOM {
      FlushSends(e.state);
      AllRecordsAppend(e.packets, Flush(e.state).packets);
      var f := Flush(e.state);
      assert Encode(cfg, st, frame) == Then(f, e.packets);
      assert AllRecords(e.packets) + AllRecords(f.packets) == AllRecords(e.packets) + e.state.records;
    }
  }

  lemma GoesOut(cfg: EncoderConfig, history: Frames, frame: Bytes)
    ensures var input := Compressed(cfg, history, frame);
            && GoesOutAs(cfg, history, frame, input.data, input.format)
            && input.history == if input.format != 0 then history + [frame] else history
  {
  }

  lemma RoomMeans(cfg: EncoderConfig, st: EncState)
    ensures Room(cfg, st) < MIN_ROOM <==> 8 + BodySize(st.records) + 8 + 88 > cfg.l4mtu
  {
  }

  /** A flush sends what is pending, all of it in one packet, and the compressor begins anew. */
  lemma FlushSends(st: EncState)
    ensures var e := Flush(st);
            && e.state.records == [] && e.state.history == [] && AllRecords(e.packets) == st.records
            && |e.packets| == (if st.records == [] then 0 else 1)
            && forall i :: 0 <= i < |e.packets| ==> e.packets[i].records == st.records
  {
    if st.records != [] {
      var p := Flush(st).packets;
      assert AllRecords(p) == p[0].records + AllRecords(p[1..]);
    }
  }

  lemma PlaceSends(cfg: EncoderConfig, st: EncState, frame: Bytes, input: Input) returns (rs: seq<Record>)
    requires Sized(cfg) && Settled(cfg, st) && |frame| <= cfg.l2mtu && |input.data| <= cfg.bufferSize
    ensures var e, fits := Place(cfg, st, |frame|, input), 8 + BodySize(st.records) + 8 + |input.data| <= cfg.l4mtu;
            && AllRecords(e.packets) + e.state.records == st.records + rs
            && (e.packets == [] <==> fits)
            && (if fits then
                  OneWhole(rs, frame, input.data, input.format) && e.state.history == input.history
                  && BodySize(e.state.records) == BodySize(st.records) + 8 + |input.data|
                else
                  InParts(rs, frame, input.data, input.format) && e.state.history == [])
            && forall i :: 0 <= i < |e.packets| ==> 8 + BodySize(e.packets[i].records) == cfg.l4mtu
  {
    hide Split, AllRecords, BodySize, WellMade, Joined, SplitStep;
    var n := |input.data|;
    if n > Room(cfg, st) {
      var st' := st.(history := input.history);
      EnoughForAll(cfg, st', n);
      SplitUnfolds(cfg, st', input.data, |frame|, input.format, 0, 1);
      SplitStepRoom(cfg, st', input.data, |frame|, input.format, 0, 1);
      rs := SplitIntoParts(cfg, st', input.data, |frame|, input.format, 0, 1, 0xff);
    } else {
      var r := Record(COMPLETE_PACKET, |frame|, input.format, 0, input.data);
      rs := [r];
      BodySizeSnoc(st.records, r);
      NoRecords();
    }
  }

  lemma NoRecords()
    ensures AllRecords([]) == []
  {
  }

  lemma EnoughForAll(cfg: EncoderConfig, st: EncState, left: nat)
    requires Sized(cfg) && left <= cfg.bufferSize
    ensures Enough(cfg, st, left, 0xff)
  {
  }
}
