/** How the encoder packs: what it keeps between calls, and what every packet it emits looks like. */
module Packing {
  import opened Bytes
  import opened Wire
  import opened Compression
  import opened EncoderSpec

  datatype Event = Frame(data: Bytes) | Flushing

  /** A packet as it goes out: some records, all announced by one option header, within the MTU. */
  ghost predicate Sendable(cfg: EncoderConfig, p: Packet) {
    p.records != [] && WellMade(p.records) && HEADER_SIZE + BodySize(p.records) <= cfg.l4mtu
  }

  ghost predicate AllSendable(cfg: EncoderConfig, ps: seq<Packet>) {
    forall i :: 0 <= i < |ps| ==> Sendable(cfg, ps[i])
  }

  ghost predicate Pending(cfg: EncoderConfig, st: EncState) {
    WellMade(st.records) && DataSize(st) <= cfg.l4mtu
  }

  ghost predicate Full(cfg: EncoderConfig, p: Packet) {
    HEADER_SIZE + BodySize(p.records) == cfg.l4mtu
  }

  /** `most` parts can carry `left` octets: the first what there is room for, the others a full packet each. */
  ghost predicate Enough(cfg: EncoderConfig, st: EncState, left: nat, most: nat) {
    left <= Room(cfg, st) + (most - 1) * (cfg.l4mtu - HEADER_SIZE - OPTION_SIZE)
  }

  lemma EnoughStep(cfg: EncoderConfig, st: EncState, next: EncState, left: nat, most: nat)
    requires 1 <= most && Room(cfg, st) < left && Enough(cfg, st, left, most)
    requires Room(cfg, next) == cfg.l4mtu - HEADER_SIZE - OPTION_SIZE
    ensures most > 1 && Enough(cfg, next, left - Room(cfg, st), most - 1)
  {
    var full := cfg.l4mtu - HEADER_SIZE - OPTION_SIZE;
    assert most == 1 ==> (most - 1) * full == 0;
    assert (most - 1) * full == full + (most - 2) * full;
  }

  lemma SplitStepPacks(cfg: EncoderConfig, st: EncState, data: Bytes, size: u16, format: byte, pos: nat, part: byte)
    requires Sized(cfg) && pos < |data| && Room(cfg, st) > 0 && Pending(cfg, st)
    ensures var e := SplitStep(cfg, st, data, size, format, pos, part);
            && AllSendable(cfg, e.packets)
            && (forall i :: 0 <= i < |e.packets| ==> Full(cfg, e.packets[i]))
            && Pending(cfg, e.state)
            && e.state.history == st.history
  {
    BodySizeSnoc(st.records, PartRecord(cfg, st, data, size, format, pos, part));
  }

  /** Every packet the split loop emits is filled to exactly the layer 4 MTU. */
  lemma {:induction false} SplitPacks(cfg: EncoderConfig, st: EncState, data: Bytes, size: u16, format: byte,
                                      pos: nat, part: byte)
    requires Sized(cfg) && pos <= |data| && (pos < |data| ==> Room(cfg, st) > 0)
    requires Pending(cfg, st)
    ensures var e := Split(cfg, st, data, size, format, pos, part);
            && AllSendable(cfg, e.packets)
            && (forall i :: 0 <= i < |e.packets| ==> Full(cfg, e.packets[i]))
            && Pending(cfg, e.state)
            && e.state.history == st.history
    decreases |data| - pos
  {
    if pos < |data| {
      SplitUnfolds(cfg, st, data, size, format, pos, part);
      SplitStepPacks(cfg, st, data, size, format, pos, part);
      hide Split, SplitStep, PartSize, Room, Sized, Pending, Sendable, Full;
      var n := PartSize(cfg, st, |data| - pos);
      if pos + n < |data| {
        SplitPacks(cfg, SplitStep(cfg, st, data, size, format, pos, part).state, data, size, format, pos + n,
            (part + 1) % 0x100);
      }
    }
  }

  lemma CompressedFits(cfg: EncoderConfig, history: Frames, frame: Bytes)
    requires Sized(cfg) && |frame| <= cfg.l2mtu
    ensures |Compressed(cfg, history, frame).data| <= cfg.bufferSize
  {
  }

  lemma PlacePacks(cfg: EncoderConfig, st: EncState, size: u16, input: Input)
    requires Sized(cfg) && Settled(cfg, st) && |input.data| <= cfg.bufferSize
    ensures var e := Place(cfg, st, size, input);
            && Pending(cfg, e.state) && AllSendable(cfg, e.packets)
            && (e.state.history == [] || (e.state.records != [] && e.state.history == input.history))
  {
    hide Split;
    if |input.data| > Room(cfg, st) {
      SplitPacks(cfg, st.(history := input.history), input.data, size, input.format, 0, 1);
    } else {
      BodySizeSnoc(st.records, Record(COMPLETE_PACKET, size, input.format, 0, input.data));
    }
  }

  lemma FlushPacks(cfg: EncoderConfig, st: EncState)
    requires Sized(cfg) && Pending(cfg, st)
    ensures var e := Flush(st); Settled(cfg, e.state) && AllSendable(cfg, e.packets)
  {
  }

  /** Between calls the pending packet always has room, and all that goes out is well made. */
  lemma EncodePacks(cfg: EncoderConfig, st: EncState, frame: Bytes)
    requires Sized(cfg) && Settled(cfg, st)
    ensures var e := Encode(cfg, st, frame);
            Settled(cfg, e.state) && AllSendable(cfg, e.packets)
  {
    hide Place, AllWritable, BodySize;
    if |frame| <= cfg.l2mtu {
      CompressedFits(cfg, st.history, frame);
      var e := Place(cfg, st, |frame|, Compressed(cfg, st.history, frame));
      PlacePacks(cfg, st, |frame|, Compressed(cfg, st.history, frame));
      FlushPacks(cfg, e.state);
    }
  }

  /** What an encoder does over a run of frames and flushes. */
  function Run(cfg: EncoderConfig, st: EncState, events: seq<Event>): (e: Emission)
    requires Sized(cfg) && Settled(cfg, st)
    ensures Settled(cfg, e.state) && AllSendable(cfg, e.packets)
    decreases |events|
  {
    if events == [] then
      Emission(st, [])
    else
      var e := match events[0] {
        case Frame(data) => EncodePacks(cfg, st, data); Encode(cfg, st, data)
        case Flushing => Flush(st)
      };
      Then(Run(cfg, e.state, events[1..]), e.packets)
  }

  /** The frames of a run that are not over the layer 2 MTU, in order. */
  function Accepted(cfg: EncoderConfig, events: seq<Event>): Frames {
    if events == [] then
      []
    else
      (if events[0].Frame? && |events[0].data| <= cfg.l2mtu then [events[0].data] else []) + Accepted(cfg, events[1..])
  }
}
