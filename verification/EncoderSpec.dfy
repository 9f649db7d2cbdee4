/** What the packet encoder does, as transitions on values. */
module EncoderSpec {
  import opened Bytes
  import opened Wire
  import opened Compression

  /** `codec` is used only when `format` is not NONE. */
  datatype EncoderConfig = EncoderConfig(l2mtu: u16, l4mtu: u16, bufferSize: nat, format: byte, codec: Codec)

  /**
    `sequence` is the number of the next packet, `records` what the pending packet holds and
    `history` the frames compressed since the compressor was last reset.
   */
  datatype EncState = EncState(sequence: u32, records: seq<Record>, history: Frames)

  datatype Emission = Emission(state: EncState, packets: seq<Packet>)

  // Octets an encode call leaves for at least: below this the pending packet is flushed.
  const MIN_ROOM := HEADER_SIZE + 10 * OPTION_SIZE

  /** Sizes under which no buffer overflows and the 8-bit part number never wraps. */
  ghost predicate Sized(cfg: EncoderConfig) {
    && HEADER_SIZE + OPTION_SIZE + MIN_ROOM <= cfg.l4mtu <= cfg.bufferSize <= UINT16_MAX
    && cfg.l2mtu <= cfg.bufferSize <= 254 * (cfg.l4mtu - HEADER_SIZE - OPTION_SIZE)
    && (cfg.format == NONE || (IsCompressed(cfg.format) && Bounded(cfg.codec, cfg.bufferSize)))
  }

  function InitialState(sequence: u32): EncState {
    EncState(sequence, [], [])
  }

  /** Octets in the pending packet, its header included. */
  function DataSize(st: EncState): nat {
    HEADER_SIZE + BodySize(st.records)
  }

  /** Octets of payload that one more record may carry in a packet that holds `dataSize` octets. */
  function MaxPayload(l4mtu: u16, dataSize: nat): u16 {
    var free := l4mtu - (if dataSize == 0 then HEADER_SIZE else 0) - OPTION_SIZE - dataSize;
    if free <= 0 then 0 else free
  }

  function Room(cfg: EncoderConfig, st: EncState): u16 {
    MaxPayload(cfg.l4mtu, DataSize(st))
  }

  /** Emits the pending packet unless it is empty; the number UINT32_MAX is never used. */
  function FlushPacket(st: EncState): Emission {
    if st.records == [] then
      Emission(st, [])
    else
      var s: u32 := if st.sequence == UINT32_MAX then 1 else st.sequence;
      Emission(EncState(s + 1, [], st.history), [Packet(s, st.records)])
  }

  function Flush(st: EncState): Emission {
    var e := FlushPacket(st);
    e.(state := e.state.(history := []))
  }

  function Then(e: Emission, earlier: seq<Packet>): Emission {
    e.(packets := earlier + e.packets)
  }

  function AddRecord(st: EncState, r: Record): EncState {
    st.(records := st.records + [r])
  }

  /** Length of the next part when `left` octets of the frame remain. */
  function PartSize(cfg: EncoderConfig, st: EncState, left: nat): nat {
    var room := Room(cfg, st);
    if left > room then room else left
  }

  /** The record for the part that starts at `pos`. */
  function PartRecord(cfg: EncoderConfig, st: EncState, data: Bytes, size: u16, format: byte, pos: nat,
                      part: byte): Record
    requires pos <= |data|
  {
    var n := PartSize(cfg, st, |data| - pos);
    Record(if pos + n == |data| then LAST_PART else PARTIAL_PACKET, size, format, part, data[pos..pos + n])
  }

  /** One iteration of the split loop: add a part, and emit the packet when that fills it. */
  function SplitStep(cfg: EncoderConfig, st: EncState, data: Bytes, size: u16, format: byte, pos: nat,
                     part: byte): Emission
    requires pos <= |data|
  {
    var st' := AddRecord(st, PartRecord(cfg, st, data, size, format, pos, part));
    if DataSize(st') == cfg.l4mtu then FlushPacket(st') else Emission(st', [])
  }

  lemma SplitStepRoom(cfg: EncoderConfig, st: EncState, data: Bytes, size: u16, format: byte, pos: nat, part: byte)
    requires Sized(cfg) && pos < |data| && Room(cfg, st) > 0
    ensures var e := SplitStep(cfg, st, data, size, format, pos, part);
            var n := PartSize(cfg, st, |data| - pos);
            && 0 < n <= |data| - pos
            && (pos + n < |data| ==> e.state.records == [] && |e.packets| == 1 && Room(cfg, e.state) == cfg.l4mtu - 16)
  {
    BodySizeSnoc(st.records, PartRecord(cfg, st, data, size, format, pos, part));
  }

  /** The split loop from position `pos`, at part number `part`. */
  function Split(cfg: EncoderConfig, st: EncState, data: Bytes, size: u16, format: byte, pos: nat, part: byte): Emission
    requires Sized(cfg) && pos <= |data|
    requires pos < |data| ==> Room(cfg, st) > 0
    decreases |data| - pos
  {
    if pos == |data| then
      Emission(st, [])
    else
      SplitStepRoom(cfg, st, data, size, format, pos, part);
      var e := SplitStep(cfg, st, data, size, format, pos, part);
      var n := PartSize(cfg, st, |data| - pos);
      Then(Split(cfg, e.state, data, size, format, pos + n, (part + 1) % 0x100), e.packets)
  }

  lemma SplitUnfolds(cfg: EncoderConfig, st: EncState, data: Bytes, size: u16, format: byte, pos: nat, part: byte)
    requires Sized(cfg) && pos < |data| && Room(cfg, st) > 0
    ensures var e := SplitStep(cfg, st, data, size, format, pos, part);
            var n := PartSize(cfg, st, |data| - pos);
            && 0 < n <= |data| - pos
            && (pos + n < |data| ==> Room(cfg, e.state) > 0)
            && Split(cfg, st, data, size, format, pos, part)
               == Then(if pos + n == |data| then Emission(e.state, [])
                   else Split(cfg, e.state, data, size, format, pos + n, (part + 1) % 0x100),
                       e.packets)
  {
    SplitStepRoom(cfg, st, data, size, format, pos, part);
    hide SplitStep, PartSize, Room, Sized;
  }

  /** What goes on the wire for a frame: compressed if the format asks for it and the codec succeeds. */
  datatype Input = Input(data: Bytes, format: byte, history: Frames)

  function Compressed(cfg: EncoderConfig, history: Frames, frame: Bytes): Input {
    if cfg.format == NONE then
      Input(frame, NONE, history)
    else
      match cfg.codec.compress(history, frame)
      case Some(data) => Input(data, cfg.format, history + [frame])
      case None => Input(frame, NONE, history)
  }

  /** Records the wire can carry, of the types an encoder uses. */
  predicate WellMade(rs: seq<Record>) {
    AllWritable(rs) && forall i :: 0 <= i < |rs| ==> PARTIAL_PACKET <= rs[i].kind <= LAST_PART
  }

  /** Between calls: room for a record, and an empty pending packet means a fresh compressor. */
  ghost predicate Settled(cfg: EncoderConfig, st: EncState) {
    && WellMade(st.records)
    && Room(cfg, st) >= MIN_ROOM
    && (st.records == [] ==> st.history == [])
    && (cfg.format == NONE ==> st.history == [])
  }

  /** Places a frame: whole if it fits the pending packet, in parts otherwise. */
  function Place(cfg: EncoderConfig, st: EncState, size: u16, input: Input): Emission
    requires Sized(cfg) && Room(cfg, st) > 0
  {
    var st' := st.(history := input.history);
    if |input.data| > Room(cfg, st) then
      var e := Split(cfg, st', input.data, size, input.format, 0, 1);
      e.(state := e.state.(history := []))
    else
      Emission(AddRecord(st', Record(COMPLETE_PACKET, size, input.format, 0, input.data)), [])
  }

  /** A frame that is too big is dropped; else it is placed, and a packet that got full goes out. */
  function Encode(cfg: EncoderConfig, st: EncState, frame: Bytes): Emission
    requires Sized(cfg) && Settled(cfg, st)
  {
    if |frame| > cfg.l2mtu then
      Emission(st, [])
    else
      var e := Place(cfg, st, |frame|, Compressed(cfg, st.history, frame));
      if Room(cfg, e.state) < MIN_ROOM then Then(Flush(e.state), e.packets) else e
  }
}
