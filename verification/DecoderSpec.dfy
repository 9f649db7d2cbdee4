/** What the packet decoder does, as transitions on values. */
module DecoderSpec {
  import opened Bytes
  import opened Wire
  import opened Compression

  datatype DecoderConfig = DecoderConfig(l2mtu: u16, bufferSize: nat, lz4: Codec, zstd: Codec)

  // Each of the two decompressors has a history of its own; they are always reset together.
  datatype Histories = Histories(lz4: Frames, zstd: Frames)

  const NO_HISTORY := Histories([], [])

  /** The frame under reassembly: the parts taken so far, and what their records declared. */
  datatype Assembly = Assembly(lastPart: byte, lastFormat: byte, lastSize: u16, partial: Bytes, histories: Histories)

  datatype DecState = DecState(first: bool, lastSequence: u32, asm: Assembly)

  /**
    How the decoding of a packet or of a record ends. Done: go on. Dropped: the rest of the packet
    is discarded. Stalled: the loop over the records never comes back. Unframed: the loop reads a
    record header past the octets there are.
   */
  datatype Verdict = Done | Dropped | Stalled | Unframed

  /** `flush`: whether the decompressors are reset at the end of the packet. */
  datatype Progress = Progress(asm: Assembly, out: Frames, flush: bool, verdict: Verdict)

  datatype Decoded = Decoded(state: DecState, out: Frames, verdict: Verdict)

  function CodecFor(cfg: DecoderConfig, format: byte): Codec {
    if format == COMPRESSED_LZ4 then cfg.lz4 else cfg.zstd
  }

  function HistoryFor(hs: Histories, format: byte): Frames {
    if format == COMPRESSED_LZ4 then hs.lz4 else hs.zstd
  }

  function Remember(hs: Histories, format: byte, frame: Bytes): Histories {
    if format == COMPRESSED_LZ4 then hs.(lz4 := hs.lz4 + [frame]) else hs.(zstd := hs.zstd + [frame])
  }

  /** The state cleared, the decompressors left alone. */
  function Cleared(asm: Assembly): Assembly {
    Assembly(0, NONE, 0, [], asm.histories)
  }

  const EMPTY := Assembly(0, NONE, 0, [], NO_HISTORY)

  function Drop(out: Frames): Progress {
    Progress(EMPTY, out, true, Dropped)
  }

  // --- One record ---

  /** The frame a payload stands for, and the histories once it was read; None if it cannot be read. */
  function Restore(cfg: DecoderConfig, hs: Histories, format: byte, data: Bytes): Option<(Bytes, Histories)> {
    if IsCompressed(format) then
      match CodecFor(cfg, format).decompress(HistoryFor(hs, format), data)
      case Some(frame) => Some((frame, Remember(hs, format, frame)))
      case None => None
    else
      Some((data, hs))
  }

  /** A whole frame in one record; `payload` is None when it would end after the packet. */
  function CompleteStep(cfg: DecoderConfig, asm: Assembly, h: OptionHeader, payload: Option<Bytes>): Progress {
    var asm' := if asm.lastPart != 0 then EMPTY else asm;
    if h.part != 0 || payload.None? then
      Drop([])
    else
      // An uncompressed payload is appended to the buffer, a compressed one is written over it.
      var data := if IsCompressed(h.format) then payload.value else asm'.partial + payload.value;
      match Restore(cfg, asm'.histories, h.format, data)
      case None => Drop([])
      case Some((frame, hs)) =>
        if |frame| != h.size then Drop([])
        else Progress(Cleared(asm'.(histories := hs)), [frame], true, Done)
  }

  /** A part that cannot follow the parts taken so far. */
  predicate OutOfPlace(asm: Assembly, h: OptionHeader) {
    || (h.part == 1 && asm.lastPart != 0)
    || h.part as int != asm.lastPart as int + 1
    || (asm.lastPart != 0 && h.size != asm.lastSize)
    || (asm.lastPart != 0 && asm.lastFormat != h.format)
  }

  function PartialStep(cfg: DecoderConfig, asm: Assembly, h: OptionHeader, payload: Option<Bytes>): Progress {
    if OutOfPlace(asm, h) then
      // Skipped, whatever its length says.
      Progress(EMPTY, [], false, Done)
    else if payload.None? then
      Drop([])
    else
      var taken := asm.partial + payload.value;
      if |taken| > cfg.bufferSize || (!IsCompressed(h.format) && |taken| > h.size) then
        Drop([])
      else if !IsCompleteType(h.kind) then
        Progress(Assembly(h.part, h.format, h.size, taken, asm.histories), [], false, Done)
      else
        match Restore(cfg, asm.histories, h.format, taken)
        case None => Drop([])
        case Some((frame, _)) =>
          if |frame| != h.size then Drop([])
          else Progress(EMPTY, [frame], false, Done)
  }

  function RecordStep(cfg: DecoderConfig, asm: Assembly, flush: bool, h: OptionHeader,
                      payload: Option<Bytes>): Progress {
    if h.size > cfg.l2mtu then Drop([])
    else if h.kind == COMPLETE_PACKET then CompleteStep(cfg, asm, h, payload)
    else if IsPartialType(h.kind) then PartialStep(cfg, asm, h, payload)
    else Progress(asm, [], flush, Stalled)
  }

  // --- The record loop ---

  function After(p: Progress, earlier: Frames): Progress {
    p.(out := earlier + p.out)
  }

  // The data of a packet lies in a buffer; `past` is what the buffer holds after it, left there by
  // packets before. A record header is read wherever the loop has come to in the data.

  function HeaderAt(s: Bytes, past: Bytes, at: nat): OptionHeader
    requires at + OPTION_SIZE <= |s| + |past|
  {
    ReadOption(s + past, at)
  }

  /** The payload of the record at `at`, if it lies in the data. */
  function PayloadAt(s: Bytes, past: Bytes, at: nat): Option<Bytes>
    requires at + OPTION_SIZE <= |s| + |past|
  {
    var end := at + OPTION_SIZE + HeaderAt(s, past, at).length;
    if end > |s| then None else Some(s[at + OPTION_SIZE..end])
  }

  /** Where the next record begins, as a 16-bit number; only a skipped record can make it wrap around. */
  function NextAt(s: Bytes, past: Bytes, at: nat): u16
    requires at + OPTION_SIZE <= |s| + |past|
  {
    (at + OPTION_SIZE + HeaderAt(s, past, at).length) % 0x1_0000
  }

  predicate Wraps(s: Bytes, past: Bytes, at: nat)
    requires at + OPTION_SIZE <= |s| + |past|
  {
    at + OPTION_SIZE + HeaderAt(s, past, at).length > UINT16_MAX
  }

  // How many of the first `n` positions the loop has not yet gone back to.
  function Unvisited(n: nat, back: set<nat>): nat {
    if n == 0 then 0 else Unvisited(n - 1, back) + if n - 1 in back then 0 else 1
  }

  lemma {:induction false} UnvisitedFalls(n: nat, back: set<nat>, to: nat)
    requires to !in back
    ensures Unvisited(n, back + {to}) == Unvisited(n, back) - if to < n then 1 else 0
    decreases n
  {
    if n > 0 {
      UnvisitedFalls(n - 1, back, to);
    }
  }

  /**
    The record loop over the octets of a packet, from position `at`. Its position can wrap around
    and so go back; `back` holds the positions it has gone back to. Going back to one of them again
    it will do so for ever.
   */
  function RecordLoop(cfg: DecoderConfig, asm: Assembly, flush: bool, s: Bytes, past: Bytes, at: nat, back: set<nat>):
    Progress
    decreases Unvisited(|s|, back), |s| - at
  {
    if at >= |s| then
      Progress(asm, [], flush, Done)
    else if at + OPTION_SIZE > |s| + |past| then
      Progress(asm, [], flush, Unframed)
    else
      var p := RecordStep(cfg, asm, flush, HeaderAt(s, past, at), PayloadAt(s, past, at));
      var next := NextAt(s, past, at);
      if p.verdict != Done then
        p
      else if !Wraps(s, past, at) then
        After(RecordLoop(cfg, p.asm, p.flush, s, past, next, back), p.out)
      else if next >= |s| then
        p
      else if next in back then
        p.(verdict := Stalled)
      else
        UnvisitedFalls(|s|, back, next);
        After(RecordLoop(cfg, p.asm, p.flush, s, past, next, back + {next}), p.out)
  }

  // --- One packet ---

  /** True when the header is one this decoder does not take. */
  predicate HeaderRejected(s: Bytes)
    requires HEADER_SIZE <= |s|
  {
    Version(s) > VERSION_V1 || Reserved(s) != 0 || s[2] != FORMAT_ENCAPSULATED || s[3] != 0
  }

  /** Exactly one option header, complete, with its reserved octet zero and a known type. */
  predicate OptionsAccepted(s: Bytes)
    requires HEADER_SIZE <= |s|
  {
    OptLen(s) == 1 && HEADER_SIZE + OPTION_SIZE <= |s| && s[HEADER_SIZE + 7] == 0 && IsValidType(s[HEADER_SIZE])
  }

  predicate SequenceWraps(current: u32, previous: u32) {
    current < previous && previous - current > UINT32_MAX / 2
  }

  /** Whether a packet number makes the decoder give up the frame under reassembly. */
  predicate SequenceClears(last: u32, sequence: u32) {
    var expected := (last + 1) % 0x1_0000_0000;
    sequence > expected || (sequence < expected && !SequenceWraps(sequence, last))
  }

  function SequenceStep(st: DecState, sequence: u32): DecState {
    var last: u32 := if st.first then (sequence - 1) % 0x1_0000_0000 else st.lastSequence;
    DecState(false, sequence, if SequenceClears(last, sequence) then EMPTY else st.asm)
  }

  function EndOfPacket(st: DecState, p: Progress): Decoded {
    var hs := if p.verdict == Done && p.flush then NO_HISTORY else p.asm.histories;
    Decoded(st.(asm := p.asm.(histories := hs)), p.out, p.verdict)
  }

  /** Takes a packet whose data is `s`, in a buffer that goes on with `past`. */
  function DecodeIn(cfg: DecoderConfig, st: DecState, s: Bytes, past: Bytes): Decoded {
    if |s| < HEADER_SIZE then
      // The buffer is emptied, the part number stays.
      Decoded(st.(asm := st.asm.(partial := [])), [], Dropped)
    else if HeaderRejected(s) then
      Decoded(st.(asm := EMPTY), [], Dropped)
    else
      var st' := SequenceStep(st, ReadBe32(s, 4));
      if !OptionsAccepted(s) then
        Decoded(st'.(asm := EMPTY), [], Dropped)
      else
        EndOfPacket(st', RecordLoop(cfg, st'.asm, true, s, past, HEADER_SIZE, {}))
  }

  /** The same with nothing to read but the data. */
  function Decode(cfg: DecoderConfig, st: DecState, s: Bytes): Decoded {
    DecodeIn(cfg, st, s, [])
  }

  /** A packet as it lies in its buffer. */
  datatype Arrival = Arrival(data: Bytes, past: Bytes)

  function Combine(a: Verdict, b: Verdict): Verdict {
    if b == Done then a else b
  }

  /**
    Packets one after the other. The run ends early if the record loop does not come back; it is
    Done only if every packet was decoded to its end.
   */
  function DecodeAllIn(cfg: DecoderConfig, st: DecState, packets: seq<Arrival>): Decoded
    decreases |packets|
  {
    if packets == [] then
      Decoded(st, [], Done)
    else
      var d := DecodeIn(cfg, st, packets[0].data, packets[0].past);
      if d.verdict == Stalled || d.verdict == Unframed then
        d
      else
        var rest := DecodeAllIn(cfg, d.state, packets[1..]);
        Decoded(rest.state, d.out + rest.out, Combine(d.verdict, rest.verdict))
  }

  function Bare(packets: seq<Bytes>): seq<Arrival> {
    seq(|packets|, i requires 0 <= i < |packets| => Arrival(packets[i], []))
  }

  function DecodeAll(cfg: DecoderConfig, st: DecState, packets: seq<Bytes>): Decoded {
    DecodeAllIn(cfg, st, Bare(packets))
  }
}
