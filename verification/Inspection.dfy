/** What the decoder checks, in octets: which packets and records it refuses, and what it does with the others. */
module Inspection {
  import opened Bytes
  import opened Wire
  import opened Compression
  import opened DecoderSpec
  import opened Reassembly
  import opened Turns

  // --- Before the records ---

  /** Less than a header: the buffer is emptied, and nothing else happens. */
  lemma ShortPacketRefused(cfg: DecoderConfig, st: DecState, s: Bytes, past: Bytes)
    requires |s| < 8
    ensures DecodeIn(cfg, st, s, past) == Decoded(st.(asm := st.asm.(partial := [])), [], Dropped)
  {
  }

  /** A version above 1, a reserved bit, a format but 1, or a channel: the state is cleared, the number ignored. */
  lemma HeaderRefused(cfg: DecoderConfig, st: DecState, s: Bytes, past: Bytes)
    requires 8 <= |s| && (s[0] % 16 > 1 || s[1] / 4 != 0 || s[2] != 1 || s[3] != 0)
    ensures DecodeIn(cfg, st, s, past) ==
            Decoded(st.(asm := Assembly(0, 0, 0, [], Histories([], []))), [], Dropped)
  {
    hide RecordLoop, SequenceStep;
  }

  /** With any other header the number of the packet becomes the last one, whatever follows. */
  lemma HeaderTaken(cfg: DecoderConfig, st: DecState, s: Bytes, past: Bytes)
    requires 8 <= |s| && s[0] % 16 <= 1 && s[1] / 4 == 0 && s[2] == 1 && s[3] == 0
    ensures var d := DecodeIn(cfg, st, s, past);
            && !d.state.first
            && d.state.lastSequence as int ==
               0x100_0000 * s[4] as int + 0x1_0000 * s[5] as int + 0x100 * s[6] as int + s[7] as int
  {
    hide RecordLoop, SequenceClears;
  }

  /** An option count other than 1, an option cut off, with its reserved octet set or of no known type. */
  lemma OptionsRefused(cfg: DecoderConfig, st: DecState, s: Bytes, past: Bytes)
    requires 8 <= |s| && s[0] % 16 <= 1 && s[1] / 4 == 0 && s[2] == 1 && s[3] == 0
    requires !(s[0] / 16 == 1 && 16 <= |s| && s[15] == 0 && s[8] < 4)
    ensures var d := DecodeIn(cfg, st, s, past);
            d.out == [] && d.verdict == Dropped && d.state.asm == Assembly(0, 0, 0, [], Histories([], []))
  {
    hide RecordLoop, SequenceClears;
  }

  /** All other packets go through the record loop, from the first octet behind the header on. */
  lemma OptionsTaken(cfg: DecoderConfig, st: DecState, s: Bytes, past: Bytes)
    requires 16 <= |s| && s[0] % 16 <= 1 && s[1] / 4 == 0 && s[2] == 1 && s[3] == 0
    requires s[0] / 16 == 1 && s[15] == 0 && s[8] < 4
    ensures var d, asm := DecodeIn(cfg, st, s, past), SequenceStep(st, ReadBe32(s, 4)).asm;
            var p := RecordLoop(cfg, asm, true, s, past, 8, {});
            && d.verdict == p.verdict && d.out == p.out
            && d.state.asm == p.asm.(histories := if p.verdict == Done && p.flush then Histories([], [])
                                     else p.asm.histories)
  {
    hide RecordLoop, SequenceClears;
  }

  // --- One record: a turn of the loop ---

  /** The rest of the packet is given up, and nothing is remembered. */
  const GIVEN_UP := Over(Progress(Assembly(0, 0, 0, [], Histories([], [])), [], true, Dropped))

  /** A frame over the layer 2 MTU, whatever else the record says. */
  lemma TooBigRefused(cfg: DecoderConfig, s: Bytes, past: Bytes, c: Point)
    requires c.at < |s| && c.at + 8 <= |s| + |past|
    requires var t := s + past; 256 * t[c.at + 1] as int + t[c.at + 2] as int > cfg.l2mtu
    ensures OneTurn(cfg, s, past, c) == GIVEN_UP
  {
    OptionLaidOut(s + past, c.at);
  }

  /** A whole frame: exactly when it is handed up, how it is read, and what the decompressors know then. */
  lemma WholeFrameTurn(cfg: DecoderConfig, s: Bytes, past: Bytes, c: Point)
    requires c.at < |s| <= 0xffff && c.at + 8 <= |s| + |past| && Consistent(cfg, c.asm)
    requires (s + past)[c.at] == 2
    requires var t := s + past; 256 * t[c.at + 1] as int + t[c.at + 2] as int <= cfg.l2mtu
    ensures var t, at := s + past, c.at;
            var size, n := 256 * t[at + 1] as int + t[at + 2] as int, 256 * t[at + 4] as int + t[at + 5] as int;
            var hs := if c.asm.lastPart != 0 then Histories([], []) else c.asm.histories;
            OneTurn(cfg, s, past, c) ==
            if t[at + 6] != 0 || at + 8 + n > |s| then
              GIVEN_UP
            else
              var data := s[at + 8..at + 8 + n];
              var frame := if t[at + 3] == 1 then cfg.lz4.decompress(hs.lz4, data)
                           else if t[at + 3] == 2 then cfg.zstd.decompress(hs.zstd, data)
                           else Some(data);
              var hs' := if frame.None? then hs
                         else if t[at + 3] == 1 then Histories(hs.lz4 + [frame.value], hs.zstd)
                         else if t[at + 3] == 2 then Histories(hs.lz4, hs.zstd + [frame.value])
                         else hs;
              if frame.None? || |frame.value| != size then GIVEN_UP
              else Going(Point(Assembly(0, 0, 0, [], hs'), true, at + 8 + n), [frame.value])
  {
    OptionLaidOut(s + past, c.at);
    hide ReadOption;
    assert c.asm.lastPart == 0 ==> c.asm.partial == [];
    var p := PayloadAt(s, past, c.at);
    assert p.Some? ==> [] + p.value == p.value;
  }

  /**
    A part out of turn: not the one after the last, or of another size or format. It is skipped,
    whatever its length says, and the frame under reassembly is forgotten.
   */
  lemma PartOutOfTurn(cfg: DecoderConfig, s: Bytes, past: Bytes, c: Point)
    requires c.at < |s| && c.at + 8 <= |s| + |past| && (s + past)[c.at] % 2 == 1
    requires var t := s + past; 256 * t[c.at + 1] as int + t[c.at + 2] as int <= cfg.l2mtu
    requires var t, at := s + past, c.at;
             || t[at + 6] as int != c.asm.lastPart as int + 1
             || (c.asm.lastPart != 0 &&
                 (256 * t[at + 1] as int + t[at + 2] as int != c.asm.lastSize as int || t[at + 3] != c.asm.lastFormat))
    ensures var t, at := s + past, c.at;
            OneTurn(cfg, s, past, c) ==
            Going(Point(Assembly(0, 0, 0, [], Histories([], [])), false,
                        (at + 8 + 256 * t[at + 4] as int + t[at + 5] as int) % 0x1_0000), [])
  {
    OptionLaidOut(s + past, c.at);
    hide ReadOption;
  }

  /** A part in turn: exactly when it is taken, and when it completes the frame. */
  lemma PartInTurn(cfg: DecoderConfig, s: Bytes, past: Bytes, c: Point)
    requires c.at < |s| <= 0xffff && c.at + 8 <= |s| + |past| && (s + past)[c.at] % 2 == 1
    requires var t := s + past; 256 * t[c.at + 1] as int + t[c.at + 2] as int <= cfg.l2mtu
    requires var t, at := s + past, c.at;
             && t[at + 6] as int == c.asm.lastPart as int + 1
             && (c.asm.lastPart != 0 ==>
                   256 * t[at + 1] as int + t[at + 2] as int == c.asm.lastSize as int && t[at + 3] == c.asm.lastFormat)
    ensures var t, at := s + past, c.at;
            var size, n := 256 * t[at + 1] as int + t[at + 2] as int, 256 * t[at + 4] as int + t[at + 5] as int;
            OneTurn(cfg, s, past, c) ==
            if at + 8 + n > |s| then
              GIVEN_UP
            else
              var data, format := c.asm.partial + s[at + 8..at + 8 + n], t[at + 3];
              if |data| > cfg.bufferSize || (format != 1 && format != 2 && |data| > size) then
                GIVEN_UP
              else if t[at] / 2 % 2 == 0 then
                Going(Point(Assembly(c.asm.lastPart + 1, format, size, data, c.asm.histories), false, at + 8 + n), [])
              else
                var frame := if format == 1 then cfg.lz4.decompress(c.asm.histories.lz4, data)
                             else if format == 2 then cfg.zstd.decompress(c.asm.histories.zstd, data)
                             else Some(data);
                if frame.None? || |frame.value| != size then GIVEN_UP
                else Going(Point(Assembly(0, 0, 0, [], Histories([], [])), false, at + 8 + n), [frame.value])
  {
    OptionLaidOut(s + past, c.at);
    hide ReadOption;
  }

  /** Any other type: the loop stays where it is. */
  lemma OtherTypeStays(cfg: DecoderConfig, s: Bytes, past: Bytes, c: Point)
    requires c.at < |s| && c.at + 8 <= |s| + |past| && (s + past)[c.at] % 2 == 0 && (s + past)[c.at] != 2
    requires var t := s + past; 256 * t[c.at + 1] as int + t[c.at + 2] as int <= cfg.l2mtu
    ensures OneTurn(cfg, s, past, c) == Going(c, [])
  {
    OptionLaidOut(s + past, c.at);
  }
}
