/** Whole runs: what an encoder sends, a decoder that receives it in order gives back. */
module RoundTrip {
  import opened Bytes
  import opened Wire
  import opened Compression
  import opened EncoderSpec
  import opened DecoderSpec
  import opened Reassembly
  import opened Packing

  /** The two ends of a tunnel agree on sizes and codec, and the codec can be undone. */
  ghost predicate Matches(ec: EncoderConfig, dc: DecoderConfig) {
    && Sized(ec)
    && ec.l2mtu <= dc.l2mtu && ec.bufferSize <= dc.bufferSize
    && (ec.format != NONE ==> Inverse(ec.codec) && CodecFor(dc, ec.format) == ec.codec)
  }

  /** The next packet number is one the decoder expects. */
  ghost predicate SequenceReady(dec: DecState, sequence: u32) {
    dec.first || sequence as int == dec.lastSequence as int + 1
  }

  /** What the decoder would be left with if the pending records were to reach it now. */
  function Ahead(dc: DecoderConfig, dec: DecState, st: EncState): Progress
    requires AllWritable(st.records)
  {
    Feed(dc, dec.asm, true, st.records)
  }

  /** The histories of a decoder that has used one format only. */
  function HistoriesUnder(format: byte, history: Frames): Histories {
    if format == COMPRESSED_LZ4 then NO_HISTORY.(lz4 := history)
    else if format == COMPRESSED_ZSTD then NO_HISTORY.(zstd := history)
    else NO_HISTORY
  }

  // The histories of the two ends agree.
  ghost predicate Lockstep(ec: EncoderConfig, hs: Histories, history: Frames) {
    hs == HistoriesUnder(ec.format, history)
  }

  // --- Emitting a packet ---

  lemma SequenceReadyKeepsFrame(dec: DecState, sequence: u32)
    requires SequenceReady(dec, sequence)
    ensures var s: u32 := if sequence == UINT32_MAX then 1 else sequence;
            && SequenceStep(dec, s) == DecState(false, s, dec.asm)
            && SequenceReady(SequenceStep(dec, s), s + 1)
  {
  }

  /** The packet a flush emits takes an in-order decoder to where the pending records would. */
  lemma FlushArrives(ec: EncoderConfig, dc: DecoderConfig, st: EncState, dec: DecState)
    requires Matches(ec, dc) && Pending(ec, st) && SequenceReady(dec, st.sequence)
    requires Ahead(dc, dec, st).verdict == Done
    ensures var e := FlushPacket(st);
            var d := DecodeAll(dc, dec, WireAll(e.packets));
            var p := Ahead(dc, dec, st);
            && d.verdict == Done && d.out == p.out
            && d.state.asm == p.asm.(histories := if st.records != [] && p.flush then NO_HISTORY else p.asm.histories)
            && SequenceReady(d.state, e.state.sequence)
            && e.state.records == [] && e.state.history == st.history
            && Ahead(dc, d.state, e.state) == Progress(d.state.asm, [], true, Done)
  {
    hide RecordStep;
    var e := FlushPacket(st);
    if st.records != [] {
      var k := e.packets[0];
      assert AllWritable(k.records);
      DecodeIsDecodeRecords(dc, dec, k, []);
      SequenceReadyKeepsFrame(dec, st.sequence);
      var s := PacketBytes(k);
      assert WireAll(e.packets) == [s];
      OnePacket(dc, dec, s);
    } else {
      NothingSent(dc, dec);
    }
  }

  // --- Splitting a frame ---

  /** The frame being split, and how the wire carries it. */
  datatype Job = Job(frame: Bytes, data: Bytes, format: byte)

  ghost predicate Carries(ec: EncoderConfig, dc: DecoderConfig, hs: Histories, job: Job) {
    && |job.frame| <= ec.l2mtu && |job.data| <= ec.bufferSize
    && (!IsCompressed(job.format) ==> |job.data| == |job.frame|)
    && Restore(dc, hs, job.format, job.data).Some?
    && Restore(dc, hs, job.format, job.data).value.0 == job.frame
  }

  /** In the middle of a split: the decoder holds, or is about to hold, the octets before `pos`. */
  ghost predicate Splitting(ec: EncoderConfig, dc: DecoderConfig, st: EncState, dec: DecState, hs: Histories, job: Job,
                            pos: nat, part: byte, done: Frames)
  {
    && Pending(ec, st) && SequenceReady(dec, st.sequence)
    && pos < |job.data| && Room(ec, st) > 0 && 1 <= part
    && var p := Ahead(dc, dec, st);
    && p.verdict == Done && p.out == done
    && p.asm.lastPart as int == part as int - 1
    && p.asm.partial == job.data[..pos]
    && p.asm.histories == hs
    && (part > 1 ==> p.asm.lastFormat == job.format && p.asm.lastSize == |job.frame|)
  }

  /** Taking one part: appended to the rest, or completing the frame. */
  lemma PartArrives(ec: EncoderConfig, dc: DecoderConfig, asm: Assembly, flush: bool, hs: Histories, job: Job,
                    pos: nat, n: nat, part: byte)
    requires Matches(ec, dc) && Carries(ec, dc, hs, job)
    requires pos + n <= |job.data| && 1 <= part
    requires asm.lastPart as int == part as int - 1 && asm.partial == job.data[..pos] && asm.histories == hs
    requires part > 1 ==> asm.lastFormat == job.format && asm.lastSize == |job.frame|
    ensures var last := pos + n == |job.data|;
            var r := Record(if last then LAST_PART else PARTIAL_PACKET, |job.frame|, job.format, part,
                job.data[pos..pos + n]);
            Step(dc, asm, flush, r) ==
            if last then Progress(EMPTY, [job.frame], false, Done)
            else Progress(Assembly(part, job.format, |job.frame|, job.data[..pos + n], hs), [], false, Done)
  {
    assert job.data[..pos] + job.data[pos..pos + n] == job.data[..pos + n];
    assert job.data[..|job.data|] == job.data;
  }

  /**
    What an iteration that sent `n` octets leads to: the frame has arrived, or the next iteration
    starts from a state that again is in the middle of the split.
   */
  ghost predicate PartArrived(ec: EncoderConfig, dc: DecoderConfig, e: Emission, dec: DecState, hs: Histories, job: Job,
                              pos: nat, n: nat, part: byte, done: Frames)
  {
    && Pending(ec, e.state) && AllSendable(ec, e.packets)
    && var d := DecodeAll(dc, dec, WireAll(e.packets));
    && d.verdict == Done && SequenceReady(d.state, e.state.sequence)
    && var p := Ahead(dc, d.state, e.state);
    && p.verdict == Done
    && if pos + n == |job.data| then
         d.out + p.out == done + [job.frame] && p.asm == EMPTY
       else
         && 0 < n && pos + n < |job.data|
         && d.out == done && part < UINT8_MAX
         && Splitting(ec, dc, e.state, d.state, hs, job, pos + n, part + 1, [])
         && Enough(ec, e.state, |job.data| - pos - n, 0x100 - (part + 1))
  }

  /** One iteration of the split loop, in step. */
  lemma SplitStepArrives(ec: EncoderConfig, dc: DecoderConfig, st: EncState, dec: DecState, hs: Histories, job: Job,
                         pos: nat, part: byte, done: Frames)
    requires Matches(ec, dc) && Carries(ec, dc, hs, job)
    requires Splitting(ec, dc, st, dec, hs, job, pos, part, done)
    requires Enough(ec, st, |job.data| - pos, 0x100 - part)
    ensures PartArrived(ec, dc, SplitStep(ec, st, job.data, |job.frame|, job.format, pos, part), dec, hs, job,
                        pos, PartSize(ec, st, |job.data| - pos), part, done)
  {
    hide RecordStep, Decode, DecodeAll, Restore, PacketBytes, Sendable, Enough, Carries, Pending, Feed, BodySize,
      Matches, Room, PartRecord, PartSize, SequenceReady, AllWritable, PartArrived, Splitting, Sized, WellMade,
      SplitStep;
    StepFacts(ec, dc, st, dec, hs, job, pos, part, done);
    PartAhead(ec, dc, st, dec, hs, job, pos, part, done);
    var n, r := PartSize(ec, st, |job.data| - pos), PartRecord(ec, st, job.data, |job.frame|, job.format, pos, part);
    var st' := AddRecord(st, r);
    if DataSize(st') == ec.l4mtu {
      FlushArrives(ec, dc, st', dec);
    } else {
      NothingSent(dc, dec);
    }
    PartLands(ec, dc, SplitStep(ec, st, job.data, |job.frame|, job.format, pos, part), dec, hs, job, pos, n, part,
        done);
  }

  /** What an iteration does to the encoder. */
  lemma StepFacts(ec: EncoderConfig, dc: DecoderConfig, st: EncState, dec: DecState, hs: Histories, job: Job,
                  pos: nat, part: byte, done: Frames)
    requires Matches(ec, dc) && Carries(ec, dc, hs, job)
    requires Splitting(ec, dc, st, dec, hs, job, pos, part, done)
    requires Enough(ec, st, |job.data| - pos, 0x100 - part)
    ensures pos < |job.data| && |job.frame| <= UINT16_MAX && 1 <= part && Sized(ec)
    ensures var n, r := PartSize(ec, st, |job.data| - pos),
        PartRecord(ec, st, job.data, |job.frame|, job.format, pos, part);
            var e, st' := SplitStep(ec, st, job.data, |job.frame|, job.format, pos, part), AddRecord(st, r);
            && e == (if DataSize(st') == ec.l4mtu then FlushPacket(st') else Emission(st', []))
            && Pending(ec, e.state) && AllSendable(ec, e.packets) && SequenceReady(dec, st'.sequence)
            && 0 < n && pos + n <= |job.data|
            && (pos + n < |job.data| ==>
                  && DataSize(st') == ec.l4mtu && part < UINT8_MAX && Room(ec, e.state) > 0
                  && Enough(ec, e.state, |job.data| - pos - n, 0x100 - (part + 1)))
  {
    hide Enough, Ahead, Restore, Inverse, Bounded;
    var data := job.data;
    SplitStepRoom(ec, st, data, |job.frame|, job.format, pos, part);
    SplitStepPacks(ec, st, data, |job.frame|, job.format, pos, part);
    if pos + PartSize(ec, st, |data| - pos) < |data| {
      var e := SplitStep(ec, st, data, |job.frame|, job.format, pos, part);
      EnoughStep(ec, st, e.state, |data| - pos, 0x100 - part);
    }
  }

  lemma PartLands(ec: EncoderConfig, dc: DecoderConfig, e: Emission, dec: DecState, hs: Histories, job: Job,
                  pos: nat, n: nat, part: byte, done: Frames)
    requires Pending(ec, e.state) && AllSendable(ec, e.packets) && pos + n <= |job.data| && |job.frame| <= UINT16_MAX
    requires var d := DecodeAll(dc, dec, WireAll(e.packets));
             && d.verdict == Done && SequenceReady(d.state, e.state.sequence)
             && var p := Ahead(dc, d.state, e.state);
             && p.verdict == Done
             && if pos + n == |job.data| then
                  d.out + p.out == done + [job.frame] && p.asm == EMPTY
                else
                  && d.out == done && p.out == []
                  && p.asm == Assembly(part, job.format, |job.frame|, job.data[..pos + n], hs)
    requires pos + n < |job.data| ==>
               && 0 < n && part < UINT8_MAX && Room(ec, e.state) > 0
               && Enough(ec, e.state, |job.data| - pos - n, 0x100 - (part + 1))
    ensures PartArrived(ec, dc, e, dec, hs, job, pos, n, part, done)
  {
    hide Pending, Sendable, DecodeAll, Feed, Room, Enough, SequenceReady, AllWritable;
  }

  /** The part just added, seen by a decoder that meets it behind what is pending. */
  lemma PartAhead(ec: EncoderConfig, dc: DecoderConfig, st: EncState, dec: DecState, hs: Histories, job: Job,
                  pos: nat, part: byte, done: Frames)
    requires Matches(ec, dc) && Carries(ec, dc, hs, job)
    requires Splitting(ec, dc, st, dec, hs, job, pos, part, done)
    ensures var r := PartRecord(ec, st, job.data, |job.frame|, job.format, pos, part);
            var n, st' := PartSize(ec, st, |job.data| - pos), AddRecord(st, r);
            && Pending(ec, st')
            && Ahead(dc, dec, st') ==
               if pos + n == |job.data| then Progress(EMPTY, done + [job.frame], false, Done)
               else Progress(Assembly(part, job.format, |job.frame|, job.data[..pos + n], hs), done, false, Done)
  {
    hide RecordStep, Restore, Inverse, Bounded;
    SplitStepRoom(ec, st, job.data, |job.frame|, job.format, pos, part);
    var n, r := PartSize(ec, st, |job.data| - pos), PartRecord(ec, st, job.data, |job.frame|, job.format, pos, part);
    BodySizeSnoc(st.records, r);
    var p := Ahead(dc, dec, st);
    PartArrives(ec, dc, p.asm, p.flush, hs, job, pos, n, part);
    FeedSnoc(dc, dec.asm, true, st.records, r);
    assert done + [] == done;
  }

  /** Decoding a run of packets after another. */
  lemma DecodeChain(dc: DecoderConfig, dec: DecState, a: seq<Packet>, b: seq<Packet>)
    requires forall i :: 0 <= i < |a| ==> AllWritable(a[i].records)
    requires forall i :: 0 <= i < |b| ==> AllWritable(b[i].records)
    requires DecodeAll(dc, dec, WireAll(a)).verdict == Done
    ensures forall i :: 0 <= i < |a + b| ==> AllWritable((a + b)[i].records)
    ensures var d := DecodeAll(dc, dec, WireAll(a));
            var e := DecodeAll(dc, d.state, WireAll(b));
            DecodeAll(dc, dec, WireAll(a + b)) == e.(out := d.out + e.out)
  {
    hide DecodeAll, AllWritable, PacketBytes;
    WireAllAppend(a, b);
    DecodeAllAppend(dc, dec, WireAll(a), WireAll(b));
  }

  /** The whole split loop, in step: the frame arrives, and nothing of it is left behind. */
  lemma {:induction false} SplitArrives(ec: EncoderConfig, dc: DecoderConfig, st: EncState, dec: DecState,
                                        hs: Histories, job: Job, pos: nat, part: byte, done: Frames)
    requires Matches(ec, dc) && Carries(ec, dc, hs, job)
    requires Splitting(ec, dc, st, dec, hs, job, pos, part, done)
    requires Enough(ec, st, |job.data| - pos, 0x100 - part)
    ensures var e := Split(ec, st, job.data, |job.frame|, job.format, pos, part);
            && Pending(ec, e.state) && AllSendable(ec, e.packets)
            && var d := DecodeAll(dc, dec, WireAll(e.packets));
            && d.verdict == Done && SequenceReady(d.state, e.state.sequence)
            && var p := Ahead(dc, d.state, e.state);
            && p.verdict == Done && p.asm == EMPTY
            && d.out + p.out == done + [job.frame]
    decreases |job.data| - pos
  {
    hide RecordStep, Decode, DecodeAll, Restore, PacketBytes, Feed, SplitStep, PartSize, Room, BodySize, AllWritable,
      Enough;
    SplitPacks(ec, st, job.data, |job.frame|, job.format, pos, part);
    SplitStepArrives(ec, dc, st, dec, hs, job, pos, part, done);
    var e := SplitStep(ec, st, job.data, |job.frame|, job.format, pos, part);
    var n := PartSize(ec, st, |job.data| - pos);
    var d := DecodeAll(dc, dec, WireAll(e.packets));
    if pos + n < |job.data| {
      var rest := Split(ec, e.state, job.data, |job.frame|, job.format, pos + n, part + 1);
      SplitArrives(ec, dc, e.state, d.state, hs, job, pos + n, part + 1, []);
      DecodeChain(dc, dec, e.packets, rest.packets);
      var f := DecodeAll(dc, d.state, WireAll(rest.packets));
      assert (done + f.out) + Ahead(dc, f.state, rest.state).out == done + (f.out + Ahead(dc, f.state, rest.state).out);
    } else {
      assert e.packets + [] == e.packets;
    }
  }

  // --- Between calls ---

  /**
    The encoder and an in-order decoder in step between calls: the frames handed up so far and
    those the pending packet holds are the frames accepted so far; nothing is half sent; and the
    decompressor that will meet the next frame has the history the compressor will use for it.
   */
  ghost predicate InStep(ec: EncoderConfig, dc: DecoderConfig, st: EncState, dec: DecState, up: Frames,
                         accepted: Frames) {
    Settled(ec, st) && Aligned(ec, dc, st, dec, up, accepted)
  }

  ghost predicate Aligned(ec: EncoderConfig, dc: DecoderConfig, st: EncState, dec: DecState, up: Frames,
                          accepted: Frames) {
    && Pending(ec, st) && SequenceReady(dec, st.sequence)
    && var p := Ahead(dc, dec, st);
    && p.verdict == Done
    && up + p.out == accepted
    && p.asm.lastPart == 0 && p.asm.partial == []
    && Lockstep(ec, p.asm.histories, st.history)
    && (st.history == [] || (p.flush && st.records != []))
  }

  lemma InitiallyInStep(ec: EncoderConfig, dc: DecoderConfig, sequence: u32, dec: DecState)
    requires Matches(ec, dc) && Fresh(dec)
    ensures InStep(ec, dc, InitialState(sequence), dec, [], [])
  {
  }

  /**
    A change of format at a time when nothing is in flight leaves the two ends in step, whatever is
    pending; so the results on runs hold from there on, under the new format.
   */
  lemma FormatChangeInStep(ec: EncoderConfig, ec': EncoderConfig, dc: DecoderConfig, st: EncState, dec: DecState,
                           up: Frames, accepted: Frames)
    requires InStep(ec, dc, st, dec, up, accepted) && st.history == []
    requires ec' == ec.(format := ec'.format, codec := ec'.codec)
    ensures InStep(ec', dc, st, dec, up, accepted)
  {
    hide Feed, AllWritable;
  }

  lemma FlushInStep(ec: EncoderConfig, dc: DecoderConfig, st: EncState, dec: DecState, up: Frames, accepted: Frames)
    requires Matches(ec, dc) && Aligned(ec, dc, st, dec, up, accepted)
    ensures var e := Flush(st);
            && AllSendable(ec, e.packets)
            && var d := DecodeAll(dc, dec, WireAll(e.packets));
            && d.verdict == Done
            && InStep(ec, dc, e.state, d.state, up + d.out, accepted)
            && up + d.out == accepted
            && e.state.records == [] && d.state.asm.lastPart == 0 && d.state.asm.partial == []
  {
    hide RecordStep, Decode, PacketBytes;
    FlushPacks(ec, st);
    FlushArrives(ec, dc, st, dec);
    var d := DecodeAll(dc, dec, WireAll(Flush(st).packets));
    assert Ahead(dc, d.state, Flush(st).state) == Progress(d.state.asm, [], true, Done);
    assert up + d.out + [] == up + d.out;
  }

  /** How the wire carries a frame is undone under the histories of a decoder in step. */
  lemma CompressedCarries(ec: EncoderConfig, dc: DecoderConfig, hs: Histories, history: Frames, frame: Bytes)
    requires Matches(ec, dc) && |frame| <= ec.l2mtu && Lockstep(ec, hs, history)
    ensures var input := Compressed(ec, history, frame);
            && Carries(ec, dc, hs, Job(frame, input.data, input.format))
            && var hs' := Restore(dc, hs, input.format, input.data).value.1;
               Lockstep(ec, hs', input.history)
  {
  }

  lemma PlaceInStep(ec: EncoderConfig, dc: DecoderConfig, st: EncState, dec: DecState, up: Frames, accepted: Frames,
                    frame: Bytes)
    requires Matches(ec, dc) && InStep(ec, dc, st, dec, up, accepted) && |frame| <= ec.l2mtu
    ensures var e := Place(ec, st, |frame|, Compressed(ec, st.history, frame));
            && AllSendable(ec, e.packets)
            && var d := DecodeAll(dc, dec, WireAll(e.packets));
            && d.verdict == Done
            && Aligned(ec, dc, e.state, d.state, up + d.out, accepted + [frame])
  {
    hide Decode, PacketBytes, Split, RecordStep, Restore, Compressed;
    var input := Compressed(ec, st.history, frame);
    var p := Ahead(dc, dec, st);
    CompressedFits(ec, st.history, frame);
    CompressedCarries(ec, dc, p.asm.histories, st.history, frame);
    PlacePacks(ec, st, |frame|, input);
    var job := Job(frame, input.data, input.format);
    var st' := st.(history := input.history);
    if |input.data| > Room(ec, st) {
      assert input.data[..0] == [];
      assert Splitting(ec, dc, st', dec, p.asm.histories, job, 0, 1, p.out);
      SplitArrives(ec, dc, st', dec, p.asm.histories, job, 0, 1, p.out);
      var e := Split(ec, st', input.data, |frame|, input.format, 0, 1);
      var d := DecodeAll(dc, dec, WireAll(e.packets));
      calc {
        up + d.out + Ahead(dc, d.state, e.state).out;
        up + (d.out + Ahead(dc, d.state, e.state).out);
        up + (p.out + [frame]);
        accepted + [frame];
      }
    } else {
      var r := Record(COMPLETE_PACKET, |frame|, input.format, 0, input.data);
      CompleteArrives(dc, ec, p.asm, p.flush, job);
      FeedSnoc(dc, dec.asm, true, st.records, r);
      assert WireAll([]) == [];
      calc {
        up + [] + (p.out + [frame]);
        up + p.out + [frame];
      }
    }
  }

  lemma CompleteArrives(dc: DecoderConfig, ec: EncoderConfig, asm: Assembly, flush: bool, job: Job)
    requires Matches(ec, dc) && Carries(ec, dc, asm.histories, job)
    requires asm.lastPart == 0 && asm.partial == []
    ensures var r := Record(COMPLETE_PACKET, |job.frame|, job.format, 0, job.data);
            Step(dc, asm, flush, r) ==
            Progress(EMPTY.(histories := Restore(dc, asm.histories, job.format, job.data).value.1), [job.frame], true,
                Done)
  {
    assert [] + job.data == job.data;
  }

  /** One encode call keeps the two ends in step, and adds the frame unless it is over the MTU. */
  lemma EncodeInStep(ec: EncoderConfig, dc: DecoderConfig, st: EncState, dec: DecState, up: Frames, accepted: Frames,
                     frame: Bytes)
    requires Matches(ec, dc) && InStep(ec, dc, st, dec, up, accepted)
    ensures var e := Encode(ec, st, frame);
            && AllSendable(ec, e.packets)
            && var d := DecodeAll(dc, dec, WireAll(e.packets));
            && d.verdict == Done
            && InStep(ec, dc, e.state, d.state, up + d.out, accepted + if |frame| <= ec.l2mtu then [frame] else [])
  {
    hide Decode, DecodeAll, PacketBytes, Place, Feed, Compressed, BodySize, AllWritable, Aligned;
    EncodePacks(ec, st, frame);
    if |frame| <= ec.l2mtu {
      PlaceInStep(ec, dc, st, dec, up, accepted, frame);
      var e := Place(ec, st, |frame|, Compressed(ec, st.history, frame));
      var d := DecodeAll(dc, dec, WireAll(e.packets));
      if Room(ec, e.state) < MIN_ROOM {
        FlushInStep(ec, dc, e.state, d.state, up + d.out, accepted + [frame]);
        var f := Flush(e.state);
        DecodeChain(dc, dec, e.packets, f.packets);
        var g := DecodeAll(dc, d.state, WireAll(f.packets));
        assert up + (d.out + g.out) == up + d.out + g.out;
      }
    } else {
      NothingSent(dc, dec);
      assert up + [] == up && accepted + [] == accepted;
    }
  }

  lemma NothingSent(dc: DecoderConfig, dec: DecState)
    ensures DecodeAll(dc, dec, WireAll([])) == Decoded(dec, [], Done)
  {
    assert WireAll([]) == [];
    NoPacket(dc, dec);
  }
}
