/** The main results about whole runs: in-order delivery gives the frames back, packet by packet. */
module Runs {
  import opened Bytes
  import opened Wire
  import opened Compression
  import opened EncoderSpec
  import opened DecoderSpec
  import opened Reassembly
  import opened Packing
  import opened RoundTrip
  import Configuration
  import Turns

  /** Any run keeps the two ends in step, from any state in which they are. */
  lemma {:induction false} RunInStep(ec: EncoderConfig, dc: DecoderConfig, st: EncState, dec: DecState, up: Frames,
                                     accepted: Frames, events: seq<Event>)
    requires Matches(ec, dc) && InStep(ec, dc, st, dec, up, accepted)
    ensures var e := Run(ec, st, events);
            var d := DecodeAll(dc, dec, WireAll(e.packets));
            && d.verdict == Done
            && InStep(ec, dc, e.state, d.state, up + d.out, accepted + Accepted(ec, events))
    decreases |events|
  {
    hide DecodeAll, Decode, PacketBytes, Encode, Aligned, Flush, Room;
    if events == [] {
      NothingSent(dc, dec);
      assert up + [] == up && accepted + [] == accepted;
    } else {
      var first, taken: Frames;
      match events[0] {
        case Frame(data) =>
          EncodeInStep(ec, dc, st, dec, up, accepted, data);
          first, taken := Encode(ec, st, data), if |data| <= ec.l2mtu then [data] else [];
        case Flushing =>
          FlushInStep(ec, dc, st, dec, up, accepted);
          first, taken := Flush(st), [];
          assert accepted + [] == accepted;
      }
      var rest := Run(ec, first.state, events[1..]);
      var d := DecodeAll(dc, dec, WireAll(first.packets));
      RunInStep(ec, dc, first.state, d.state, up + d.out, accepted + taken, events[1..]);
      DecodeChain(dc, dec, first.packets, rest.packets);
      var f := DecodeAll(dc, d.state, WireAll(rest.packets));
      assert up + (d.out + f.out) == up + d.out + f.out;
      assert accepted + (taken + Accepted(ec, events[1..])) == accepted + taken + Accepted(ec, events[1..]);
    }
  }

  /**
    Refinement at every point of a run: decoding what was emitted, then what is pending, gives the
    frames accepted so far, and the two ends have the same compression history.
   */
  lemma EveryPrefixRefines(ec: EncoderConfig, dc: DecoderConfig, sequence: u32, dec: DecState, events: seq<Event>)
    requires Matches(ec, dc) && Fresh(dec)
    ensures var e := Run(ec, InitialState(sequence), events);
            var d := DecodeAll(dc, dec, WireAll(e.packets));
            && d.verdict == Done
            && var p := Ahead(dc, d.state, e.state);
            && d.out + p.out == Accepted(ec, events)
            && Lockstep(ec, p.asm.histories, e.state.history)
  {
    hide DecodeAll, PacketBytes, Run, Accepted, Feed, Settled, AllWritable;
    InitiallyInStep(ec, dc, sequence, dec);
    RunInStep(ec, dc, InitialState(sequence), dec, [], [], events);
    var d := DecodeAll(dc, dec, WireAll(Run(ec, InitialState(sequence), events).packets));
    assert [] + d.out == d.out && [] + Accepted(ec, events) == Accepted(ec, events);
  }

  /** A run can be cut anywhere. */
  lemma {:induction false} RunAppend(ec: EncoderConfig, st: EncState, a: seq<Event>, b: seq<Event>)
    requires Sized(ec) && Settled(ec, st)
    ensures var e := Run(ec, st, a);
            Run(ec, st, a + b) == Then(Run(ec, e.state, b), e.packets)
    decreases |a|
  {
    hide Encode, WellMade, Flush;
    if a == [] {
      assert [] + b == b;
      var f := Run(ec, st, b);
      assert [] + f.packets == f.packets;
    } else {
      assert (a + b)[0] == a[0] && (a + b)[1..] == a[1..] + b;
      var e := match a[0] {
        case Frame(data) => EncodePacks(ec, st, data); Encode(ec, st, data)
        case Flushing => FlushPacks(ec, st); Flush(st)
      };
      RunAppend(ec, e.state, a[1..], b);
      var r := Run(ec, e.state, a[1..]);
      assert e.packets + (r.packets + Run(ec, r.state, b).packets) == e.packets + r.packets
          + Run(ec, r.state, b).packets;
    }
  }

  lemma RunFlush(ec: EncoderConfig, st: EncState)
    requires Sized(ec) && Settled(ec, st)
    ensures Run(ec, st, [Flushing]) == Flush(st)
  {
    hide Encode, WellMade;
    FlushPacks(ec, st);
    var f := Flush(st);
    assert Run(ec, f.state, [Flushing][1..]) == Emission(f.state, []);
    assert f.packets + [] == f.packets;
  }

  lemma RunFrame(ec: EncoderConfig, st: EncState, frame: Bytes)
    requires Sized(ec) && Settled(ec, st)
    ensures Run(ec, st, [Frame(frame)]) == Encode(ec, st, frame)
  {
    hide Encode, WellMade;
    EncodePacks(ec, st, frame);
    var f := Encode(ec, st, frame);
    assert Run(ec, f.state, [Frame(frame)][1..]) == Emission(f.state, []);
    assert f.packets + [] == f.packets;
  }

  /** A flush at the end of what was emitted so far brings everything accepted across. */
  lemma FlushAtEnd(ec: EncoderConfig, dc: DecoderConfig, dec: DecState, e: Emission, accepted: Frames)
    requires Matches(ec, dc) && AllSendable(ec, e.packets)
    requires var d := DecodeAll(dc, dec, WireAll(e.packets));
             d.verdict == Done && InStep(ec, dc, e.state, d.state, d.out, accepted)
    ensures var g := Then(Flush(e.state), e.packets);
            && AllSendable(ec, g.packets)
            && var d := DecodeAll(dc, dec, WireAll(g.packets));
            && d.verdict == Done && d.out == accepted
            && g.state.records == [] && d.state.asm.lastPart == 0 && d.state.asm.partial == []
  {
    hide DecodeAll, PacketBytes, Flush, Aligned, AllWritable, Settled;
    var d := DecodeAll(dc, dec, WireAll(e.packets));
    FlushInStep(ec, dc, e.state, d.state, d.out, accepted);
    DecodeChain(dc, dec, e.packets, Flush(e.state).packets);
  }

  /** Every packet of a run, in octets: within the MTU, one option, and records of types 1 to 3 that tile it. */
  lemma PacketsOfRun(ec: EncoderConfig, st: EncState, events: seq<Event>, k: nat)
    requires Sized(ec) && Settled(ec, st) && k < |Run(ec, st, events).packets|
    ensures var p := Run(ec, st, events).packets[k];
            && AllWritable(p.records)
            && var s := PacketBytes(p);
            && 16 <= |s| <= ec.l4mtu && s[0] == 0x11 && 1 <= s[8] <= 3 && s[15] == 0
            && Turns.Tiled(s, 8)
  {
    hide Run, BodyBytes, Turns.Tiled, RecordBytes, BodySize, PacketBytes;
    var p := Run(ec, st, events).packets[k];
    var s, r := PacketBytes(p), p.records[0];
    PacketLaidOut(p);
    HeaderInverts(p);
    Turns.WrittenIsTiled(s, 8, p.records);
    RecordLiesAt(p, 0);
    assert p.records[..0] == [];
    EmptyBody([]);
    RecordLaidOut(r);
    assert s[8] == s[8..16 + |r.payload|][0] && s[15] == s[8..16 + |r.payload|][7];
  }

  /**
    Round trip: for every list of frames, with flushes at any points and one at the end, and from
    any packet number, a fresh decoder that gets the packets in order hands up exactly the frames
    that are within the layer 2 MTU, in order and octet for octet, and holds nothing back.
   */
  lemma RoundTripOfRun(ec: EncoderConfig, dc: DecoderConfig, sequence: u32, dec: DecState, events: seq<Event>)
    requires Matches(ec, dc) && Fresh(dec)
    ensures var e := Run(ec, InitialState(sequence), events + [Flushing]);
            var d := DecodeAll(dc, dec, WireAll(e.packets));
            && d.verdict == Done
            && d.out == Accepted(ec, events)
            && e.state.records == [] && d.state.asm.lastPart == 0 && d.state.asm.partial == []
  {
    hide DecodeAll, PacketBytes, Run, Flush, Aligned, Accepted, AllWritable, Settled;
    var st := InitialState(sequence);
    InitiallyInStep(ec, dc, sequence, dec);
    RunInStep(ec, dc, st, dec, [], [], events);
    RunAppend(ec, st, events, [Flushing]);
    RunFlush(ec, Run(ec, st, events).state);
    var e := Run(ec, st, events);
    var d := DecodeAll(dc, dec, WireAll(e.packets));
    assert [] + d.out == d.out && [] + Accepted(ec, events) == Accepted(ec, events);
    FlushAtEnd(ec, dc, dec, e, Accepted(ec, events));
  }

  /**
    The same in plain numbers: with any MTU and TX sizes that are let through, any of the three formats
    and any codecs that can be undone, from the states in which the two ends begin.
   */
  lemma TunnelGivesBack(mtu: int, txSize: int, otherTxSize: int, ipv4: bool, format: byte, lz4: Codec, zstd: Codec,
                        last: u32, events: seq<Event>)
    requires 1200 <= txSize <= mtu <= 9218 && 1200 <= otherTxSize <= mtu && format <= 2
    requires var size := (mtu + 22) + (mtu + 22) / 10; Bounded(lz4, size) && Bounded(zstd, size)
    requires Inverse(lz4) && Inverse(zstd)
    ensures var size := (mtu + 22) + (mtu + 22) / 10;
            var ec := EncoderConfig(mtu + 22, txSize - if ipv4 then 28 else 48, size, format,
                                    if format == 1 then lz4 else zstd);
            && Sized(ec)
            && var e := Run(ec, EncState(1, [], []), events + [Flushing]);
            && var dec := DecState(true, last, Assembly(0, 0, 0, [], Histories([], [])));
            && var d := DecodeAll(DecoderConfig(mtu + 22, size, lz4, zstd), dec, WireAll(e.packets));
            && d.verdict == Done && d.out == Accepted(ec, events)
  {
    hide Run, DecodeAll, Accepted, WireAll, Bounded, Inverse, AllWritable;
    Configuration.ConfiguredExactlyWhen(mtu, txSize);
    Configuration.ConfiguredExactlyWhen(mtu, otherTxSize);
    Configuration.ConfiguredMatches(mtu, txSize, otherTxSize, ipv4, format, lz4, zstd);
    var size := (mtu + 22) + (mtu + 22) / 10;
    var ec := EncoderConfig(mtu + 22, txSize - if ipv4 then 28 else 48, size, format,
                            if format == 1 then lz4 else zstd);
    var dec := DecState(true, last, Assembly(0, 0, 0, [], Histories([], [])));
    RoundTripOfRun(ec, DecoderConfig(mtu + 22, size, lz4, zstd), 1, dec, events);
  }
}
