/** The main result about lossy networks, for the packets of any encoder run. */
module Delivery {
  import opened Bytes
  import opened Wire
  import opened Compression
  import opened EncoderSpec
  import opened DecoderSpec
  import opened Reassembly
  import opened Packing
  import opened Layout
  import opened RoundTrip
  import opened Runs
  import opened SequenceNumbers
  import opened LossyNetwork

  /** What a run of the encoder emits is a stream in the sense of the network results. */
  lemma RunIsStream(ec: EncoderConfig, dc: DecoderConfig, sequence: u32, dec: DecState, events: seq<Event>)
    requires Matches(ec, dc) && Fresh(dec) && 1 <= sequence
    ensures Stream(dc, dec, ec.format, Slot(sequence), Run(ec, InitialState(sequence), events).packets)
  {
    hide Run, Decode, DecodeAll, PacketBytes, LaidOut, Nth, Slot, AllWritable, Ahead;
    var st := InitialState(sequence);
    InitiallyInStep(ec, dc, sequence, dec);
    RunInStep(ec, dc, st, dec, [], [], events);
    RunOrderly(ec, CLOSED, st, events);
    RunNumbered(ec, st, events);
  }

  /** The packets that complete a split frame: the first record is its last part, number n of n. */
  predicate CompletesFrame(p: Packet) {
    p.records != [] && p.records[0].kind == LAST_PART
  }

  /** Parts 1 .. n - 1 of a frame whose last part, number n, comes in packet `k` end the n - 1 packets before it. */
  lemma {:induction false} PartsLieInARow(format: byte, ps: seq<Packet>, k: nat, m: nat)
    requires LaidOut(format, CLOSED, ps) && k < |ps| && CompletesFrame(ps[k])
    requires 1 <= m < ps[k].records[0].part
    ensures m <= k && OpenAt(ps, k - m + 1).part as int == ps[k].records[0].part - m
    ensures var rs, last := ps[k - m].records, ps[k].records[0];
            && rs != [] && var r := rs[|rs| - 1];
            r.kind == PARTIAL_PACKET && r.part as int == last.part - m && r.size == last.size && r.format == last.format
    decreases m
  {
    var last := ps[k].records[0];
    if m == 1 {
      LaidOutAt(format, CLOSED, ps, k);
      FirstRecord(format, OpenAt(ps, k), ps[k].records);
      OpenComesFrom(format, ps, k);
    } else {
      PartsLieInARow(format, ps, k, m - 1);
      var j := k - m + 1;
      LaidOutAt(format, CLOSED, ps, j);
      var rs := ps[j].records;
      MiddlePart(format, OpenAt(ps, j), rs);
      OpenComesFrom(format, ps, j);
    }
  }

  /** An open frame was left open by the packet before. */
  lemma OpenComesFrom(format: byte, ps: seq<Packet>, k: nat)
    requires LaidOut(format, CLOSED, ps) && k < |ps| && OpenAt(ps, k).part > 0
    ensures k > 0 && ps[k - 1].records != []
    ensures var rs := ps[k - 1].records;
            OpenAt(ps, k) == OpenAfterRecord(rs[|rs| - 1]) && rs[|rs| - 1].kind == PARTIAL_PACKET
  {
    if k > 0 {
      LaidOutAt(format, CLOSED, ps, k - 1);
    }
  }

  /** A packet that ends with a part past the first holds nothing but that part. */
  lemma MiddlePart(format: byte, open: Open, rs: seq<Record>)
    requires Laid(format, open, true, rs) && rs != [] && OpenAfter(open, rs).part > 1
    ensures |rs| == 1 && rs[0].kind == PARTIAL_PACKET
    ensures open.part as int == rs[0].part as int - 1 && open.size == rs[0].size && open.format == rs[0].format
  {
    FirstRecord(format, open, rs);
    NothingFollows(format, OpenAfterRecord(rs[0]), rs[1..]);
  }

  /**
    The frames a lossy network lets through: with every delivery, the frame the packet completes if
    its n parts came in the last n deliveries, in order; and all its whole frames.
   */
  ghost function Through(dc: DecoderConfig, dec: DecState, ps: seq<Packet>, ds: seq<nat>): Frames
    requires forall i :: 0 <= i < |ps| ==> AllWritable(ps[i].records)
    requires forall t :: 0 <= t < |ds| ==> ds[t] < |ps|
    decreases |ds|
  {
    if ds == [] then
      []
    else
      var k := ds[|ds| - 1];
      Through(dc, dec, ps, ds[..|ds| - 1])
      + (if CompletesFrame(ps[k]) && InARow(ds, ps[k].records[0].part) then CompletedBy(dc, dec, ps, k) else [])
      + WholeOf(dc, ps, k)
  }

  lemma {:induction false} ThroughOfStream(dc: DecoderConfig, dec: DecState, format: byte, slot: nat, ps: seq<Packet>,
                                           ds: seq<nat>)
    requires Stream(dc, dec, format, slot, ps) && Deliveries(slot, ps, ds)
    ensures var d := DecodeAll(dc, dec, Arriving(ps, ds));
            d.verdict == Done && d.out == Through(dc, dec, ps, ds)
    decreases |ds|
  {
    hide Decode, DecodeAll, PacketBytes, LaidOut, Nth, AllWritable, ToldApart, InARow, Streak, CompletedBy, WholeOf,
      InOrder, Laid, BodySize, OpenAt;
    AfterDeliveries(dc, dec, format, slot, ps, ds);
    if ds == [] {
      assert Arriving(ps, ds) == [];
      NoPacket(dc, dec);
    } else {
      var last := |ds| - 1;
      var ds', k := ds[..last], ds[last];
      assert ds == ds' + [k];
      ThroughOfStream(dc, dec, format, slot, ps, ds');
      AfterDeliveries(dc, dec, format, slot, ps, ds');
      var d := DecodeAll(dc, dec, Arriving(ps, ds'));
      OneDelivery(dc, dec, format, slot, ps, ds', k, d.state);
      assert Arriving(ps, ds) == Arriving(ps, ds') + [PacketBytes(ps[k])];
      DecodeAllSnoc(dc, dec, Arriving(ps, ds'), PacketBytes(ps[k]));
      CompletedWhen(dc, dec, format, slot, ps, ds);
      ThreePieces(d.out, if Streak(ds) > OpenAt(ps, k).part then CompletedBy(dc, dec, ps, k) else [],
          WholeOf(dc, ps, k));
    }
  }

  lemma ThreePieces(a: Frames, b: Frames, c: Frames)
    ensures a + (b + c) == a + b + c
  {
  }

  /** A completed frame comes up exactly when the deliveries just before held the rest of it. */
  lemma CompletedWhen(dc: DecoderConfig, dec: DecState, format: byte, slot: nat, ps: seq<Packet>, ds: seq<nat>)
    requires Stream(dc, dec, format, slot, ps) && ds != [] && ds[|ds| - 1] < |ps|
    ensures var k := ds[|ds| - 1];
            (if Streak(ds) > OpenAt(ps, k).part then CompletedBy(dc, dec, ps, k) else []) ==
            (if CompletesFrame(ps[k]) && InARow(ds, ps[k].records[0].part) then CompletedBy(dc, dec, ps, k) else [])
  {
    hide Decode, PacketBytes, LaidOut, Laid, AllWritable, DecodeAll, Streak, InARow, Feed;
    var k := ds[|ds| - 1];
    LaidOutAt(format, CLOSED, ps, k);
    FirstRecord(format, OpenAt(ps, k), ps[k].records);
    if CompletesFrame(ps[k]) {
      StreakMeaning(ds, ps[k].records[0].part);
    }
  }

  /**
    A network that drops, repeats and reorders. For every run of an encoder, with any codec, and
    every list of deliveries of which each and the next are told apart by their numbers: the decoder
    hands up, with each delivery, the whole frames of the packet, and the split frame the packet
    completes exactly when the deliveries just before it were the packets with its other parts, in
    order. Nothing else ever comes up.
   */
  lemma LossyDelivery(ec: EncoderConfig, dc: DecoderConfig, sequence: u32, dec: DecState, events: seq<Event>,
                      ds: seq<nat>)
    requires Matches(ec, dc) && Fresh(dec) && 1 <= sequence
    requires Deliveries(Slot(sequence), Run(ec, InitialState(sequence), events).packets, ds)
    ensures var ps := Run(ec, InitialState(sequence), events).packets;
            var d := DecodeAll(dc, dec, Arriving(ps, ds));
            && d.verdict == Done
            && d.out == Through(dc, dec, ps, ds)
  {
    hide Run, DecodeAll, PacketBytes, Through, LaidOut, Nth, ToldApart;
    RunIsStream(ec, dc, sequence, dec, events);
    ThroughOfStream(dc, dec, ec.format, Slot(sequence), Run(ec, InitialState(sequence), events).packets, ds);
  }

  /** All deliveries but those of which the numbers of one and the next are half the number range apart. */
  lemma DeliveriesWithin(slot: nat, ps: seq<Packet>, ds: seq<nat>)
    requires forall t :: 0 <= t < |ds| ==> ds[t] < |ps|
    requires forall t, u :: 0 <= t < |ds| && u == t + 1 < |ds| ==>
               && -0x7fff_ffff <= ds[t] as int - ds[u] as int <= 0x7fff_ffff
               && -0x7fff_ffff <= Nth(slot, ds[t]) as int - Nth(slot, ds[u]) as int <= 0x7fff_ffff
    ensures Deliveries(slot, ps, ds)
  {
    forall t, u | 0 <= t < |ds| && u == t + 1 < |ds| ensures ToldApart(slot, ds[t], ds[u]) {
      WindowToldApart(slot, ds[t], ds[u]);
    }
  }

  /** For the first 2^31 - 1 packets of a tunnel: any deliveries at all. */
  lemma AnyDeliveries(ec: EncoderConfig, dc: DecoderConfig, dec: DecState, events: seq<Event>, ds: seq<nat>)
    requires Matches(ec, dc) && Fresh(dec)
    requires var ps := Run(ec, InitialState(1), events).packets;
             |ps| <= 0x7fff_ffff && forall t :: 0 <= t < |ds| ==> ds[t] < |ps|
    ensures var ps := Run(ec, InitialState(1), events).packets;
            var d := DecodeAll(dc, dec, Arriving(ps, ds));
            && d.verdict == Done && d.out == Through(dc, dec, ps, ds)
            && forall f :: f in d.out ==> f in Accepted(ec, events)
  {
    hide Run, DecodeAll, Arriving, Through, Accepted, Deliveries;
    var ps := Run(ec, InitialState(1), events).packets;
    assert Slot(1) == 0;
    NthOfFirst(ps, ds);
    DeliveriesWithin(0, ps, ds);
    LossyDelivery(ec, dc, 1, dec, events, ds);
    OnlyAccepted(ec, dc, 1, dec, events, ds);
  }

  lemma NthOfFirst(ps: seq<Packet>, ds: seq<nat>)
    requires |ps| <= 0x7fff_ffff && forall t :: 0 <= t < |ds| ==> ds[t] < |ps|
    ensures forall t :: 0 <= t < |ds| ==> Nth(0, ds[t]) as int == ds[t] + 1
  {
  }

  /** The frames of the first `n` packets: of each, the one it completes and its whole ones. */
  ghost function FramesOf(dc: DecoderConfig, dec: DecState, ps: seq<Packet>, n: nat): Frames
    requires n <= |ps| && forall i :: 0 <= i < |ps| ==> AllWritable(ps[i].records)
  {
    if n == 0 then []
    else FramesOf(dc, dec, ps, n - 1) + CompletedBy(dc, dec, ps, n - 1) + WholeOf(dc, ps, n - 1)
  }

  /** A packet completes a frame just when it starts with a last part, and has a whole one for each complete record. */
  ghost predicate HoldsFrames(dc: DecoderConfig, dec: DecState, ps: seq<Packet>, k: nat)
    requires k < |ps| && forall i :: 0 <= i < |ps| ==> AllWritable(ps[i].records)
  {
    && (CompletedBy(dc, dec, ps, k) != [] <==> CompletesFrame(ps[k]))
    && |WholeOf(dc, ps, k)| == Wholes(ps[k].records)
  }

  lemma InOrderFrames(dc: DecoderConfig, dec: DecState, format: byte, slot: nat, ps: seq<Packet>, k: nat)
    requires Stream(dc, dec, format, slot, ps) && k < |ps|
    ensures var d := Decode(dc, InOrder(dc, dec, ps, k), PacketBytes(ps[k]));
            d.verdict == Done && d.out == CompletedBy(dc, dec, ps, k) + WholeOf(dc, ps, k)
    ensures HoldsFrames(dc, dec, ps, k)
  {
    hide Decode, DecodeAll, PacketBytes, LaidOut, Laid, Nth, AllWritable, RecordStep, Completed, WholeFrames, Feed,
      BodySize;
    InOrderHolds(dc, dec, format, slot, ps, k);
    InOrderStep(dc, dec, format, slot, ps, k);
    LaidOutAt(format, CLOSED, ps, k);
    PacketBothWays(dc, InOrder(dc, dec, ps, k).asm, format, OpenAt(ps, k), ps[k].records);
  }

  /**
    What the packets of a run hold: each completes one frame if it starts with a last part and none
    otherwise, and has a whole frame for each complete record; and these frames, packet after packet,
    are what in-order delivery hands up - so with a flush at the end, all frames that were accepted.
   */
  lemma {:induction false} StreamFrames(dc: DecoderConfig, dec: DecState, format: byte, slot: nat, ps: seq<Packet>,
                                        n: nat)
    requires Stream(dc, dec, format, slot, ps) && n <= |ps|
    ensures DecodeAll(dc, dec, WireAll(ps[..n])).verdict == Done
    ensures DecodeAll(dc, dec, WireAll(ps[..n])).out == FramesOf(dc, dec, ps, n)
    ensures forall k :: 0 <= k < n ==> HoldsFrames(dc, dec, ps, k)
    decreases n
  {
    hide Decode, DecodeAll, PacketBytes, LaidOut, Laid, Nth, AllWritable, CompletedBy, WholeOf, BodySize, HoldsFrames;
    if n == 0 {
      assert WireAll(ps[..0]) == [];
      NoPacket(dc, dec);
    } else {
      var k := n - 1;
      StreamFrames(dc, dec, format, slot, ps, k);
      InOrderFrames(dc, dec, format, slot, ps, k);
      assert WireAll(ps[..n]) == WireAll(ps[..k]) + [PacketBytes(ps[k])];
      DecodeAllSnoc(dc, dec, WireAll(ps[..k]), PacketBytes(ps[k]));
      ThreePieces(FramesOf(dc, dec, ps, k), CompletedBy(dc, dec, ps, k), WholeOf(dc, ps, k));
    }
  }

  lemma RunFrames(ec: EncoderConfig, dc: DecoderConfig, sequence: u32, dec: DecState, events: seq<Event>)
    requires Matches(ec, dc) && Fresh(dec) && 1 <= sequence
    ensures var ps := Run(ec, InitialState(sequence), events + [Flushing]).packets;
            FramesOf(dc, dec, ps, |ps|) == Accepted(ec, events)
  {
    hide Run, DecodeAll, PacketBytes, LaidOut, Nth, AllWritable, FramesOf, Accepted;
    RunIsStream(ec, dc, sequence, dec, events + [Flushing]);
    RoundTripOfRun(ec, dc, sequence, dec, events);
    var ps := Run(ec, InitialState(sequence), events + [Flushing]).packets;
    StreamFrames(dc, dec, ec.format, Slot(sequence), ps, |ps|);
    assert ps[..|ps|] == ps;
  }

  lemma {:induction false} FramesOfHolds(dc: DecoderConfig, dec: DecState, ps: seq<Packet>, n: nat, k: nat, f: Bytes)
    requires k < n <= |ps| && forall i :: 0 <= i < |ps| ==> AllWritable(ps[i].records)
    requires f in CompletedBy(dc, dec, ps, k) || f in WholeOf(dc, ps, k)
    ensures f in FramesOf(dc, dec, ps, n)
    decreases n
  {
    hide CompletedBy, WholeOf, AllWritable;
    if k < n - 1 {
      FramesOfHolds(dc, dec, ps, n - 1, k, f);
    }
  }

  lemma {:induction false} ThroughHolds(dc: DecoderConfig, dec: DecState, ps: seq<Packet>, ds: seq<nat>, f: Bytes)
    requires forall i :: 0 <= i < |ps| ==> AllWritable(ps[i].records)
    requires forall t :: 0 <= t < |ds| ==> ds[t] < |ps|
    requires f in Through(dc, dec, ps, ds)
    ensures f in FramesOf(dc, dec, ps, |ps|)
    decreases |ds|
  {
    hide CompletedBy, WholeOf, AllWritable, InARow, FramesOf;
    var k := ds[|ds| - 1];
    if f in Through(dc, dec, ps, ds[..|ds| - 1]) {
      ThroughHolds(dc, dec, ps, ds[..|ds| - 1], f);
    } else {
      FramesOfHolds(dc, dec, ps, |ps|, k, f);
    }
  }

  /** Whatever the network drops, repeats and reorders, only frames that the encoder accepted come up. */
  lemma OnlyAccepted(ec: EncoderConfig, dc: DecoderConfig, sequence: u32, dec: DecState, events: seq<Event>,
                     ds: seq<nat>)
    requires Matches(ec, dc) && Fresh(dec) && 1 <= sequence
    requires Deliveries(Slot(sequence), Run(ec, InitialState(sequence), events).packets, ds)
    ensures var ps := Run(ec, InitialState(sequence), events).packets;
            forall f :: f in DecodeAll(dc, dec, Arriving(ps, ds)).out ==> f in Accepted(ec, events)
  {
    hide Run, DecodeAll, PacketBytes, LaidOut, Nth, AllWritable, FramesOf, Accepted, Through, ToldApart, Ahead;
    InitiallyInStep(ec, dc, sequence, dec);
    RunIsStream(ec, dc, sequence, dec, events);
    LossyDelivery(ec, dc, sequence, dec, events, ds);
    EveryPrefixRefines(ec, dc, sequence, dec, events);
    var ps := Run(ec, InitialState(sequence), events).packets;
    StreamFrames(dc, dec, ec.format, Slot(sequence), ps, |ps|);
    assert ps[..|ps|] == ps;
    forall f | f in DecodeAll(dc, dec, Arriving(ps, ds)).out ensures f in Accepted(ec, events) {
      ThroughHolds(dc, dec, ps, ds, f);
    }
  }
}
