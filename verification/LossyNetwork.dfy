/** Delivery over a network that drops, repeats and reorders packets, with any codec. */
module LossyNetwork {
  import opened Bytes
  import opened Wire
  import opened Compression
  import opened EncoderSpec
  import opened DecoderSpec
  import opened Reassembly
  import opened Layout
  import opened SequenceNumbers

  // --- One packet, from the state in-order delivery gives and from a cleared one ---

  /** The frames that lie whole in one record each, read one after the other. */
  function WholeFrames(dc: DecoderConfig, hs: Histories, rs: seq<Record>): Frames
    decreases |rs|
  {
    if rs == [] then
      []
    else if rs[0].kind != COMPLETE_PACKET then
      WholeFrames(dc, if rs[0].kind == LAST_PART then NO_HISTORY else hs, rs[1..])
    else
      match Restore(dc, hs, rs[0].format, rs[0].payload)
      case Some((frame, hs')) => [frame] + WholeFrames(dc, hs', rs[1..])
      case None => []
  }

  /** How many records hold a whole frame. */
  function Wholes(rs: seq<Record>): nat {
    if rs == [] then 0 else (if rs[0].kind == COMPLETE_PACKET then 1 else 0) + Wholes(rs[1..])
  }

  /** In a packet, `open` is the frame under reassembly. */
  ghost predicate Opened(asm: Assembly, open: Open) {
    && asm.lastPart == open.part
    && if open.part == 0 then asm == Cleared(asm) else asm.lastSize == open.size && asm.lastFormat == open.format
  }

  /** Between packets no history is left, either, where no frame is open. */
  ghost predicate AtBoundary(asm: Assembly, open: Open) {
    Opened(asm, open) && (open.part == 0 ==> asm == EMPTY)
  }

  /** The state after the last record of a packet. */
  function Ended(p: Progress): Assembly {
    if p.verdict == Done && p.flush then p.asm.(histories := NO_HISTORY) else p.asm
  }

  lemma StepOpened(dc: DecoderConfig, asm: Assembly, flush: bool, format: byte, open: Open, atStart: bool, r: Record)
    requires Follows(format, open, atStart, r) && Opened(asm, open)
    requires Step(dc, asm, flush, r).verdict == Done
    ensures var p := Step(dc, asm, flush, r);
            && Opened(p.asm, OpenAfterRecord(r))
            && (r.kind == PARTIAL_PACKET ==> p.out == [] && p.asm.histories == asm.histories)
            && (r.kind == COMPLETE_PACKET ==>
                  && p.flush
                  && Restore(dc, asm.histories, r.format, r.payload) == Some((p.out[0], p.asm.histories))
                  && |p.out| == 1)
            && (r.kind == LAST_PART ==> |p.out| == 1)
  {
    hide Restore;
    assert [] + r.payload == r.payload;
  }

  /** With no frame open, a packet gives its whole frames and nothing else. */
  lemma {:induction false} FeedWhole(dc: DecoderConfig, asm: Assembly, flush: bool, format: byte, open: Open,
                                     atStart: bool,
                                     rs: seq<Record>)
    requires Laid(format, open, atStart, rs) && (open.part == 0 || !atStart)
    requires AllWritable(rs) && Opened(asm, open)
    requires Feed(dc, asm, flush, rs).verdict == Done
    ensures var p := Feed(dc, asm, flush, rs);
            && p.out == WholeFrames(dc, asm.histories, rs) && |p.out| == Wholes(rs)
            && Opened(p.asm, OpenAfter(open, rs))
            && (rs != [] && OpenAfter(open, rs).part == 0 ==> p.flush)
    decreases |rs|
  {
    hide RecordStep, Restore;
    if rs != [] {
      StepOpened(dc, asm, flush, format, open, atStart, rs[0]);
      hide Step;
      var p := Step(dc, asm, flush, rs[0]);
      FeedWhole(dc, p.asm, p.flush, format, OpenAfterRecord(rs[0]), false, rs[1..]);
    }
  }

  /** The frame, if any, that the first record of a packet completes. */
  function Completed(dc: DecoderConfig, asm: Assembly, rs: seq<Record>): Frames
    requires AllWritable(rs)
  {
    if rs != [] && rs[0].kind == LAST_PART then Step(dc, asm, true, rs[0]).out else []
  }

  /** A part that continues a frame is of no use to a decoder that does not hold the parts before. */
  lemma StepSkips(dc: DecoderConfig, asm: Assembly, format: byte, open: Open, r: Record)
    requires 0 < open.part && Follows(format, open, true, r) && Opened(asm, open)
    requires Step(dc, asm, true, r).verdict == Done
    ensures Step(dc, EMPTY, true, r) == Progress(EMPTY, [], false, Done)
    ensures r.kind == LAST_PART ==> Step(dc, asm, true, r).asm == EMPTY
    ensures !Step(dc, asm, true, r).flush
  {
  }

  /**
    A packet that in-order delivery takes to its end, met in the in-order state and in a cleared
    one: the frame it completes, if any, comes up only in the first; its whole frames in both. The
    states after are the same, histories included, unless the packet holds a middle part.
   */
  lemma PacketBothWays(dc: DecoderConfig, asm: Assembly, format: byte, open: Open, rs: seq<Record>)
    requires Laid(format, open, true, rs) && rs != [] && AllWritable(rs)
    requires AtBoundary(asm, open) && Feed(dc, asm, true, rs).verdict == Done
    ensures var p, q := Feed(dc, asm, true, rs), Feed(dc, EMPTY, true, rs);
            && p.out == Completed(dc, asm, rs) + WholeFrames(dc, NO_HISTORY, rs)
            && AtBoundary(Ended(p), OpenAfter(open, rs))
            && q.verdict == Done
            && q.out == WholeFrames(dc, NO_HISTORY, rs)
            && Ended(q) == (if open.part > 0 && rs[0].kind == PARTIAL_PACKET then EMPTY else Ended(p))
            && (Completed(dc, asm, rs) != [] <==> rs[0].kind == LAST_PART)
            && |WholeFrames(dc, NO_HISTORY, rs)| == Wholes(rs)
  {
    hide RecordStep, Restore, Follows;
    FirstKind(format, open, rs[0]);
    if open.part == 0 {
      FeedWhole(dc, asm, true, format, open, true, rs);
      assert [] + WholeFrames(dc, NO_HISTORY, rs) == WholeFrames(dc, NO_HISTORY, rs);
    } else {
      StepSkips(dc, asm, format, open, rs[0]);
      StepOpened(dc, asm, true, format, open, true, rs[0]);
      hide Step;
      var p := Step(dc, asm, true, rs[0]);
      if rs[0].kind == PARTIAL_PACKET {
        NothingFollows(format, OpenAfterRecord(rs[0]), rs[1..]);
        assert rs[1..] == [];
      } else {
        FeedWhole(dc, EMPTY, false, format, CLOSED, false, rs[1..]);
        assert rs[1..] != [] ==> rs[1..][|rs[1..]| - 1] == rs[|rs| - 1];
      }
    }
  }

  lemma FirstKind(format: byte, open: Open, r: Record)
    requires Follows(format, open, true, r)
    ensures open.part == 0 ==> r.kind != LAST_PART
    ensures open.part > 0 ==> (r.kind == LAST_PART || r.kind == PARTIAL_PACKET) && r.part as int == open.part as int + 1
  {
  }

  lemma NothingFollows(format: byte, open: Open, rs: seq<Record>)
    requires Laid(format, open, false, rs) && open.part > 0
    ensures rs == []
  {
  }

  lemma FirstRecord(format: byte, open: Open, rs: seq<Record>)
    requires Laid(format, open, true, rs) && rs != []
    ensures if open.part > 0 && rs[0].kind == PARTIAL_PACKET then
              OpenAfter(open, rs).part as int == open.part as int + 1
            else
              OpenAfter(open, rs).part <= 1
    ensures rs[0].kind == LAST_PART ==> open.part > 0 && rs[0].part as int == open.part as int + 1
  {
    if open.part > 0 && rs[0].kind == PARTIAL_PACKET {
      NothingFollows(format, OpenAfterRecord(rs[0]), rs[1..]);
    } else {
      OpenAtMostOne(format, if rs[0].kind == PARTIAL_PACKET then open else CLOSED, rs[0], rs[1..],
          OpenAfterRecord(rs[0]));
      assert rs[1..] != [] ==> rs[1..][|rs[1..]| - 1] == rs[|rs| - 1];
    }
  }

  lemma {:induction false} OpenAtMostOne(format: byte, before: Open, r: Record, rs: seq<Record>, open: Open)
    requires Laid(format, open, false, rs) && open.part <= 1
    ensures OpenAfter(open, rs).part <= 1
    decreases |rs|
  {
    if rs != [] {
      OpenAtMostOne(format, open, rs[0], rs[1..], OpenAfterRecord(rs[0]));
    }
  }

  /**
    A packet met after `m` deliveries in a row: enough of them to hold the parts of the open frame,
    or too few, and then as good as none.
   */
  lemma PacketFrom(dc: DecoderConfig, asm: Assembly, held: Assembly, format: byte, open: Open, rs: seq<Record>, m: int)
    requires Laid(format, open, true, rs) && rs != [] && AllWritable(rs)
    requires AtBoundary(asm, open) && Feed(dc, asm, true, rs).verdict == Done
    requires 0 <= m && held == if m >= open.part then asm else EMPTY
    ensures var p, q := Feed(dc, asm, true, rs), Feed(dc, held, true, rs);
            && q.verdict == Done
            && q.out == (if m >= open.part then Completed(dc, asm, rs) else []) + WholeFrames(dc, NO_HISTORY, rs)
            && Ended(q) == if m + 1 >= OpenAfter(open, rs).part then Ended(p) else EMPTY
  {
    hide RecordStep, Laid, Feed, AllWritable, Completed, Opened, WholeFrames;
    PacketBothWays(dc, asm, format, open, rs);
    FirstRecord(format, open, rs);
    assert [] + WholeFrames(dc, NO_HISTORY, rs) == WholeFrames(dc, NO_HISTORY, rs);
  }

  // --- The stream of an encoder, and its in-order decoding ---

  /** Packets of a run from number `Nth(slot, 0)` on, which in-order delivery decodes to the end. */
  ghost predicate Stream(dc: DecoderConfig, dec: DecState, format: byte, slot: nat, ps: seq<Packet>) {
    && Fresh(dec)
    && LaidOut(format, CLOSED, ps)
    && (forall i :: 0 <= i < |ps| ==>
          && WellMade(ps[i].records) && HEADER_SIZE + BodySize(ps[i].records) <= UINT16_MAX
          && ps[i].sequence == Nth(slot, i))
    && DecodeAll(dc, dec, WireAll(ps)).verdict == Done
  }

  function OpenAt(ps: seq<Packet>, k: nat): Open
    requires k <= |ps|
  {
    OpenAfterAll(CLOSED, ps[..k])
  }

  /** The decoder after the first `k` packets, in order. */
  function InOrder(dc: DecoderConfig, dec: DecState, ps: seq<Packet>, k: nat): DecState
    requires k <= |ps| && forall i :: 0 <= i < |ps| ==> AllWritable(ps[i].records)
  {
    DecodeAll(dc, dec, WireAll(ps[..k])).state
  }

  lemma {:induction false} LaidOutAt(format: byte, open: Open, ps: seq<Packet>, k: nat)
    requires LaidOut(format, open, ps) && k < |ps|
    ensures ps[k].records != [] && Laid(format, OpenAfterAll(open, ps[..k]), true, ps[k].records)
    ensures OpenAfterAll(open, ps[..k + 1]) == OpenAfter(OpenAfterAll(open, ps[..k]), ps[k].records)
    decreases k
  {
    if k == 0 {
      assert ps[..1][1..] == [] && ps[..0] == [];
    } else {
      LaidOutAt(format, OpenAfter(open, ps[0].records), ps[1..], k - 1);
      assert ps[..k][1..] == ps[1..][..k - 1] && ps[..k + 1][1..] == ps[1..][..k];
    }
  }

  /** In order, packet `k` is decoded to its end from the state after the packets before it. */
  lemma InOrderStep(dc: DecoderConfig, dec: DecState, format: byte, slot: nat, ps: seq<Packet>, k: nat)
    requires Stream(dc, dec, format, slot, ps) && k < |ps|
    ensures var d := Decode(dc, InOrder(dc, dec, ps, k), PacketBytes(ps[k]));
            d.verdict == Done && InOrder(dc, dec, ps, k + 1) == d.state
    ensures Decode(dc, InOrder(dc, dec, ps, k), PacketBytes(ps[k])) == DecodeRecords(dc, InOrder(dc, dec, ps, k), ps[k])
  {
    hide DecodeIn, DecodeAll, PacketBytes, LaidOut, AllWritable, Nth;
    var a, s := WireAll(ps[..k]), PacketBytes(ps[k]);
    assert WireAll(ps) == (a + [s]) + WireAll(ps[k + 1..]);
    DecodeAllPrefix(dc, dec, a + [s], WireAll(ps[k + 1..]));
    DecodeAllPrefix(dc, dec, a, [s]);
    DecodeAllSnoc(dc, dec, a, s);
    assert WireAll(ps[..k + 1]) == a + [s];
    LaidOutAt(format, CLOSED, ps, k);
    DecodeIsDecodeRecords(dc, DecodeAll(dc, dec, a).state, ps[k], []);
  }

  /** What the in-order decoder holds after `k` packets, and that packet numbers do not disturb it. */
  lemma {:induction false} InOrderHolds(dc: DecoderConfig, dec: DecState, format: byte, slot: nat, ps: seq<Packet>,
                                        k: nat)
    requires Stream(dc, dec, format, slot, ps) && k <= |ps|
    ensures AtBoundary(InOrder(dc, dec, ps, k).asm, OpenAt(ps, k))
    ensures if k == 0 then InOrder(dc, dec, ps, k).first
            else !InOrder(dc, dec, ps, k).first && InOrder(dc, dec, ps, k).lastSequence == Nth(slot, k - 1)
    ensures k < |ps| ==>
              && SequenceStep(InOrder(dc, dec, ps, k), ps[k].sequence).asm == InOrder(dc, dec, ps, k).asm
              && Feed(dc, InOrder(dc, dec, ps, k).asm, true, ps[k].records).verdict == Done
    decreases k
  {
    hide RecordStep, DecodeIn, DecodeAll, PacketBytes, LaidOut, Laid, Nth, AllWritable, Feed, Opened, WholeFrames;
    if k == 0 {
      assert WireAll(ps[..0]) == [];
      NoPacket(dc, dec);
      FreshBoundary(dec);
    } else {
      InOrderHolds(dc, dec, format, slot, ps, k - 1);
      InOrderStep(dc, dec, format, slot, ps, k - 1);
      LaidOutAt(format, CLOSED, ps, k - 1);
      PacketBothWays(dc, InOrder(dc, dec, ps, k - 1).asm, format, OpenAt(ps, k - 1), ps[k - 1].records);
      if k < |ps| {
        InOrderNeverClears(slot, k - 1);
      }
    }
    if k < |ps| {
      InOrderStep(dc, dec, format, slot, ps, k);
    }
  }

  lemma FreshBoundary(dec: DecState)
    requires Fresh(dec)
    ensures AtBoundary(dec.asm, CLOSED)
  {
  }

  // --- Any deliveries ---

  /**
    Deliveries name packets of the stream, in any order, any number of times, with gaps of any size
    between one and the next but those that the packet numbers do not show.
   */
  ghost predicate Deliveries(slot: nat, ps: seq<Packet>, ds: seq<nat>) {
    && (forall t :: 0 <= t < |ds| ==> ds[t] < |ps|)
    && forall t, u :: 0 <= t < |ds| && u == t + 1 < |ds| ==> ToldApart(slot, ds[t], ds[u])
  }

  function Arriving(ps: seq<Packet>, ds: seq<nat>): seq<Bytes>
    requires forall i :: 0 <= i < |ps| ==> AllWritable(ps[i].records)
    requires forall t :: 0 <= t < |ds| ==> ds[t] < |ps|
  {
    seq(|ds|, t requires 0 <= t < |ds| => PacketBytes(ps[ds[t]]))
  }

  /** How many deliveries up to and including the last were packets in a row. */
  function Streak(ds: seq<nat>): nat {
    if ds == [] then 0
    else if |ds| >= 2 && ds[|ds| - 1] == ds[|ds| - 2] + 1 then Streak(ds[..|ds| - 1]) + 1
    else 1
  }

  /** The last `n` deliveries were packets in a row. */
  ghost predicate InARow(ds: seq<nat>, n: nat) {
    n <= |ds| && forall j :: |ds| - n <= j < |ds| ==> ds[j] + (|ds| - 1 - j) == ds[|ds| - 1]
  }

  /** The streak is what its name says: it counts back through packets in a row, and no further. */
  lemma {:induction false} StreakMeaning(ds: seq<nat>, n: nat)
    requires ds != [] && 1 <= n
    ensures Streak(ds) >= n <==> InARow(ds, n)
    decreases |ds|
  {
    var last := |ds| - 1;
    if n >= 2 {
      if |ds| >= 2 && ds[last] == ds[last - 1] + 1 {
        var ds' := ds[..last];
        StreakMeaning(ds', n - 1);
        if InARow(ds', n - 1) {
          forall j | |ds| - n <= j < |ds| ensures ds[j] + (last - j) == ds[last] {
            assert j < last ==> ds'[j] == ds[j];
          }
        }
        if InARow(ds, n) {
          forall j | |ds'| - (n - 1) <= j < |ds'| ensures ds'[j] + (|ds'| - 1 - j) == ds'[|ds'| - 1] {
            assert ds[j] + (last - j) == ds[last];
          }
        }
      }
    }
  }

  /** What a decoder holds after the deliveries `ds`, as far as it matters for what comes next. */
  ghost predicate Holds(dc: DecoderConfig, dec: DecState, slot: nat, ps: seq<Packet>, ds: seq<nat>, st: DecState)
    requires forall i :: 0 <= i < |ps| ==> AllWritable(ps[i].records)
    requires forall t :: 0 <= t < |ds| ==> ds[t] < |ps|
  {
    if ds == [] then
      st == dec
    else
      var k := ds[|ds| - 1];
      && !st.first && st.lastSequence == Nth(slot, k)
      && st.asm == if Streak(ds) >= OpenAt(ps, k + 1).part then InOrder(dc, dec, ps, k + 1).asm else EMPTY
  }

  /** Of packet `k`: the frames it hands up on its own, and the one it completes when it is last of a row. */
  ghost function WholeOf(dc: DecoderConfig, ps: seq<Packet>, k: nat): Frames
    requires k < |ps|
  {
    WholeFrames(dc, NO_HISTORY, ps[k].records)
  }

  ghost function CompletedBy(dc: DecoderConfig, dec: DecState, ps: seq<Packet>, k: nat): Frames
    requires k < |ps| && forall i :: 0 <= i < |ps| ==> AllWritable(ps[i].records)
  {
    Completed(dc, InOrder(dc, dec, ps, k).asm, ps[k].records)
  }

  /** The packet number check before a delivery: what is left of the state after it. */
  lemma BeforeDelivery(dc: DecoderConfig, dec: DecState, format: byte, slot: nat, ps: seq<Packet>, ds: seq<nat>,
                       k: nat, st: DecState)
    requires Stream(dc, dec, format, slot, ps) && Deliveries(slot, ps, ds + [k]) && k < |ps|
    requires Deliveries(slot, ps, ds) && Holds(dc, dec, slot, ps, ds, st)
    ensures var st' := SequenceStep(st, ps[k].sequence);
            && !st'.first && st'.lastSequence == Nth(slot, k)
            && st'.asm == if Streak(ds + [k]) - 1 >= OpenAt(ps, k).part then InOrder(dc, dec, ps, k).asm else EMPTY
  {
    hide Feed, Nth, LaidOut, ToldApart, DecodeAll, PacketBytes, BodySize, AllWritable, OpenAt, InOrder;
    InOrderHolds(dc, dec, format, slot, ps, k);
    var all := ds + [k];
    if ds == [] {
      assert Streak(all) == 1;
    } else {
      var last := ds[|ds| - 1];
      assert all[|ds| - 1] == last && all[|ds|] == k && all[..|ds|] == ds;
      assert ToldApart(slot, all[|ds| - 1], all[|ds|]);
      ToldApartExactlyWhen(slot, last, k);
    }
  }

  /** One delivery, in any state a lossy network can lead to. */
  lemma OneDelivery(dc: DecoderConfig, dec: DecState, format: byte, slot: nat, ps: seq<Packet>, ds: seq<nat>, k: nat,
                    st: DecState)
    requires Stream(dc, dec, format, slot, ps) && Deliveries(slot, ps, ds + [k]) && k < |ps|
    requires Deliveries(slot, ps, ds) && Holds(dc, dec, slot, ps, ds, st)
    ensures forall t :: 0 <= t < |ds + [k]| ==> (ds + [k])[t] < |ps|
    ensures var d := Decode(dc, st, PacketBytes(ps[k]));
            && d.verdict == Done
            && d.out == (if Streak(ds + [k]) > OpenAt(ps, k).part then CompletedBy(dc, dec, ps, k) else [])
                + WholeOf(dc, ps, k)
            && Holds(dc, dec, slot, ps, ds + [k], d.state)
  {
    hide RecordStep, DecodeIn, PacketBytes, LaidOut, Laid, Nth, AllWritable, ToldApart, Streak, DecodeAll, Feed,
      Completed, WholeFrames;
    var all := ds + [k];
    assert all[|ds|] == k && Streak(all) >= 1 by { StreakMeaning(all, 1); }
    LaidOutAt(format, CLOSED, ps, k);
    BeforeDelivery(dc, dec, format, slot, ps, ds, k, st);
    DecodeIsDecodeRecords(dc, st, ps[k], []);
    InOrderHolds(dc, dec, format, slot, ps, k);
    InOrderStep(dc, dec, format, slot, ps, k);
    var st' := SequenceStep(st, ps[k].sequence);
    PacketFrom(dc, InOrder(dc, dec, ps, k).asm, st'.asm, format, OpenAt(ps, k), ps[k].records, Streak(all) - 1);
  }

  lemma {:induction false} AfterDeliveries(dc: DecoderConfig, dec: DecState, format: byte, slot: nat, ps: seq<Packet>,
                                           ds: seq<nat>)
    requires Stream(dc, dec, format, slot, ps) && Deliveries(slot, ps, ds)
    ensures var d := DecodeAll(dc, dec, Arriving(ps, ds));
            d.verdict == Done && Holds(dc, dec, slot, ps, ds, d.state)
    decreases |ds|
  {
    hide Decode, DecodeAll, PacketBytes, LaidOut, Nth, AllWritable, ToldApart, BodySize, Streak, OpenAt, InOrder;
    if ds == [] {
      assert Arriving(ps, ds) == [];
      NoPacket(dc, dec);
    } else {
      var last := |ds| - 1;
      var ds', k := ds[..last], ds[last];
      assert ds == ds' + [k];
      AfterDeliveries(dc, dec, format, slot, ps, ds');
      var d := DecodeAll(dc, dec, Arriving(ps, ds'));
      OneDelivery(dc, dec, format, slot, ps, ds', k, d.state);
      assert Arriving(ps, ds) == Arriving(ps, ds') + [PacketBytes(ps[k])];
      DecodeAllSnoc(dc, dec, Arriving(ps, ds'), PacketBytes(ps[k]));
    }
  }
}
