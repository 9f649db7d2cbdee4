/**
  What a frame that is handed up is made of, whatever packets arrive: no assumption is made about who
  wrote them, in which order they come, or whether they are packets at all.
 */
module Provenance {
  import opened Bytes
  import opened Wire
  import opened Compression
  import opened DecoderSpec
  import opened Reassembly
  import opened Splitting

  /** The records that lie whole in the packets so far, and how many came since the last short packet. */
  datatype Trace = Trace(seen: seq<Record>, kept: nat)

  function Further(t: Trace, rs: seq<Record>): Trace {
    Trace(t.seen + rs, t.kept + |rs|)
  }

  /** A short packet has no records, and makes the decoder forget the octets it has. */
  function AfterPacket(t: Trace, p: Arrival): Trace {
    if |p.data| < HEADER_SIZE then Trace(t.seen, 0) else Further(t, RecordsIn(p.data, p.past))
  }

  function AfterAll(t: Trace, packets: seq<Arrival>): Trace
    decreases |packets|
  {
    if packets == [] then t else AfterAll(AfterPacket(t, packets[0]), packets[1..])
  }

  function Min(a: nat, b: nat): nat {
    if a < b then a else b
  }

  function Last(rs: seq<Record>, n: nat): seq<Record> {
    rs[|rs| - Min(n, |rs|)..]
  }

  /** The last `n` records are parts 1 .. n of one frame, of which at most the last completes it. */
  ghost predicate EndsInParts(rs: seq<Record>, n: nat, size: u16, format: byte) {
    && n <= |rs|
    && forall i :: |rs| - n <= i < |rs| ==>
         && IsPartialType(rs[i].kind) && rs[i].part as int == i - (|rs| - n) + 1
         && rs[i].size == size && rs[i].format == format
         && (i < |rs| - 1 ==> !IsCompleteType(rs[i].kind))
  }

  /** The octets of the last `n` records that came after the last short packet. */
  function Kept(t: Trace, n: nat): Bytes {
    Joined(Last(t.seen, Min(n, t.kept)))
  }

  /** The frame under reassembly is made of the last records seen, with nothing between them. */
  ghost predicate Traced(asm: Assembly, t: Trace) {
    if asm.lastPart == 0 then
      asm.partial == []
    else
      && EndsInParts(t.seen, asm.lastPart, asm.lastSize, asm.lastFormat)
      && !IsCompleteType(t.seen[|t.seen| - 1].kind)
      && asm.partial == Kept(t, asm.lastPart)
  }

  /** What the decompressors know after frames that were read in these formats. */
  function HistoriesOf(formats: seq<byte>, frames: Frames): Histories
    requires |formats| == |frames|
    decreases |formats|
  {
    if formats == [] then
      NO_HISTORY
    else
      var n := |formats| - 1;
      var before := HistoriesOf(formats[..n], frames[..n]);
      if IsCompressed(formats[n]) then Remember(before, formats[n], frames[n]) else before
  }

  /** The histories are those of the last frames handed up, as many as there were since a reset. */
  ghost predicate KnownFrom(hs: Histories, up: Frames) {
    exists formats: seq<byte> :: |formats| <= |up| && hs == HistoriesOf(formats, up[|up| - |formats|..])
  }

  /** The data reads as the frame, under what the decompressors know from the frames handed up before. */
  ghost predicate Reads(cfg: DecoderConfig, format: byte, data: Bytes, up: Frames, f: Bytes) {
    exists hs: Histories :: KnownFrom(hs, up) && ReadsUnder(cfg, hs, format, data, f)
  }

  predicate ReadsUnder(cfg: DecoderConfig, hs: Histories, format: byte, data: Bytes, f: Bytes) {
    Restore(cfg, hs, format, data).Some? && Restore(cfg, hs, format, data).value.0 == f
  }

  /**
    A frame made of the last record seen, or of the last records seen, which are all its parts in
    order; of these it has the octets that came after the last short packet.
   */
  ghost predicate MadeOf(cfg: DecoderConfig, t: Trace, up: Frames, f: Bytes) {
    && t.seen != []
    && var r := t.seen[|t.seen| - 1];
    && |f| == r.size <= cfg.l2mtu
    && if r.kind == COMPLETE_PACKET then
         r.part == 0 && Reads(cfg, r.format, r.payload, up, f)
       else
         && IsPartialType(r.kind) && IsCompleteType(r.kind) && 1 <= r.part
         && EndsInParts(t.seen, r.part, r.size, r.format)
         && Reads(cfg, r.format, Kept(t, r.part), up, f)
  }

  lemma {:induction false} JoinedSnoc(rs: seq<Record>, r: Record)
    ensures Joined(rs + [r]) == Joined(rs) + r.payload
    decreases |rs|
  {
    if rs == [] {
      assert rs + [r] == [r] && Joined([r]) == r.payload + Joined([r][1..]);
    } else {
      assert (rs + [r])[0] == rs[0] && (rs + [r])[1..] == rs[1..] + [r];
      JoinedSnoc(rs[1..], r);
    }
  }

  lemma KeptSnoc(t: Trace, r: Record, n: nat)
    requires n <= |t.seen|
    ensures Kept(Further(t, [r]), n + 1) == Kept(t, n) + r.payload
  {
    var m := Min(n, t.kept);
    assert Last(t.seen + [r], m + 1) == Last(t.seen, m) + [r];
    JoinedSnoc(Last(t.seen, m), r);
  }

  lemma EndsInOneMore(rs: seq<Record>, r: Record, n: nat)
    requires if n == 0 then true else EndsInParts(rs, n, r.size, r.format) && !IsCompleteType(rs[|rs| - 1].kind)
    requires IsPartialType(r.kind) && r.part as int == n + 1
    ensures EndsInParts(rs + [r], n + 1, r.size, r.format)
  {
  }

  lemma KnownMore(hs: Histories, up: Frames, format: byte, f: Bytes)
    requires KnownFrom(hs, up)
    ensures KnownFrom(if IsCompressed(format) then Remember(hs, format, f) else hs, up + [f])
  {
    hide Remember, IsCompressed;
    var formats :| |formats| <= |up| && hs == HistoriesOf(formats, up[|up| - |formats|..]);
    var n, more := |formats|, formats + [format];
    var last := (up + [f])[|up + [f]| - |more|..];
    assert more[..n] == formats && last[..n] == up[|up| - n..] && last[n] == f;
    assert HistoriesOf(more, last) == if IsCompressed(format) then Remember(hs, format, f) else hs;
  }

  lemma NothingKnown(up: Frames)
    ensures KnownFrom(NO_HISTORY, up)
  {
    var none: seq<byte> := [];
    assert NO_HISTORY == HistoriesOf(none, up[|up| - |none|..]);
  }

  /** One record: the frame under reassembly stays traced, and so is the frame it hands up. */
  lemma StepTraced(cfg: DecoderConfig, asm: Assembly, flush: bool, r: Record, t: Trace, up: Frames)
    requires Writable(r) && Traced(asm, t) && KnownFrom(asm.histories, up)
    ensures var p := Step(cfg, asm, flush, r);
            && (p.verdict != Stalled ==> Traced(p.asm, Further(t, [r])))
            && KnownFrom(p.asm.histories, up + p.out)
            && |p.out| <= 1 && forall f :: f in p.out ==> MadeOf(cfg, Further(t, [r]), up, f)
  {
    hide Kept, EndsInParts, KnownFrom, MadeOf, Remember;
    var h, p := HeaderOf(r), Step(cfg, asm, flush, r);
    assert up + [] == up;
    NothingKnown(up);
    if p.out != [] {
      NothingKnown(up + p.out);
      if r.kind == COMPLETE_PACKET {
        assert [] + r.payload == r.payload;
        var asm' := if asm.lastPart != 0 then EMPTY else asm;
        KnownMore(asm'.histories, up, r.format, p.out[0]);
        WholeMade(cfg, asm'.histories, r, t, up, p.out[0]);
      } else {
        InPlace(asm, r, t);
        PartsMade(cfg, asm, r, t, up, p.out[0]);
      }
    } else if r.size <= cfg.l2mtu && IsPartialType(r.kind) && !OutOfPlace(asm, h) {
      InPlace(asm, r, t);
    }
  }

  lemma WholeMade(cfg: DecoderConfig, hs: Histories, r: Record, t: Trace, up: Frames, f: Bytes)
    requires KnownFrom(hs, up) && ReadsUnder(cfg, hs, r.format, r.payload, f)
    requires r.kind == COMPLETE_PACKET && r.part == 0 && |f| == r.size <= cfg.l2mtu
    ensures MadeOf(cfg, Further(t, [r]), up, f)
  {
    assert Reads(cfg, r.format, r.payload, up, f);
  }

  lemma PartsMade(cfg: DecoderConfig, asm: Assembly, r: Record, t: Trace, up: Frames, f: Bytes)
    requires KnownFrom(asm.histories, up) && ReadsUnder(cfg, asm.histories, r.format, asm.partial + r.payload, f)
    requires IsPartialType(r.kind) && IsCompleteType(r.kind) && 1 <= r.part && |f| == r.size <= cfg.l2mtu
    requires EndsInParts(t.seen + [r], r.part, r.size, r.format)
    requires asm.partial + r.payload == Kept(Further(t, [r]), r.part)
    ensures MadeOf(cfg, Further(t, [r]), up, f)
  {
    assert Reads(cfg, r.format, asm.partial + r.payload, up, f);
  }

  /** A part that follows those taken so far, which are the last records seen. */
  lemma InPlace(asm: Assembly, r: Record, t: Trace)
    requires Writable(r) && Traced(asm, t) && IsPartialType(r.kind) && !OutOfPlace(asm, HeaderOf(r))
    ensures EndsInParts(t.seen + [r], r.part, r.size, r.format)
    ensures asm.partial + r.payload == Kept(Further(t, [r]), r.part)
  {
    EndsInOneMore(t.seen, r, asm.lastPart);
    KeptSnoc(t, r, asm.lastPart);
  }

  /** Where a record would end after its packet, nothing is handed up and nothing kept. */
  lemma CutOff(cfg: DecoderConfig, asm: Assembly, flush: bool, h: OptionHeader)
    ensures var p := RecordStep(cfg, asm, flush, h, None);
            p.out == [] && (p.verdict == Stalled || p.asm == EMPTY) && (p.verdict == Stalled ==> p.asm == asm)
  {
  }

  /** A frame made of what was seen up to some record of a packet. */
  ghost predicate MadeWithin(cfg: DecoderConfig, t: Trace, rs: seq<Record>, up: Frames, f: Bytes) {
    exists k :: 0 < k <= |rs| && MadeOf(cfg, Further(t, rs[..k]), up, f)
  }

  /** Each of these frames was, the later ones after the earlier ones were handed up. */
  ghost predicate AllMade(cfg: DecoderConfig, t: Trace, rs: seq<Record>, up: Frames, out: Frames) {
    forall i :: 0 <= i < |out| ==> MadeWithin(cfg, t, rs, up + out[..i], out[i])
  }

  lemma MadeLater(cfg: DecoderConfig, t: Trace, r: Record, rs: seq<Record>, up: Frames, f: Bytes)
    requires MadeOf(cfg, Further(t, [r]), up, f) || MadeWithin(cfg, Further(t, [r]), rs, up, f)
    ensures MadeWithin(cfg, t, [r] + rs, up, f)
  {
    hide MadeOf;
    if MadeOf(cfg, Further(t, [r]), up, f) {
      assert ([r] + rs)[..1] == [r];
    } else {
      var k :| 0 < k <= |rs| && MadeOf(cfg, Further(Further(t, [r]), rs[..k]), up, f);
      assert ([r] + rs)[..k + 1] == [r] + rs[..k];
      FurtherFurther(t, [r], rs[..k]);
    }
  }

  /** The frame of one record, if any, and then those of the records after it. */
  lemma AllMadeThen(cfg: DecoderConfig, t: Trace, r: Record, rs: seq<Record>, up: Frames, x: Frames, y: Frames)
    requires |x| <= 1 && forall f :: f in x ==> MadeOf(cfg, Further(t, [r]), up, f)
    requires AllMade(cfg, Further(t, [r]), rs, up + x, y)
    ensures AllMade(cfg, t, [r] + rs, up, x + y)
  {
    hide MadeOf, MadeWithin;
    forall i | 0 <= i < |x + y| ensures MadeWithin(cfg, t, [r] + rs, up + (x + y)[..i], (x + y)[i]) {
      if i < |x| {
        assert up + (x + y)[..i] == up;
        MadeLater(cfg, t, r, rs, up, x[i]);
      } else {
        assert up + x + y[..i - |x|] == up + (x + y)[..i];
        MadeLater(cfg, t, r, rs, up + x + y[..i - |x|], y[i - |x|]);
      }
    }
  }

  lemma FurtherFurther(t: Trace, a: seq<Record>, b: seq<Record>)
    ensures Further(Further(t, a), b) == Further(t, a + b)
  {
    assert t.seen + a + b == t.seen + (a + b);
  }

  lemma FurtherNothing(t: Trace)
    ensures Further(t, []) == t
  {
    assert t.seen + [] == t.seen;
  }

  /** What a run of the loop leads to, where it began with `up` handed up. */
  ghost predicate Leads(cfg: DecoderConfig, t: Trace, rs: seq<Record>, up: Frames, p: Progress) {
    && (Back(p.verdict) ==> Traced(p.asm, Further(t, rs)))
    && KnownFrom(p.asm.histories, up + p.out)
    && AllMade(cfg, t, rs, up, p.out)
  }

  /** The loop ends with a record: whatever comes after it is not looked at. */
  lemma LeadsNoFurther(cfg: DecoderConfig, t: Trace, r: Record, rs: seq<Record>, up: Frames, p: Progress)
    requires |p.out| <= 1 && forall f :: f in p.out ==> MadeOf(cfg, Further(t, [r]), up, f)
    requires KnownFrom(p.asm.histories, up + p.out)
    requires Back(p.verdict) ==> p.asm == EMPTY || (rs == [] && Traced(p.asm, Further(t, [r])))
    ensures Leads(cfg, t, [r] + rs, up, p)
  {
    hide MadeOf, KnownFrom, MadeWithin;
    assert AllMade(cfg, Further(t, [r]), rs, up + p.out, []);
    AllMadeThen(cfg, t, r, rs, up, p.out, []);
    assert p.out + [] == p.out && [r] + [] == [r];
  }

  lemma LeadsOn(cfg: DecoderConfig, t: Trace, r: Record, rs: seq<Record>, up: Frames, p: Progress, q: Progress)
    requires |p.out| <= 1 && forall f :: f in p.out ==> MadeOf(cfg, Further(t, [r]), up, f)
    requires Leads(cfg, Further(t, [r]), rs, up + p.out, q)
    ensures Leads(cfg, t, [r] + rs, up, After(q, p.out))
  {
    hide MadeOf, KnownFrom, Traced, AllMade;
    AllMadeThen(cfg, t, r, rs, up, p.out, q.out);
    FurtherFurther(t, [r], rs);
    assert up + p.out + q.out == up + (p.out + q.out);
  }

  /** Nothing is handed up, and nothing is left. */
  lemma LeadsNowhere(cfg: DecoderConfig, t: Trace, rs: seq<Record>, up: Frames, p: Progress)
    requires p.out == [] && KnownFrom(p.asm.histories, up)
    requires Back(p.verdict) ==> p.asm == EMPTY || (rs == [] && Traced(p.asm, t))
    ensures Leads(cfg, t, rs, up, p)
  {
    hide KnownFrom;
    assert up + [] == up;
    FurtherNothing(t);
  }

  lemma {:induction false} LoopTraced(cfg: DecoderConfig, asm: Assembly, flush: bool, s: Bytes, past: Bytes, at: nat,
                                      back: set<nat>, t: Trace, up: Frames)
    requires Traced(asm, t) && KnownFrom(asm.histories, up)
    ensures Leads(cfg, t, RecordsFrom(s, past, at, back), up, RecordLoop(cfg, asm, flush, s, past, at, back))
    decreases Unvisited(|s|, back), |s| - at
  {
    hide RecordStep, MadeOf, Traced, KnownFrom, Leads, Unvisited, HeaderAt, Wraps, NextAt;
    var rs, q := RecordsFrom(s, past, at, back), RecordLoop(cfg, asm, flush, s, past, at, back);
    if at >= |s| || at + OPTION_SIZE > |s| + |past| {
      LeadsNowhere(cfg, t, rs, up, q);
      return;
    }
    var h, payload, next := HeaderAt(s, past, at), PayloadAt(s, past, at), NextAt(s, past, at);
    var p := RecordStep(cfg, asm, flush, h, payload);
    var goesOn := p.verdict == Done && (!Wraps(s, past, at) || (next < |s| && next !in back));
    var back' := if Wraps(s, past, at) then back + {next} else back;
    if next !in back {
      UnvisitedFalls(|s|, back, next);
    }
    if !Wraps(s, past, at) {
      NextGoesOn(s, past, at);
    }
    var more := if !Wraps(s, past, at) || (next < |s| && next !in back) then RecordsFrom(s, past, next, back') else [];
    EmptyTraced(t);
    NothingKnown(up);
    if payload.None? {
      CutOff(cfg, asm, flush, h);
      assert rs == more;
      if goesOn {
        LoopTraced(cfg, p.asm, p.flush, s, past, next, back', t, up);
        LeadsSame(cfg, t, rs, up, RecordLoop(cfg, p.asm, p.flush, s, past, next, back'), p.out);
      } else {
        LeadsNowhere(cfg, t, rs, up, q);
      }
    } else {
      var r := Record(h.kind, h.size, h.format, h.part, payload.value);
      assert rs == [r] + more;
      PayloadSize(s, past, at);
      SameStep(cfg, asm, flush, h, r);
      StepTraced(cfg, asm, flush, r, t, up);
      if goesOn {
        LoopTraced(cfg, p.asm, p.flush, s, past, next, back', Further(t, [r]), up + p.out);
        LeadsOn(cfg, t, r, more, up, p, RecordLoop(cfg, p.asm, p.flush, s, past, next, back'));
      } else {
        if p.verdict == Dropped {
          DroppedIsEmpty(cfg, asm, flush, h, payload);
        }
        LeadsNoFurther(cfg, t, r, more, up, q);
      }
    }
  }

  lemma LeadsSame(cfg: DecoderConfig, t: Trace, rs: seq<Record>, up: Frames, p: Progress, none: Frames)
    requires Leads(cfg, t, rs, up, p) && none == []
    ensures Leads(cfg, t, rs, up, After(p, none))
  {
    assert none + p.out == p.out;
  }

  lemma NextGoesOn(s: Bytes, past: Bytes, at: nat)
    requires at + OPTION_SIZE <= |s| + |past| && !Wraps(s, past, at)
    ensures NextAt(s, past, at) > at
  {
  }

  lemma PayloadSize(s: Bytes, past: Bytes, at: nat)
    requires at + OPTION_SIZE <= |s| + |past| && PayloadAt(s, past, at).Some?
    ensures |PayloadAt(s, past, at).value| == HeaderAt(s, past, at).length
  {
  }

  lemma EmptyTraced(t: Trace)
    ensures Traced(EMPTY, t)
  {
  }

  lemma DroppedIsEmpty(cfg: DecoderConfig, asm: Assembly, flush: bool, h: OptionHeader, payload: Option<Bytes>)
    requires RecordStep(cfg, asm, flush, h, payload).verdict == Dropped
    ensures RecordStep(cfg, asm, flush, h, payload).asm == EMPTY
  {
  }

  /** The reserved octet of a record has no part in what the record does. */
  lemma SameStep(cfg: DecoderConfig, asm: Assembly, flush: bool, h: OptionHeader, r: Record)
    requires Writable(r) && h.(reserved := 0) == HeaderOf(r)
    ensures RecordStep(cfg, asm, flush, h, Some(r.payload)) == Step(cfg, asm, flush, r)
  {
  }

  lemma TracedIgnoresHistories(asm: Assembly, hs: Histories, t: Trace)
    requires Traced(asm, t)
    ensures Traced(asm.(histories := hs), t)
  {
  }

  lemma ShortTraced(asm: Assembly, t: Trace)
    requires Traced(asm, t)
    ensures Traced(asm.(partial := []), Trace(t.seen, 0))
  {
    assert Last(t.seen, 0) == [];
  }

  /** One packet, of any octets and any length, in a buffer that held anything before. */
  lemma DecodeTraced(cfg: DecoderConfig, st: DecState, s: Bytes, past: Bytes, t: Trace, up: Frames)
    requires Traced(st.asm, t) && KnownFrom(st.asm.histories, up)
    ensures var d := DecodeIn(cfg, st, s, past);
            && (Back(d.verdict) ==> Traced(d.state.asm, AfterPacket(t, Arrival(s, past))))
            && KnownFrom(d.state.asm.histories, up + d.out)
            && AllMade(cfg, t, RecordsIn(s, past), up, d.out)
            && (d.out != [] ==> |s| >= HEADER_SIZE)
  {
    hide RecordLoop, RecordsFrom, Traced, KnownFrom, MadeWithin, SequenceClears, HeaderRejected, OptionsAccepted;
    var t' := AfterPacket(t, Arrival(s, past));
    assert up + [] == up;
    NothingKnown(up);
    EmptyTraced(t');
    EmptyTraced(t);
    if |s| < HEADER_SIZE {
      ShortTraced(st.asm, t);
    } else {
      var st' := SequenceStep(st, ReadBe32(s, 4));
      LoopTraced(cfg, st'.asm, true, s, past, HEADER_SIZE, {}, t, up);
      var p := RecordLoop(cfg, st'.asm, true, s, past, HEADER_SIZE, {});
      NothingKnown(up + p.out);
      if Back(p.verdict) {
        TracedIgnoresHistories(p.asm, NO_HISTORY, t');
      }
    }
  }

  /** A frame made of what was seen up to some record of some packet. */
  ghost predicate MadeSomewhere(cfg: DecoderConfig, t: Trace, packets: seq<Arrival>, up: Frames, f: Bytes) {
    exists i :: 0 <= i < |packets| && |packets[i].data| >= HEADER_SIZE
                && MadeWithin(cfg, AfterAll(t, packets[..i]), RecordsIn(packets[i].data, packets[i].past), up, f)
  }

  lemma MadeAtOnce(cfg: DecoderConfig, t: Trace, packets: seq<Arrival>, up: Frames, f: Bytes)
    requires packets != [] && |packets[0].data| >= HEADER_SIZE
    requires MadeWithin(cfg, t, RecordsIn(packets[0].data, packets[0].past), up, f)
    ensures MadeSomewhere(cfg, t, packets, up, f)
  {
    hide MadeWithin, RecordsIn;
    assert packets[..0] == [];
  }

  lemma MadeFurtherOn(cfg: DecoderConfig, t: Trace, packets: seq<Arrival>, up: Frames, f: Bytes)
    requires packets != [] && MadeSomewhere(cfg, AfterPacket(t, packets[0]), packets[1..], up, f)
    ensures MadeSomewhere(cfg, t, packets, up, f)
  {
    hide MadeWithin, RecordsIn, AfterPacket;
    var t', rest := AfterPacket(t, packets[0]), packets[1..];
    var i :| 0 <= i < |rest| && |rest[i].data| >= HEADER_SIZE
             && MadeWithin(cfg, AfterAll(t', rest[..i]), RecordsIn(rest[i].data, rest[i].past), up, f);
    assert packets[..i + 1][0] == packets[0] && packets[..i + 1][1..] == rest[..i];
    assert packets[i + 1] == rest[i];
  }

  /** Each of these frames was, the later ones after the earlier ones were handed up. */
  ghost predicate AllMadeSomewhere(cfg: DecoderConfig, t: Trace, packets: seq<Arrival>, up: Frames, out: Frames) {
    forall i :: 0 <= i < |out| ==> MadeSomewhere(cfg, t, packets, up + out[..i], out[i])
  }

  lemma AllMadeThenSomewhere(cfg: DecoderConfig, t: Trace, packets: seq<Arrival>, up: Frames, x: Frames, y: Frames)
    requires packets != [] && (x != [] ==> |packets[0].data| >= HEADER_SIZE)
    requires AllMade(cfg, t, RecordsIn(packets[0].data, packets[0].past), up, x)
    requires AllMadeSomewhere(cfg, AfterPacket(t, packets[0]), packets[1..], up + x, y)
    ensures AllMadeSomewhere(cfg, t, packets, up, x + y)
  {
    hide MadeWithin, MadeSomewhere, RecordsIn, AfterPacket;
    forall i | 0 <= i < |x + y| ensures MadeSomewhere(cfg, t, packets, up + (x + y)[..i], (x + y)[i]) {
      if i < |x| {
        assert (x + y)[..i] == x[..i];
        MadeAtOnce(cfg, t, packets, up + x[..i], x[i]);
      } else {
        assert up + x + y[..i - |x|] == up + (x + y)[..i];
        MadeFurtherOn(cfg, t, packets, up + x + y[..i - |x|], y[i - |x|]);
      }
    }
  }

  /**
    Whatever packets arrive: a frame that is handed up was one record, or it was cut into parts whose
    records are the last that were seen, 1 to n in order with nothing between them, all declaring its
    size and format. It is what the octets of these records read as, of those at least that came
    after the last packet too short for a header; and what the decompressors know when they read it
    are the last frames handed up before it.
   */
  lemma {:induction false} EveryFrameIsTraced(cfg: DecoderConfig, st: DecState, packets: seq<Arrival>, t: Trace,
                                              up: Frames)
    requires Traced(st.asm, t) && KnownFrom(st.asm.histories, up)
    ensures AllMadeSomewhere(cfg, t, packets, up, DecodeAllIn(cfg, st, packets).out)
    decreases |packets|
  {
    hide DecodeIn, Traced, KnownFrom, MadeWithin, AfterPacket, RecordsIn, AllMade, AllMadeSomewhere;
    NoneMadeSomewhere(cfg, t, packets, up);
    if packets != [] {
      var d, t' := DecodeIn(cfg, st, packets[0].data, packets[0].past), AfterPacket(t, packets[0]);
      DecodeTraced(cfg, st, packets[0].data, packets[0].past, t, up);
      if Back(d.verdict) {
        EveryFrameIsTraced(cfg, d.state, packets[1..], t', up + d.out);
        AllMadeThenSomewhere(cfg, t, packets, up, d.out, DecodeAllIn(cfg, d.state, packets[1..]).out);
      } else {
        NoneMadeSomewhere(cfg, t', packets[1..], up + d.out);
        AllMadeThenSomewhere(cfg, t, packets, up, d.out, []);
        assert d.out + [] == d.out;
      }
    }
  }

  lemma NoneMadeSomewhere(cfg: DecoderConfig, t: Trace, packets: seq<Arrival>, up: Frames)
    ensures AllMadeSomewhere(cfg, t, packets, up, [])
  {
  }

  // --- Frames that lack their first parts ---

  /** The records among the last `n` that came before the last short packet. */
  function Lost(t: Trace, n: nat): seq<Record>
    requires n <= |t.seen|
  {
    Last(t.seen, n)[..n - Min(n, t.kept)]
  }

  lemma {:induction false} JoinedAppend(a: seq<Record>, b: seq<Record>)
    ensures Joined(a + b) == Joined(a) + Joined(b)
    decreases |a|
  {
    if a == [] {
      assert a + b == b;
    } else {
      assert (a + b)[0] == a[0] && (a + b)[1..] == a[1..] + b;
      JoinedAppend(a[1..], b);
    }
  }

  /** All octets of the last `n` records are kept if and only if those before the last short packet had none. */
  lemma KeptAllExactlyWhen(t: Trace, n: nat)
    requires n <= |t.seen|
    ensures Joined(Last(t.seen, n)) == Joined(Lost(t, n)) + Kept(t, n)
    ensures Kept(t, n) == Joined(Last(t.seen, n)) <==> Joined(Lost(t, n)) == []
  {
    assert Last(t.seen, n) == Lost(t, n) + Last(t.seen, Min(n, t.kept));
    JoinedAppend(Lost(t, n), Last(t.seen, Min(n, t.kept)));
    assert |Joined(Last(t.seen, n))| == |Joined(Lost(t, n))| + |Kept(t, n)|;
  }

  /**
    A frame handed up that came in parts was read from all of them, and so, uncompressed, is all of
    them, if and only if no octet of a part came before the last short packet.
   */
  lemma WholeExactlyWhen(cfg: DecoderConfig, t: Trace, up: Frames, f: Bytes)
    requires MadeOf(cfg, t, up, f) && t.seen[|t.seen| - 1].kind != COMPLETE_PACKET
    ensures var r := t.seen[|t.seen| - 1];
            && r.part as int <= |t.seen|
            && (Kept(t, r.part) == Joined(Last(t.seen, r.part)) <==> Joined(Lost(t, r.part)) == [])
            && (!IsCompressed(r.format) ==> (f == Joined(Last(t.seen, r.part)) <==> Joined(Lost(t, r.part)) == []))
  {
    hide Kept, KnownFrom;
    KeptAllExactlyWhen(t, t.seen[|t.seen| - 1].part);
  }

  /** So a frame can come up without its first parts: here part 1 is lost, and part 2 alone comes up. */
  lemma ShortPacketLosesPart(cfg: DecoderConfig, st: DecState)
    requires Fresh(st) && 1 <= cfg.l2mtu && 1 <= cfg.bufferSize
    ensures var first, second := Record(PARTIAL_PACKET, 1, NONE, 1, [7]), Record(LAST_PART, 1, NONE, 2, [9]);
            DecodeAll(cfg, st, [PacketBytes(Packet(1, [first])), [], PacketBytes(Packet(2, [second]))]).out == [[9]]
  {
    hide Decode, DecodeAll, PacketBytes;
    var first, second := Record(PARTIAL_PACKET, 1, NONE, 1, [7]), Record(LAST_PART, 1, NONE, 2, [9]);
    var holding := Assembly(1, NONE, 1, [7], NO_HISTORY);
    var a, b: Bytes := PacketBytes(Packet(1, [first])), PacketBytes(Packet(2, [second]));
    assert [] + [7] == [7] && [] + [9] == [9];
    OnePart(cfg, st, 1, first, Progress(holding, [], false, Done));
    var d := Decode(cfg, st, a);
    ShortPacket(cfg, d.state);
    var forgot := DecState(false, 1, holding.(partial := []));
    OnePart(cfg, forgot, 2, second, Progress(EMPTY, [[9]], false, Done));
    OnePacket(cfg, st, a);
    DecodeAllSnoc(cfg, st, [a], []);
    DecodeAllSnoc(cfg, st, [a] + [[]], b);
    assert [a] + [[]] + [b] == [a, [], b];
  }

  lemma ShortPacket(cfg: DecoderConfig, st: DecState)
    ensures Decode(cfg, st, []) == Decoded(st.(asm := st.asm.(partial := [])), [], Dropped)
  {
  }

  /** A packet with one record, whose number leaves the state alone. */
  lemma OnePart(cfg: DecoderConfig, st: DecState, sequence: u32, r: Record, p: Progress)
    requires Writable(r) && PARTIAL_PACKET <= r.kind <= LAST_PART && |r.payload| <= 100
    requires 1 <= sequence && (st.first || !SequenceClears(st.lastSequence, sequence))
    requires Step(cfg, st.asm, true, r) == p && p.verdict == Done && !p.flush
    ensures Decode(cfg, st, PacketBytes(Packet(sequence, [r])))
        == Decoded(DecState(false, sequence, p.asm), p.out, Done)
  {
    hide RecordStep, DecodeIn, PacketBytes;
    assert [] + [r] == [r];
    BodySizeSnoc([], r);
    hide BodySize;
    DecodeIsDecodeRecords(cfg, st, Packet(sequence, [r]), []);
    FeedSnoc(cfg, st.asm, true, [], r);
    hide Feed, Step;
    assert [] + p.out == p.out;
  }

  /**
    A gap in the packet numbers across their wrap, too, can make up a frame of parts of two: here the
    packets UINT32_MAX - 1 and 1 to 4 are missing, and part 2 of one frame is taken for that of another.
   */
  lemma GapMixesFrames(cfg: DecoderConfig, st: DecState)
    requires Fresh(st) && 2 <= cfg.l2mtu && 2 <= cfg.bufferSize
    ensures var first, second := Record(PARTIAL_PACKET, 2, NONE, 1, [7]), Record(LAST_PART, 2, NONE, 2, [9]);
            DecodeAll(cfg, st, [PacketBytes(Packet(UINT32_MAX - 2, [first])), PacketBytes(Packet(5, [second]))]).out
            == [[7, 9]]
  {
    hide Decode, DecodeAll, PacketBytes;
    var first, second := Record(PARTIAL_PACKET, 2, NONE, 1, [7]), Record(LAST_PART, 2, NONE, 2, [9]);
    var holding := Assembly(1, NONE, 2, [7], NO_HISTORY);
    var a, b: Bytes := PacketBytes(Packet(UINT32_MAX - 2, [first])), PacketBytes(Packet(5, [second]));
    assert [] + [7] == [7] && [7] + [9] == [7, 9];
    OnePart(cfg, st, UINT32_MAX - 2, first, Progress(holding, [], false, Done));
    OnePart(cfg, DecState(false, UINT32_MAX - 2, holding), 5, second, Progress(EMPTY, [[7, 9]], false, Done));
    OnePacket(cfg, st, a);
    DecodeAllSnoc(cfg, st, [a], b);
    assert [a] + [b] == [a, b];
  }
}
