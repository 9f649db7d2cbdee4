/**
  The decoder read at the level of records: the octet-level record loop refines a fold over the
  records that were written, and whole packets refine a step over records.
 */
module Reassembly {
  import opened Bytes
  import opened Wire
  import opened Compression
  import opened DecoderSpec

  function HeaderOf(r: Record): OptionHeader
    requires Writable(r)
  {
    OptionHeader(r.kind, r.size, r.format, |r.payload|, r.part, 0)
  }

  function Step(cfg: DecoderConfig, asm: Assembly, flush: bool, r: Record): Progress
    requires Writable(r)
  {
    RecordStep(cfg, asm, flush, HeaderOf(r), Some(r.payload))
  }

  /** Takes records one after the other, up to the first that is not taken. */
  function Feed(cfg: DecoderConfig, asm: Assembly, flush: bool, rs: seq<Record>): Progress
    requires AllWritable(rs)
    decreases |rs|
  {
    if rs == [] then
      Progress(asm, [], flush, Done)
    else
      var p := Step(cfg, asm, flush, rs[0]);
      if p.verdict != Done then p else After(Feed(cfg, p.asm, p.flush, rs[1..]), p.out)
  }

  lemma {:induction false} FeedAppend(cfg: DecoderConfig, asm: Assembly, flush: bool, a: seq<Record>, b: seq<Record>)
    requires AllWritable(a) && AllWritable(b)
    requires Feed(cfg, asm, flush, a).verdict == Done
    ensures AllWritable(a + b)
    ensures var p := Feed(cfg, asm, flush, a);
            Feed(cfg, asm, flush, a + b) == After(Feed(cfg, p.asm, p.flush, b), p.out)
    decreases |a|
  {
    hide RecordStep;
    if a == [] {
      assert a + b == b;
    } else {
      assert (a + b)[0] == a[0] && (a + b)[1..] == a[1..] + b;
      var p := Step(cfg, asm, flush, a[0]);
      FeedAppend(cfg, p.asm, p.flush, a[1..], b);
      var q := Feed(cfg, p.asm, p.flush, a[1..]);
      var t := Feed(cfg, q.asm, q.flush, b);
      assert p.out + (q.out + t.out) == (p.out + q.out) + t.out;
    }
  }

  lemma FeedSnoc(cfg: DecoderConfig, asm: Assembly, flush: bool, a: seq<Record>, r: Record)
    requires AllWritable(a) && Writable(r)
    requires Feed(cfg, asm, flush, a).verdict == Done
    ensures AllWritable(a + [r])
    ensures var p := Feed(cfg, asm, flush, a);
            Feed(cfg, asm, flush, a + [r]) == After(Step(cfg, p.asm, p.flush, r), p.out)
  {
    FeedAppend(cfg, asm, flush, a, [r]);
    var p := Feed(cfg, asm, flush, a);
    var q := Step(cfg, p.asm, p.flush, r);
    if q.verdict == Done {
      assert Feed(cfg, q.asm, q.flush, [r][1..]) == Progress(q.asm, [], q.flush, Done);
      assert q.out + [] == q.out;
    }
  }

  /** Where a record lies whole in the data, it is read back whatever comes after the data. */
  lemma RecordRead(s: Bytes, past: Bytes, at: nat, rs: seq<Record>, tail: Bytes)
    requires AllWritable(rs) && rs != []
    requires at <= |s| <= UINT16_MAX && s[at..] == BodyBytes(rs) + tail
    ensures var next := at + OPTION_SIZE + |rs[0].payload|;
            && next <= |s| && s[next..] == BodyBytes(rs[1..]) + tail
            && HeaderAt(s, past, at) == HeaderOf(rs[0]) && PayloadAt(s, past, at) == Some(rs[0].payload)
            && !Wraps(s, past, at) && NextAt(s, past, at) == next
            && Writable(rs[0]) && AllWritable(rs[1..])
  {
    hide ReadOption, BodyBytes;
    RecordInverts(s, at, rs, tail);
    SameHeader(s, past, at);
    hide HeaderAt;
  }

  lemma NoRecordLeft(s: Bytes, at: nat, rs: seq<Record>, tail: Bytes)
    requires AllWritable(rs) && at <= |s| && s[at..] == BodyBytes(rs) + tail && rs == []
    ensures at == |s| - |tail|
  {
  }

  /**
    On octets written from records, and others after them, the record loop takes the records as the
    fold does, and goes on after the last.
   */
  lemma {:induction false} LoopFeeds(cfg: DecoderConfig, asm: Assembly, flush: bool, s: Bytes, past: Bytes, at: nat,
                                     back: set<nat>, rs: seq<Record>, tail: Bytes)
    requires AllWritable(rs) && at <= |s| <= UINT16_MAX && s[at..] == BodyBytes(rs) + tail
    ensures var p := Feed(cfg, asm, flush, rs);
            RecordLoop(cfg, asm, flush, s, past, at, back) ==
            if p.verdict != Done then p
            else After(RecordLoop(cfg, p.asm, p.flush, s, past, |s| - |tail|, back), p.out)
    decreases |rs|
  {
    hide RecordStep, HeaderAt, PayloadAt, NextAt, Wraps, Unvisited, BodyBytes, AllWritable, Writable;
    if rs == [] {
      NoRecordLeft(s, at, rs, tail);
      var q := RecordLoop(cfg, asm, flush, s, past, at, back);
      assert [] + q.out == q.out;
    } else {
      RecordRead(s, past, at, rs, tail);
      var p := Step(cfg, asm, flush, rs[0]);
      if p.verdict == Done {
        LoopFeeds(cfg, p.asm, p.flush, s, past, at + OPTION_SIZE + |rs[0].payload|, back, rs[1..], tail);
        var f := Feed(cfg, p.asm, p.flush, rs[1..]);
        if f.verdict == Done {
          var q := RecordLoop(cfg, f.asm, f.flush, s, past, |s| - |tail|, back);
          assert p.out + (f.out + q.out) == p.out + f.out + q.out;
        }
      }
    }
  }

  /** On octets written from records, the record loop does what the fold does. */
  lemma LoopIsFeed(cfg: DecoderConfig, asm: Assembly, flush: bool, s: Bytes, past: Bytes, at: nat, back: set<nat>,
                   rs: seq<Record>)
    requires AllWritable(rs) && at <= |s| <= UINT16_MAX && s[at..] == BodyBytes(rs)
    ensures RecordLoop(cfg, asm, flush, s, past, at, back) == Feed(cfg, asm, flush, rs)
  {
    hide Feed;
    assert BodyBytes(rs) + [] == BodyBytes(rs);
    LoopFeeds(cfg, asm, flush, s, past, at, back, rs, []);
    var p := Feed(cfg, asm, flush, rs);
    assert p.out + [] == p.out;
  }

  /** Whether the decompressors are reset at the end of a packet is up to its last record. */
  lemma {:induction false} LastRecordFlushes(cfg: DecoderConfig, asm: Assembly, flush: bool, rs: seq<Record>)
    requires AllWritable(rs) && rs != [] && Feed(cfg, asm, flush, rs).verdict == Done
    ensures Feed(cfg, asm, flush, rs).flush <==> rs[|rs| - 1].kind == COMPLETE_PACKET
    decreases |rs|
  {
    var p := Step(cfg, asm, flush, rs[0]);
    StepFlush(cfg, asm, flush, rs[0]);
    hide RecordStep;
    if |rs| > 1 {
      LastRecordFlushes(cfg, p.asm, p.flush, rs[1..]);
    } else {
      assert rs[1..] == [];
    }
  }

  lemma StepFlush(cfg: DecoderConfig, asm: Assembly, flush: bool, r: Record)
    requires Writable(r) && Step(cfg, asm, flush, r).verdict == Done
    ensures Step(cfg, asm, flush, r).flush <==> r.kind == COMPLETE_PACKET
  {
  }

  function DecodeRecords(cfg: DecoderConfig, st: DecState, p: Packet): Decoded
    requires AllWritable(p.records)
  {
    var st' := SequenceStep(st, p.sequence);
    EndOfPacket(st', Feed(cfg, st'.asm, true, p.records))
  }

  /** A packet as the encoder writes it is decoded record by record, whatever comes after it in its buffer. */
  lemma DecodeIsDecodeRecords(cfg: DecoderConfig, st: DecState, p: Packet, past: Bytes)
    requires AllWritable(p.records) && p.records != [] && IsValidType(p.records[0].kind)
    requires HEADER_SIZE + BodySize(p.records) <= UINT16_MAX
    ensures DecodeIn(cfg, st, PacketBytes(p), past) == DecodeRecords(cfg, st, p)
  {
    var s := PacketBytes(p);
    HeaderInverts(p);
    assert BodyBytes(p.records) + [] == BodyBytes(p.records);
    RecordInverts(s, HEADER_SIZE, p.records, []);
    hide Feed, RecordLoop;
    LoopIsFeed(cfg, SequenceStep(st, p.sequence).asm, true, s, past, HEADER_SIZE, {}, p.records);
  }

  // --- Packets one after the other ---

  predicate Back(v: Verdict) {
    v == Done || v == Dropped
  }

  /** Packets can be taken in two goes, also when some of the first were dropped. */
  lemma {:induction false} DecodeAllInAppend(cfg: DecoderConfig, st: DecState, a: seq<Arrival>, b: seq<Arrival>)
    requires Back(DecodeAllIn(cfg, st, a).verdict)
    ensures var d := DecodeAllIn(cfg, st, a);
            var e := DecodeAllIn(cfg, d.state, b);
            DecodeAllIn(cfg, st, a + b) == Decoded(e.state, d.out + e.out, Combine(d.verdict, e.verdict))
    decreases |a|
  {
    hide DecodeIn;
    if a == [] {
      assert a + b == b;
      var e := DecodeAllIn(cfg, st, b);
      assert [] + e.out == e.out;
    } else {
      assert (a + b)[0] == a[0] && (a + b)[1..] == a[1..] + b;
      var d := DecodeIn(cfg, st, a[0].data, a[0].past);
      DecodeAllInAppend(cfg, d.state, a[1..], b);
      var q := DecodeAllIn(cfg, d.state, a[1..]);
      var e := DecodeAllIn(cfg, q.state, b);
      assert d.out + (q.out + e.out) == (d.out + q.out) + e.out;
    }
  }

  lemma OneArrival(cfg: DecoderConfig, st: DecState, p: Arrival)
    ensures DecodeAllIn(cfg, st, [p]) == DecodeIn(cfg, st, p.data, p.past)
  {
    hide DecodeIn;
    var d := DecodeIn(cfg, st, p.data, p.past);
    assert DecodeAllIn(cfg, d.state, [p][1..]) == Decoded(d.state, [], Done);
    assert d.out + [] == d.out;
  }

  lemma DecodeAllAppend(cfg: DecoderConfig, st: DecState, a: seq<Bytes>, b: seq<Bytes>)
    requires Back(DecodeAll(cfg, st, a).verdict)
    ensures var d := DecodeAll(cfg, st, a);
            var e := DecodeAll(cfg, d.state, b);
            DecodeAll(cfg, st, a + b) == Decoded(e.state, d.out + e.out, Combine(d.verdict, e.verdict))
  {
    hide DecodeAllIn;
    assert Bare(a + b) == Bare(a) + Bare(b);
    DecodeAllInAppend(cfg, st, Bare(a), Bare(b));
  }

  lemma DecodeAllSnoc(cfg: DecoderConfig, st: DecState, a: seq<Bytes>, s: Bytes)
    requires Back(DecodeAll(cfg, st, a).verdict)
    ensures var d := DecodeAll(cfg, st, a);
            var e := Decode(cfg, d.state, s);
            DecodeAll(cfg, st, a + [s]) == Decoded(e.state, d.out + e.out, Combine(d.verdict, e.verdict))
  {
    hide DecodeAllIn, DecodeIn;
    DecodeAllAppend(cfg, st, a, [s]);
    OnePacket(cfg, DecodeAll(cfg, st, a).state, s);
  }

  lemma OnePacket(cfg: DecoderConfig, st: DecState, s: Bytes)
    ensures DecodeAll(cfg, st, [s]) == Decode(cfg, st, s)
  {
    hide DecodeAllIn, DecodeIn;
    assert Bare([s]) == [Arrival(s, [])];
    OneArrival(cfg, st, Arrival(s, []));
  }

  lemma NoPacket(cfg: DecoderConfig, st: DecState)
    ensures DecodeAll(cfg, st, []) == Decoded(st, [], Done)
  {
    assert Bare([]) == [];
  }

  lemma {:induction false} DecodeAllInPrefix(cfg: DecoderConfig, st: DecState, a: seq<Arrival>, b: seq<Arrival>)
    requires DecodeAllIn(cfg, st, a + b).verdict == Done
    ensures DecodeAllIn(cfg, st, a).verdict == Done
    decreases |a|
  {
    hide DecodeIn;
    if a != [] {
      assert (a + b)[0] == a[0] && (a + b)[1..] == a[1..] + b;
      DecodeAllInPrefix(cfg, DecodeIn(cfg, st, a[0].data, a[0].past).state, a[1..], b);
    }
  }

  lemma DecodeAllPrefix(cfg: DecoderConfig, st: DecState, a: seq<Bytes>, b: seq<Bytes>)
    requires DecodeAll(cfg, st, a + b).verdict == Done
    ensures DecodeAll(cfg, st, a).verdict == Done
  {
    hide DecodeAllIn;
    assert Bare(a + b) == Bare(a) + Bare(b);
    DecodeAllInPrefix(cfg, st, Bare(a), Bare(b));
  }

  /** What comes after the data matters only to a loop that reads past the data. */
  lemma {:induction false} LoopIgnoresPast(cfg: DecoderConfig, asm: Assembly, flush: bool, s: Bytes, past: Bytes,
                                           at: nat, back: set<nat>)
    requires RecordLoop(cfg, asm, flush, s, [], at, back).verdict != Unframed
    ensures RecordLoop(cfg, asm, flush, s, past, at, back) == RecordLoop(cfg, asm, flush, s, [], at, back)
    decreases Unvisited(|s|, back), |s| - at
  {
    hide RecordStep, Unvisited;
    if at < |s| {
      assert at + OPTION_SIZE <= |s|;
      SameHeader(s, past, at);
      SameHeader(s, [], at);
      hide HeaderAt, PayloadAt, NextAt, Wraps, ReadOption;
      var p := RecordStep(cfg, asm, flush, HeaderAt(s, past, at), PayloadAt(s, past, at));
      var next := NextAt(s, past, at);
      if p.verdict == Done && !Wraps(s, past, at) {
        LoopIgnoresPast(cfg, p.asm, p.flush, s, past, next, back);
      } else if p.verdict == Done && next < |s| && next !in back {
        UnvisitedFalls(|s|, back, next);
        LoopIgnoresPast(cfg, p.asm, p.flush, s, past, next, back + {next});
      }
    }
  }

  lemma SameHeader(s: Bytes, past: Bytes, at: nat)
    requires at + OPTION_SIZE <= |s|
    ensures HeaderAt(s, past, at) == ReadOption(s, at)
    ensures PayloadAt(s, past, at) == PayloadAt(s, [], at)
    ensures NextAt(s, past, at) == NextAt(s, [], at) && Wraps(s, past, at) == Wraps(s, [], at)
  {
    assert s + [] == s;
  }

  /** So every result about packets of data alone holds of them in buffers, whatever these held before. */
  lemma {:induction false} InBuffers(cfg: DecoderConfig, st: DecState, packets: seq<Arrival>, datas: seq<Bytes>)
    requires |packets| == |datas| && forall i :: 0 <= i < |packets| ==> packets[i].data == datas[i]
    requires Back(DecodeAll(cfg, st, datas).verdict)
    ensures DecodeAllIn(cfg, st, packets) == DecodeAll(cfg, st, datas)
    decreases |packets|
  {
    hide DecodeIn;
    if packets == [] {
      NoPacket(cfg, st);
    } else {
      var s, past := datas[0], packets[0].past;
      assert datas == [s] + datas[1..] && packets == [packets[0]] + packets[1..];
      assert Bare(datas)[0] == Arrival(s, []) && Bare(datas)[1..] == Bare(datas[1..]);
      DecodeIgnoresPast(cfg, st, s, past);
      InBuffers(cfg, Decode(cfg, st, s).state, packets[1..], datas[1..]);
    }
  }

  lemma DecodeIgnoresPast(cfg: DecoderConfig, st: DecState, s: Bytes, past: Bytes)
    requires Decode(cfg, st, s).verdict != Unframed
    ensures DecodeIn(cfg, st, s, past) == Decode(cfg, st, s)
  {
    hide RecordLoop, HeaderRejected, OptionsAccepted, SequenceClears;
    if |s| >= HEADER_SIZE && !HeaderRejected(s) && OptionsAccepted(s) {
      LoopIgnoresPast(cfg, SequenceStep(st, ReadBe32(s, 4)).asm, true, s, past, HEADER_SIZE, {});
    }
  }

  ghost predicate Fresh(dec: DecState) {
    dec.first && dec.asm == EMPTY
  }

  // --- What holds in every reachable state, whatever octets arrive ---

  ghost predicate Consistent(cfg: DecoderConfig, asm: Assembly) {
    && (asm.lastPart == 0 ==> asm.partial == [])
    && |asm.partial| <= cfg.bufferSize
    && (!IsCompressed(asm.lastFormat) ==> |asm.partial| <= asm.lastSize)
  }

  lemma RecordStepKeeps(cfg: DecoderConfig, asm: Assembly, flush: bool, h: OptionHeader, payload: Option<Bytes>)
    requires Consistent(cfg, asm)
    ensures var p := RecordStep(cfg, asm, flush, h, payload);
            && Consistent(cfg, p.asm)
            && |p.out| <= 1
            && (forall f :: f in p.out ==> |f| == h.size <= cfg.l2mtu)
            && (p.out != [] ==> payload.Some? && IsCompleteType(h.kind))
            && (p.verdict == Stalled <==> h.size <= cfg.l2mtu && h.kind % 2 == 0 && h.kind != COMPLETE_PACKET)
            && p.verdict != Unframed
            && (p.verdict == Dropped ==> p.asm == EMPTY)
  {
  }

  /** The records that lie whole in the data, in the order in which the loop comes to them. */
  function RecordsFrom(s: Bytes, past: Bytes, at: nat, back: set<nat>): seq<Record>
    decreases Unvisited(|s|, back), |s| - at
  {
    if at >= |s| || at + OPTION_SIZE > |s| + |past| then
      []
    else
      var h, payload, next := HeaderAt(s, past, at), PayloadAt(s, past, at), NextAt(s, past, at);
      var here := if payload.None? then [] else [Record(h.kind, h.size, h.format, h.part, payload.value)];
      if !Wraps(s, past, at) then
        here + RecordsFrom(s, past, next, back)
      else if next >= |s| || next in back then
        here
      else
        UnvisitedFalls(|s|, back, next);
        here + RecordsFrom(s, past, next, back + {next})
  }

  /** One of the records declares the size of a frame and completes one. */
  ghost predicate Declared(rs: seq<Record>, f: Bytes) {
    exists i :: 0 <= i < |rs| && IsCompleteType(rs[i].kind) && rs[i].size == |f|
  }

  lemma DeclaredLater(a: seq<Record>, b: seq<Record>, f: Bytes)
    requires Declared(a, f) || Declared(b, f)
    ensures Declared(a + b, f)
  {
    if Declared(a, f) {
      var i :| 0 <= i < |a| && IsCompleteType(a[i].kind) && a[i].size == |f|;
      assert (a + b)[i] == a[i];
    } else {
      var i :| 0 <= i < |b| && IsCompleteType(b[i].kind) && b[i].size == |f|;
      assert (a + b)[|a| + i] == b[i];
    }
  }

  ghost predicate AllDeclared(cfg: DecoderConfig, rs: seq<Record>, out: Frames) {
    forall f :: f in out ==> |f| <= cfg.l2mtu && Declared(rs, f)
  }

  lemma AllDeclaredThen(cfg: DecoderConfig, a: seq<Record>, b: seq<Record>, x: Frames, y: Frames)
    requires AllDeclared(cfg, a, x) && AllDeclared(cfg, b, y)
    ensures AllDeclared(cfg, a + b, x + y)
  {
    hide Declared;
    forall f | f in x + y ensures |f| <= cfg.l2mtu && Declared(a + b, f) {
      DeclaredLater(a, b, f);
    }
  }

  lemma {:induction false} RecordLoopKeeps(cfg: DecoderConfig, asm: Assembly, flush: bool, s: Bytes, past: Bytes,
                                           at: nat, back: set<nat>)
    requires Consistent(cfg, asm)
    ensures var p := RecordLoop(cfg, asm, flush, s, past, at, back);
            && Consistent(cfg, p.asm)
            && AllDeclared(cfg, RecordsFrom(s, past, at, back), p.out)
            && (p.verdict == Dropped ==> p.asm == EMPTY)
    decreases Unvisited(|s|, back), |s| - at
  {
    hide RecordStep, Unvisited, Consistent, AllDeclared;
    NoneDeclared(cfg, RecordsFrom(s, past, at, back));
    if at < |s| && at + OPTION_SIZE <= |s| + |past| {
      var h, payload := HeaderAt(s, past, at), PayloadAt(s, past, at);
      var p, next := RecordStep(cfg, asm, flush, h, payload), NextAt(s, past, at);
      var here := if payload.None? then [] else [Record(h.kind, h.size, h.format, h.part, payload.value)];
      StepDeclared(cfg, asm, flush, h, payload);
      if !Wraps(s, past, at) {
        if p.verdict == Done {
          RecordLoopKeeps(cfg, p.asm, p.flush, s, past, next, back);
        }
        NoneDeclared(cfg, RecordsFrom(s, past, next, back));
        AllDeclaredThen(cfg, here, RecordsFrom(s, past, next, back), p.out,
          if p.verdict == Done then RecordLoop(cfg, p.asm, p.flush, s, past, next, back).out else []);
      } else if next < |s| && next !in back {
        UnvisitedFalls(|s|, back, next);
        if p.verdict == Done {
          RecordLoopKeeps(cfg, p.asm, p.flush, s, past, next, back + {next});
        }
        NoneDeclared(cfg, RecordsFrom(s, past, next, back + {next}));
        AllDeclaredThen(cfg, here, RecordsFrom(s, past, next, back + {next}), p.out,
          if p.verdict == Done then RecordLoop(cfg, p.asm, p.flush, s, past, next, back + {next}).out else []);
      }
      assert p.out + [] == p.out;
    }
  }

  lemma NoneDeclared(cfg: DecoderConfig, rs: seq<Record>)
    ensures AllDeclared(cfg, rs, [])
  {
  }

  lemma StepDeclared(cfg: DecoderConfig, asm: Assembly, flush: bool, h: OptionHeader, payload: Option<Bytes>)
    requires Consistent(cfg, asm)
    ensures var p := RecordStep(cfg, asm, flush, h, payload);
            var here := if payload.None? then [] else [Record(h.kind, h.size, h.format, h.part, payload.value)];
            && Consistent(cfg, p.asm) && AllDeclared(cfg, here, p.out)
            && p.verdict != Unframed && (p.verdict == Dropped ==> p.asm == EMPTY)
  {
    RecordStepKeeps(cfg, asm, flush, h, payload);
  }

  /** The records a packet has for the decoder. */
  function RecordsIn(s: Bytes, past: Bytes): seq<Record> {
    RecordsFrom(s, past, HEADER_SIZE, {})
  }

  /** Whatever octets come in, the state stays consistent and no frame over the layer 2 MTU goes up. */
  lemma DecodeKeeps(cfg: DecoderConfig, st: DecState, s: Bytes, past: Bytes)
    requires Consistent(cfg, st.asm)
    ensures var d := DecodeIn(cfg, st, s, past);
            && Consistent(cfg, d.state.asm)
            && AllDeclared(cfg, RecordsIn(s, past), d.out)
  {
    hide RecordLoop, RecordsFrom;
    if |s| >= HEADER_SIZE && !HeaderRejected(s) && OptionsAccepted(s) {
      RecordLoopKeeps(cfg, SequenceStep(st, ReadBe32(s, 4)).asm, true, s, past, HEADER_SIZE, {});
    }
  }

  lemma {:induction false} DecodeAllKeeps(cfg: DecoderConfig, st: DecState, packets: seq<Arrival>)
    requires Consistent(cfg, st.asm)
    ensures var d := DecodeAllIn(cfg, st, packets);
            && Consistent(cfg, d.state.asm)
            && forall f :: f in d.out ==>
                 && |f| <= cfg.l2mtu
                 && exists i :: 0 <= i < |packets| && Declared(RecordsIn(packets[i].data, packets[i].past), f)
    decreases |packets|
  {
    hide DecodeIn, RecordsIn, Declared, Consistent;
    if packets != [] {
      var d := DecodeIn(cfg, st, packets[0].data, packets[0].past);
      DecodeKeeps(cfg, st, packets[0].data, packets[0].past);
      if d.verdict != Stalled && d.verdict != Unframed {
        var more := packets[1..];
        DecodeAllKeeps(cfg, d.state, more);
        var rest := DecodeAllIn(cfg, d.state, more);
        forall f | f in rest.out
          ensures exists i :: 0 <= i < |packets| && Declared(RecordsIn(packets[i].data, packets[i].past), f)
        {
          var i :| 0 <= i < |more| && Declared(RecordsIn(more[i].data, more[i].past), f);
          assert more[i] == packets[i + 1];
        }
      }
    }
  }
}
