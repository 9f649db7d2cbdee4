/** The threads of a remote node that run the encoder and the decoder. */
module RemoteNode {
  import opened Bytes
  import opened Wire
  import opened Compression
  import opened Buffers
  import opened Ownership
  import opened Encoder
  import opened Decoder
  import opened EncoderSpec
  import opened DecoderSpec
  import opened Packing
  import opened Runs
  import opened Reassembly
  import opened RoundTrip
  import Turns
  import Spec = EncoderSpec

  /** How a wait of the encoder thread ends: by its timeout, or with the frames that came in. */
  datatype Wake = TimedOut | Woken(frames: seq<Bytes>)

  /** Milliseconds a wait may last; 0 is a wait without limit. */
  const SHORT_WAIT := 1
  const NO_LIMIT := 0

  function FramesIn(frames: seq<Bytes>): seq<Event> {
    seq(|frames|, i requires 0 <= i < |frames| => Frame(frames[i]))
  }

  function EventsIn(wake: Wake): seq<Event> {
    match wake case TimedOut => [Flushing] case Woken(frames) => FramesIn(frames)
  }

  function FramesAt(wake: Wake): seq<Bytes> {
    match wake case TimedOut => [] case Woken(frames) => frames
  }

  /** Lists that come one by one, as one list. */
  function Joined<T>(parts: seq<seq<T>>): seq<T> {
    if parts == [] then
      []
    else
      var last := |parts| - 1;
      Joined(parts[..last]) + parts[last]
  }

  lemma {:induction false} JoinedPrefix<T>(parts: seq<seq<T>>, k: nat)
    requires k <= |parts|
    ensures Joined(parts[..k]) <= Joined(parts)
    decreases |parts|
  {
    if k == |parts| {
      assert parts[..k] == parts;
    } else {
      var before := parts[..|parts| - 1];
      assert before[..k] == parts[..k];
      JoinedPrefix(before, k);
    }
  }

  /** Where the list that came `k`th is in the whole. */
  lemma JoinedAt<T>(parts: seq<seq<T>>, k: nat)
    requires k < |parts|
    ensures Joined(parts[..k + 1]) == Joined(parts[..k]) + parts[k]
    ensures var p, n := |Joined(parts[..k])|, |parts[k]|;
            p + n <= |Joined(parts)| && Joined(parts)[p..p + n] == parts[k]
  {
    assert parts[..k + 1][..k] == parts[..k];
    JoinedPrefix(parts, k + 1);
  }

  /** What the wake-ups of the thread mean to its encoder. */
  function EventsOf(script: seq<Wake>): seq<Event> {
    Joined(EventLists(script))
  }

  function EventLists(script: seq<Wake>): seq<seq<Event>> {
    seq(|script|, i requires 0 <= i < |script| => EventsIn(script[i]))
  }

  /** The frames that come in over a script of wake-ups. */
  function FramesOf(script: seq<Wake>): seq<Bytes> {
    Joined(FrameLists(script))
  }

  function FrameLists(script: seq<Wake>): seq<seq<Bytes>> {
    seq(|script|, i requires 0 <= i < |script| => FramesAt(script[i]))
  }

  /** Buffers of one size, each with some data. */
  ghost predicate Carrying(bs: seq<Buffer>, datas: seq<Bytes>, size: nat)
    reads bs
  {
    && |bs| == |datas|
    && forall i :: 0 <= i < |bs| ==> bs[i].Valid() && |bs[i].content| == size && bs[i].Data() == datas[i]
  }

  // --- The encoder thread ---

  /** One frame in its buffer, which is the encoder's from here on. */
  method TakeFrame(encoder: PacketEncoder, raw: Buffer)
    requires encoder.Ready() && encoder.Elsewhere(raw) && raw.Valid()
    requires |raw.content| == encoder.available.bufferSize
    modifies encoder, encoder.available, encoder.txPool, encoder.compressor, encoder.Footprint(), raw
    ensures encoder.Ready()
    ensures encoder.Cfg() == old(encoder.Cfg()) && encoder.compressor == old(encoder.compressor)
    ensures var e := Encoded(encoder.Cfg(), old(encoder.View()), old(raw.Data()));
            encoder.View() == e.state && encoder.txPool.delivered == old(encoder.txPool.delivered) + WireAll(e.packets)
    ensures Conserved(old(encoder.Held()) + multiset{raw}, old(encoder.available.arrived),
                      encoder.Held(), encoder.available.arrived)
    ensures forall b: Buffer :: old(allocated(b)) && old(encoder.Elsewhere(b)) && b != raw ==> encoder.Elsewhere(b)
    ensures forall b :: b in encoder.Footprint() ==>
              b in old(encoder.Footprint()) || b == null || b == raw || fresh(b)
  {
    hide *;
    encoder.Encode(raw);
  }

  /** A buffer elsewhere is not one that the encoder writes to. */
  lemma Untouched(encoder: PacketEncoder)
    requires encoder.Ready()
    ensures forall b: Buffer :: encoder.Elsewhere(b) ==> b !in encoder.Footprint()
  {
  }

  /** Flushes the encoder, when a wait timed out. */
  method FlushOnTimeout(encoder: PacketEncoder)
    requires encoder.Ready()
    modifies encoder, encoder.available, encoder.txPool, encoder.compressor, encoder.Footprint()
    ensures encoder.Ready() && encoder.records == [] && encoder.inflight == []
    ensures encoder.Cfg() == old(encoder.Cfg()) && encoder.compressor == old(encoder.compressor)
    ensures var e := Flushed(encoder.Cfg(), old(encoder.View()));
            encoder.View() == e.state && encoder.txPool.delivered == old(encoder.txPool.delivered) + WireAll(e.packets)
    ensures Conserved(old(encoder.Held()), old(encoder.available.arrived), encoder.Held(), encoder.available.arrived)
    ensures forall b: Buffer :: old(allocated(b)) && old(encoder.Elsewhere(b)) ==> encoder.Elsewhere(b)
    ensures forall b :: b in encoder.Footprint() ==> b in old(encoder.Footprint()) || b == null || fresh(b)
  {
    FlushTouches(encoder);
    hide *;
    encoder.Flush();
  }

  lemma FlushTouches(encoder: PacketEncoder)
    ensures forall b :: b in encoder.Territory() ==> b in encoder.Footprint()
  {
  }

  /** What was sent since state `st0`, and the state now, are those of a run over `events`. */
  ghost predicate HasRun(cfg: EncoderConfig, st0: EncState, sent0: seq<Bytes>, events: seq<Event>, st: EncState,
                         sent: seq<Bytes>)
    requires Sized(cfg) && Settled(cfg, st0)
  {
    var e := Run(cfg, st0, events);
    st == e.state && sent == sent0 + WireAll(e.packets)
  }

  lemma NothingRun(cfg: EncoderConfig, st: EncState, sent: seq<Bytes>)
    requires Sized(cfg) && Settled(cfg, st)
    ensures HasRun(cfg, st, sent, [], st, sent)
  {
    assert WireAll([]) == [] && sent + [] == sent;
  }

  lemma RunGoesOn(cfg: EncoderConfig, st0: EncState, sent0: seq<Bytes>, events: seq<Event>, st: EncState,
                  sent: seq<Bytes>, event: Event)
    requires Sized(cfg) && Settled(cfg, st0) && HasRun(cfg, st0, sent0, events, st, sent)
    ensures Settled(cfg, st)
    ensures var e := if event.Frame? then Encoded(cfg, st, event.data) else Flushed(cfg, st);
            HasRun(cfg, st0, sent0, events + [event], e.state, sent + WireAll(e.packets))
  {
    hide Run, Encoded, Flushed, Settled, AllWritable, Sized;
    RunOneMore(cfg, st0, events, event);
    var a := Run(cfg, st0, events);
    RunWritable(cfg, st0, events);
    var e := if event.Frame? then Encoded(cfg, st, event.data) else Flushed(cfg, st);
    WireAllAppend(a.packets, e.packets);
    assert sent0 + WireAll(a.packets) + WireAll(e.packets) == sent0 + (WireAll(a.packets) + WireAll(e.packets));
  }

  lemma RunWritable(cfg: EncoderConfig, st: EncState, events: seq<Event>)
    requires Sized(cfg) && Settled(cfg, st)
    ensures var e := Run(cfg, st, events); forall i :: 0 <= i < |e.packets| ==> AllWritable(e.packets[i].records)
  {
    hide Run;
  }

  lemma RunOneMore(cfg: EncoderConfig, st0: EncState, events: seq<Event>, event: Event)
    requires Sized(cfg) && Settled(cfg, st0)
    ensures Settled(cfg, Run(cfg, st0, events).state)
    ensures var a := Run(cfg, st0, events);
            Run(cfg, st0, events + [event]) ==
            Then(if event.Frame? then Encoded(cfg, a.state, event.data) else Flushed(cfg, a.state), a.packets)
  {
    hide Run, Encode, Spec.Flush, Settled, Sized;
    RunAppend(cfg, st0, events, [event]);
    var a := Run(cfg, st0, events);
    match event {
      case Frame(data) => RunFrame(cfg, a.state, data);
      case Flushing => RunFlush(cfg, a.state);
    }
  }

  lemma RunTakes(cfg: EncoderConfig, st0: EncState, sent0: seq<Bytes>, events: seq<Event>, frames: seq<Bytes>, i: nat,
                 st: EncState, sent: seq<Bytes>)
    requires Sized(cfg) && Settled(cfg, st0) && i < |frames|
    requires HasRun(cfg, st0, sent0, events + FramesIn(frames[..i]), st, sent)
    ensures Settled(cfg, st)
    ensures var e := Encoded(cfg, st, frames[i]);
            HasRun(cfg, st0, sent0, events + FramesIn(frames[..i + 1]), e.state, sent + WireAll(e.packets))
  {
    hide HasRun, Encoded, Sized, Settled, WireAll;
    RunGoesOn(cfg, st0, sent0, events + FramesIn(frames[..i]), st, sent, Frame(frames[i]));
    assert FramesIn(frames[..i + 1]) == FramesIn(frames[..i]) + [Frame(frames[i])];
    assert events + FramesIn(frames[..i]) + [Frame(frames[i])] == events + FramesIn(frames[..i + 1]);
  }

  /** The buffers of one wake-up, one after the other. */
  method TakeFrames(encoder: PacketEncoder, buffers: seq<Buffer>, ghost frames: seq<Bytes>, ghost cfg: EncoderConfig,
                    ghost st0: EncState, ghost sent0: seq<Bytes>, ghost events: seq<Event>)
    requires encoder.Ready() && encoder.Cfg() == cfg && Sized(cfg) && Settled(cfg, st0)
    requires Carrying(buffers, frames, encoder.available.bufferSize) && Distinct(buffers)
    requires forall k :: 0 <= k < |buffers| ==> encoder.Elsewhere(buffers[k])
    requires HasRun(cfg, st0, sent0, events, encoder.View(), encoder.txPool.delivered)
    modifies encoder, encoder.available, encoder.txPool, encoder.compressor, encoder.Footprint(), buffers
    ensures encoder.Ready() && encoder.Cfg() == cfg && encoder.compressor == old(encoder.compressor)
    ensures HasRun(cfg, st0, sent0, events + FramesIn(frames), encoder.View(), encoder.txPool.delivered)
    ensures Conserved(old(encoder.Held()) + multiset(buffers), old(encoder.available.arrived),
                      encoder.Held(), encoder.available.arrived)
    ensures forall b: Buffer :: old(allocated(b)) && old(encoder.Elsewhere(b)) && b !in buffers ==> encoder.Elsewhere(b)
    ensures forall b :: b in encoder.Footprint() ==>
              b in old(encoder.Footprint()) || b == null || b in buffers || fresh(b)
  {
    hide PacketEncoder.Ready, PacketEncoder.Held, Conserved, Sized, Settled, HasRun, Encoded, WireAll,
      PacketEncoder.View, PacketEncoder.Cfg, PacketEncoder.Footprint, PacketEncoder.Elsewhere;
    ghost var held, arrived := encoder.Held(), encoder.available.arrived;
    StartsTaking(held, arrived, buffers, events, frames);
    var i := 0;
    while i < |buffers|
      invariant 0 <= i <= |buffers|
      invariant encoder.Ready() && encoder.Cfg() == cfg && encoder.compressor == old(encoder.compressor)
      invariant HasRun(cfg, st0, sent0, events + FramesIn(frames[..i]), encoder.View(), encoder.txPool.delivered)
      invariant Conserved(held + multiset(buffers[..i]), arrived, encoder.Held(), encoder.available.arrived)
      invariant forall k :: i <= k < |buffers| ==> encoder.Elsewhere(buffers[k])
      invariant Carrying(buffers[i..], frames[i..], encoder.available.bufferSize)
      invariant forall b: Buffer :: old(allocated(b)) && old(encoder.Elsewhere(b)) && b !in buffers ==>
                  encoder.Elsewhere(b)
      invariant forall b :: b in encoder.Footprint() ==>
                  b in old(encoder.Footprint()) || b == null || b in buffers || fresh(b)
    {
      RunTakes(cfg, st0, sent0, events, frames, i, encoder.View(), encoder.txPool.delivered);
      ghost var held', arrived' := encoder.Held(), encoder.available.arrived;
      CarryingFirst(buffers[i..], frames[i..], encoder.available.bufferSize);
      assert buffers[i..][1..] == buffers[i + 1..] && frames[i..][1..] == frames[i + 1..];
      Untouched(encoder);
      TakeFrame(encoder, buffers[i]);
      OneMoreTaken(held, arrived, buffers, i, held', arrived', encoder.Held(), encoder.available.arrived);
      i := i + 1;
    }
    assert buffers[..|buffers|] == buffers && frames[..|frames|] == frames;
  }

  lemma CarryingFirst(bs: seq<Buffer>, datas: seq<Bytes>, size: nat)
    requires Carrying(bs, datas, size) && bs != []
    ensures bs[0].Valid() && |bs[0].content| == size && bs[0].Data() == datas[0]
    ensures Carrying(bs[1..], datas[1..], size)
  {
  }

  lemma StartsTaking(held: multiset<Buffer>, arrived: multiset<Buffer>, buffers: seq<Buffer>, events: seq<Event>,
                     frames: seq<Bytes>)
    ensures Conserved(held + multiset(buffers[..0]), arrived, held, arrived)
    ensures events + FramesIn(frames[..0]) == events
  {
  }

  /** One buffer more was given over, and all that was held before is still held. */
  lemma OneMoreTaken(held: multiset<Buffer>, arrived: multiset<Buffer>, buffers: seq<Buffer>, i: nat,
                     held1: multiset<Buffer>, arrived1: multiset<Buffer>, held2: multiset<Buffer>,
                     arrived2: multiset<Buffer>)
    requires i < |buffers| && Conserved(held + multiset(buffers[..i]), arrived, held1, arrived1)
    requires Conserved(held1 + multiset{buffers[i]}, arrived1, held2, arrived2)
    ensures Conserved(held + multiset(buffers[..i + 1]), arrived, held2, arrived2)
  {
    hide Conserved;
    assert buffers[..i + 1] == buffers[..i] + [buffers[i]];
    MoreHeld(held + multiset(buffers[..i]), arrived, held1, arrived1, multiset{buffers[i]});
    assert held + multiset(buffers[..i + 1]) == held + multiset(buffers[..i]) + multiset{buffers[i]};
    Carry(held + multiset(buffers[..i + 1]), arrived, held1 + multiset{buffers[i]}, arrived1, held2, arrived2);
  }

  lemma MoreHeld(h: multiset<Buffer>, a: multiset<Buffer>, h1: multiset<Buffer>, a1: multiset<Buffer>,
                 more: multiset<Buffer>)
    requires Conserved(h, a, h1, a1)
    ensures Conserved(h + more, a, h1 + more, a1)
  {
    assert h + more + a1 == (h + a1) + more == (h1 + a) + more == h1 + more + a;
  }

  lemma FramesOfAt(script: seq<Wake>, k: nat)
    requires k < |script|
    ensures var p, n := |FramesOf(script[..k])|, |FramesAt(script[k])|;
            p + n <= |FramesOf(script)| && FramesOf(script)[p..p + n] == FramesAt(script[k])
            && |FramesOf(script[..k + 1])| == p + n
  {
    hide Joined;
    JoinedAt(FrameLists(script), k);
    assert FrameLists(script[..k]) == FrameLists(script)[..k];
    assert FrameLists(script[..k + 1]) == FrameLists(script)[..k + 1];
  }

  lemma FramesStep(script: seq<Wake>, k: nat)
    requires k < |script|
    ensures FramesOf(script[..k + 1]) == FramesOf(script[..k]) + FramesAt(script[k])
  {
    hide Joined;
    JoinedAt(FrameLists(script), k);
    assert FrameLists(script[..k]) == FrameLists(script)[..k];
    assert FrameLists(script[..k + 1]) == FrameLists(script)[..k + 1];
  }

  lemma EventsStep(script: seq<Wake>, k: nat)
    requires k < |script|
    ensures EventsOf(script[..k + 1]) == EventsOf(script[..k]) + EventsIn(script[k])
  {
    hide Joined;
    JoinedAt(EventLists(script), k);
    assert EventLists(script[..k]) == EventLists(script)[..k];
    assert EventLists(script[..k + 1]) == EventLists(script)[..k + 1];
  }

  lemma NoneTaken(held: multiset<Buffer>, arrived: multiset<Buffer>, all: seq<Buffer>)
    ensures Conserved(held + multiset(all[..0]), arrived, held, arrived)
  {
  }

  lemma ManyMoreTaken(held: multiset<Buffer>, arrived: multiset<Buffer>, all: seq<Buffer>, p: nat, n: nat,
                      held1: multiset<Buffer>, arrived1: multiset<Buffer>, held2: multiset<Buffer>,
                      arrived2: multiset<Buffer>)
    requires p + n <= |all| && Conserved(held + multiset(all[..p]), arrived, held1, arrived1)
    requires Conserved(held1 + multiset(all[p..p + n]), arrived1, held2, arrived2)
    ensures Conserved(held + multiset(all[..p + n]), arrived, held2, arrived2)
  {
    hide Conserved;
    var more := multiset(all[p..p + n]);
    assert all[..p + n] == all[..p] + all[p..p + n];
    MoreHeld(held + multiset(all[..p]), arrived, held1, arrived1, more);
    assert held + multiset(all[..p + n]) == held + multiset(all[..p]) + more;
    Carry(held + multiset(all[..p + n]), arrived, held1 + more, arrived1, held2, arrived2);
  }

  /** The part of the buffers, and of what they hold, that comes with a wake-up. */
  lemma Slices(buffers: seq<Buffer>, stock: seq<Buffer>, waiting: seq<Bytes>, script: seq<Wake>, used: nat)
    requires used < |script| && |stock| == |waiting| && |buffers| == |FramesOf(script)|
    ensures var p, n := |FramesOf(script[..used])|, CountAt(script[used]);
            var all, frames := stock + buffers, waiting + FramesOf(script);
            && p + n <= |buffers| && n == |FramesAt(script[used])|
            && all[|waiting| + p..|waiting| + p + n] == buffers[p..p + n]
            && frames[|waiting| + p..|waiting| + p + n] == FramesAt(script[used])
            && p + n == |FramesOf(script[..used + 1])|
            && EventsOf(script[..used + 1]) ==
               EventsOf(script[..used])
               + (if script[used].Woken? then FramesIn(frames[|waiting| + p..|waiting| + p + n]) else [Flushing])
  {
    hide FramesOf, EventsOf, FramesIn;
    FramesOfAt(script, used);
    EventsStep(script, used);
  }

  lemma CarryingSizes(bs: seq<Buffer>, datas: seq<Bytes>, size: nat)
    requires Carrying(bs, datas, size)
    ensures |bs| == |datas|
  {
  }

  /** Buffers at their start, and the rest of them. */
  lemma CarryingSplit(all: seq<Buffer>, frames: seq<Bytes>, size: nat, p: nat, n: nat)
    requires p + n <= |all| == |frames| && Carrying(all[p..], frames[p..], size) && Distinct(all)
    ensures Carrying(all[p..p + n], frames[p..p + n], size) && Carrying(all[p + n..], frames[p + n..], size)
    ensures AllOfSize(all[p..p + n], size) && Distinct(all[p..p + n])
    ensures forall k :: p + n <= k < |all| ==> all[k] !in all[p..p + n]
  {
    assert all[p..][..n] == all[p..p + n] && frames[p..][..n] == frames[p..p + n];
    assert all[p..][n..] == all[p + n..] && frames[p..][n..] == frames[p + n..];
  }

  function CountAt(wake: Wake): nat {
    match wake case TimedOut => 0 case Woken(frames) => |frames|
  }

  lemma ReadyMeans(encoder: PacketEncoder)
    requires encoder.Ready()
    ensures Sized(encoder.Cfg()) && Settled(encoder.Cfg(), encoder.View())
  {
  }

  /**
    After a wait: the buffers that came, and a short wait next; or, when it timed out, a flush and a wait
    without limit.
   */
  method AfterWait(encoder: PacketEncoder, got: bool, buffers: seq<Buffer>, ghost frames: seq<Bytes>,
                   ghost cfg: EncoderConfig, ghost st0: EncState, ghost sent0: seq<Bytes>, ghost events: seq<Event>)
    returns (timeout: nat)
    requires encoder.Ready() && encoder.Cfg() == cfg && Sized(cfg) && Settled(cfg, st0)
    requires Carrying(buffers, frames, encoder.available.bufferSize) && Distinct(buffers) && (!got ==> buffers == [])
    requires forall k :: 0 <= k < |buffers| ==> encoder.Elsewhere(buffers[k])
    requires HasRun(cfg, st0, sent0, events, encoder.View(), encoder.txPool.delivered)
    modifies encoder, encoder.available, encoder.txPool, encoder.compressor, encoder.Footprint(), buffers
    ensures encoder.Ready() && encoder.Cfg() == cfg && encoder.compressor == old(encoder.compressor)
    ensures timeout == if got then 1 else 0
    ensures !got ==> encoder.records == [] && encoder.inflight == []
    ensures HasRun(cfg, st0, sent0, events + (if got then FramesIn(frames) else [Flushing]),
                   encoder.View(), encoder.txPool.delivered)
    ensures Conserved(old(encoder.Held()) + multiset(buffers), old(encoder.available.arrived),
                      encoder.Held(), encoder.available.arrived)
    ensures forall b: Buffer :: old(allocated(b)) && old(encoder.Elsewhere(b)) && b !in buffers ==> encoder.Elsewhere(b)
    ensures forall b :: b in encoder.Footprint() ==>
              b in old(encoder.Footprint()) || b == null || b in buffers || fresh(b)
  {
    hide PacketEncoder.Ready, PacketEncoder.Held, Conserved, Sized, Settled, HasRun, Encoded, Flushed, WireAll,
      PacketEncoder.View, PacketEncoder.Cfg, PacketEncoder.Footprint, PacketEncoder.Elsewhere, Carrying;
    if !got {
      RunGoesOn(cfg, st0, sent0, events, encoder.View(), encoder.txPool.delivered, Flushing);
      assert encoder.Held() + multiset(buffers) == encoder.Held();
      FlushOnTimeout(encoder);
      return NO_LIMIT;
    }
    TakeFrames(encoder, buffers, frames, cfg, st0, sent0, events);
    return SHORT_WAIT;
  }

  /**
    One wait of the encoder thread and what it does next. The buffers that come, `n` of them, are those
    at `p` of all that ever come: what the pool has in stock, or what `others` brings meanwhile.
   */
  method WaitAndEncode(encoder: PacketEncoder, pool: BufferPool, wait: nat, others: Option<seq<Buffer>>,
                       ghost all: seq<Buffer>, ghost frames: seq<Bytes>, ghost p: nat, ghost n: nat,
                       ghost cfg: EncoderConfig, ghost st0: EncState, ghost sent0: seq<Bytes>, ghost events: seq<Event>)
    returns (timeout: nat)
    requires encoder.Ready() && encoder.Cfg() == cfg && Sized(cfg) && Settled(cfg, st0)
    requires pool.Valid() && pool.bufferSize == encoder.available.bufferSize
    requires pool != encoder.available && pool != encoder.txPool
    requires p + n <= |all| == |frames| && Distinct(all) && Carrying(all[p..], frames[p..], pool.bufferSize)
    requires if pool.pool != [] then all[p..p + n] == pool.pool && others.None?
             else if others.Some? then all[p..p + n] == others.value else n == 0 && wait != NO_LIMIT
    requires forall k :: p <= k < |all| ==> encoder.Elsewhere(all[k])
    requires HasRun(cfg, st0, sent0, events, encoder.View(), encoder.txPool.delivered)
    modifies encoder, encoder.available, encoder.txPool, encoder.compressor, encoder.Footprint(), pool, all[p..p + n]
    ensures encoder.Ready() && encoder.Cfg() == cfg && encoder.compressor == old(encoder.compressor)
    ensures pool.Valid() && pool.pool == []
    ensures var got := old(pool.pool) != [] || others.Some?;
            && timeout == (if got then 1 else 0)
            && HasRun(cfg, st0, sent0, events + (if got then FramesIn(frames[p..p + n]) else [Flushing]),
                      encoder.View(), encoder.txPool.delivered)
    ensures timeout == NO_LIMIT ==> encoder.records == [] && encoder.inflight == []
    ensures Conserved(old(encoder.Held()) + multiset(all[p..p + n]), old(encoder.available.arrived),
                      encoder.Held(), encoder.available.arrived)
    ensures forall k :: p + n <= k < |all| ==> encoder.Elsewhere(all[k])
    ensures Carrying(all[p + n..], frames[p + n..], pool.bufferSize)
    ensures forall b :: b in encoder.Footprint() ==>
              b in old(encoder.Footprint()) || b == null || b in all || fresh(b)
  {
    hide PacketEncoder.Ready, PacketEncoder.Held, Conserved, Sized, Settled, HasRun, WireAll, FramesIn, Carrying,
      PacketEncoder.View, PacketEncoder.Cfg, PacketEncoder.Footprint, PacketEncoder.Elsewhere, AllOfSize, Distinct,
      BufferPool.Valid;
    CarryingSplit(all, frames, pool.bufferSize, p, n);
    var got, taken := pool.WaitFor(wait, others);
    assert taken == all[p..p + n];
    Untouched(encoder);
    timeout := AfterWait(encoder, got, taken, frames[p..p + n], cfg, st0, sent0, events);
  }

  /**
    How far into a script the thread gets: all of it, or up to where two waits in a row time out. The
    first of the two is the last wait that has a limit.
   */
  ghost predicate GoesUpTo(script: seq<Wake>, used: nat) {
    && used <= |script|
    && (forall k :: 0 < k < used ==> script[k - 1].Woken? || script[k].Woken?)
    && (used < |script| ==> 0 < used && script[used - 1] == TimedOut && script[used] == TimedOut)
  }

  /** What a run of the thread began with, and what comes in over it. */
  datatype Thread = Thread(cfg: EncoderConfig, st0: EncState, sent0: seq<Bytes>, held: multiset<Buffer>,
                           arrived: multiset<Buffer>, stock: seq<Buffer>, waiting: seq<Bytes>, script: seq<Wake>,
                           buffers: seq<Buffer>)
  {
    function All(): seq<Buffer> {
      stock + buffers
    }

    function Frames(): seq<Bytes> {
      waiting + FramesOf(script)
    }
  }

  /** The encoder was given `p` of all buffers, in the course of `events`. */
  ghost predicate Given(encoder: PacketEncoder, run: Thread, events: seq<Event>, p: nat)
    reads encoder, encoder.available, encoder.available.pool, encoder.txPool, encoder.txPool.pool, encoder.txBuffer
    reads encoder.compressor, encoder.inflight, encoder.compBuffer, encoder.inHand
  {
    && encoder.Ready() && encoder.Cfg() == run.cfg && Sized(run.cfg) && Settled(run.cfg, run.st0)
    && p <= |run.All()| && Distinct(run.All())
    && HasRun(run.cfg, run.st0, run.sent0, events, encoder.View(), encoder.txPool.delivered)
    && Conserved(run.held + multiset(run.All()[..p]), run.arrived, encoder.Held(), encoder.available.arrived)
    && (forall k :: p <= k < |run.All()| ==> encoder.Elsewhere(run.All()[k]))
  }

  /** Between waits: `used` wake-ups were taken, `p` buffers of all, and the rest are still as they were. */
  ghost predicate Underway(encoder: PacketEncoder, pool: BufferPool, run: Thread, timeout: nat, used: nat, pos: nat,
                           p: nat)
    reads encoder, encoder.available, encoder.available.pool, encoder.txPool, encoder.txPool.pool, encoder.txBuffer
    reads encoder.compressor, encoder.inflight, encoder.compBuffer, encoder.inHand, pool, pool.pool, run.All()
  {
    && used <= |run.script| && |run.stock| == |run.waiting| && |run.buffers| == |FramesOf(run.script)|
    && pool.Valid() && pool.bufferSize == encoder.available.bufferSize
    && pool != encoder.available && pool != encoder.txPool
    && (if pool.pool != [] then pool.pool == run.stock && p == pos == used == 0
        else pos == |FramesOf(run.script[..used])| && p == |run.waiting| + pos)
    && Given(encoder, run, if pool.pool != [] then [] else FramesIn(run.waiting) + EventsOf(run.script[..used]), p)
    && Carrying(run.All()[p..], run.Frames()[p..], pool.bufferSize)
    && (timeout == NO_LIMIT ==> encoder.records == [] && encoder.inflight == [])
  }

  lemma StockComes(run: Thread)
    requires |run.stock| == |run.waiting|
    ensures var n := |run.waiting|;
            && n <= |run.All()| && run.All()[0..n] == run.stock
            && run.script[..0] == [] && FramesOf([]) == []
            && FramesIn(run.waiting) + EventsOf([]) == [] + FramesIn(run.Frames()[0..n])
  {
    assert run.Frames()[0..|run.waiting|] == run.waiting;
  }

  lemma WakeComes(run: Thread, used: nat)
    requires used < |run.script| && |run.stock| == |run.waiting| && |run.buffers| == |FramesOf(run.script)|
    ensures var pos, n := |FramesOf(run.script[..used])|, CountAt(run.script[used]);
            var p := |run.waiting| + pos;
            && pos + n <= |run.buffers| && p + n <= |run.All()| == |run.Frames()|
            && run.All()[p..p + n] == run.buffers[pos..pos + n]
            && |FramesOf(run.script[..used + 1])| == pos + n
            && FramesIn(run.waiting) + EventsOf(run.script[..used + 1]) ==
               FramesIn(run.waiting) + EventsOf(run.script[..used])
               + (if run.script[used].Woken? then FramesIn(run.Frames()[p..p + n]) else [Flushing])
  {
    hide FramesOf, EventsOf, FramesIn, FramesAt, CountAt;
    Slices(run.buffers, run.stock, run.waiting, run.script, used);
  }

  lemma SetsOut(encoder: PacketEncoder, pool: BufferPool, run: Thread)
    requires encoder.Ready() && pool.Valid() && pool.bufferSize == encoder.available.bufferSize
    requires pool != encoder.available && pool != encoder.txPool && |run.waiting| == |run.stock|
    requires run.stock == pool.pool && Carrying(run.All(), run.Frames(), pool.bufferSize) && Distinct(run.All())
    requires forall k :: 0 <= k < |run.All()| ==> encoder.Elsewhere(run.All()[k])
    requires run.cfg == encoder.Cfg() && run.st0 == encoder.View() && run.sent0 == encoder.txPool.delivered
    requires run.held == encoder.Held() && run.arrived == encoder.available.arrived
    ensures Underway(encoder, pool, run, SHORT_WAIT, 0, 0, 0)
  {
    hide PacketEncoder.Ready, PacketEncoder.Held, Conserved, Sized, Settled, HasRun, PacketEncoder.View,
      PacketEncoder.Cfg, PacketEncoder.Elsewhere, Carrying, Distinct, BufferPool.Valid;
    ReadyMeans(encoder);
    NothingRun(run.cfg, run.st0, run.sent0);
    NoneTaken(run.held, run.arrived, run.All());
    CarryingSizes(run.All(), run.Frames(), pool.bufferSize);
    assert run.script[..0] == [] && run.All()[0..] == run.All() && run.Frames()[0..] == run.Frames();
    assert run.waiting == [] ==> FramesIn(run.waiting) + EventsOf(run.script[..0]) == [];
  }

  /** What the pool had in stock is taken without a wait. */
  method TakeStock(encoder: PacketEncoder, pool: BufferPool, ghost run: Thread, wait: nat, ghost used: nat,
                   ghost pos: nat, ghost p: nat) returns (timeout: nat, ghost p': nat)
    requires Underway(encoder, pool, run, wait, used, pos, p) && pool.pool != []
    modifies encoder, encoder.available, encoder.txPool, encoder.compressor, encoder.Footprint(), pool, run.All()
    ensures Underway(encoder, pool, run, timeout, used, pos, p') && pool.pool == [] && timeout == 1
    ensures encoder.compressor == old(encoder.compressor)
    ensures forall b :: b in encoder.Footprint() ==>
              b in old(encoder.Footprint()) || b == null || b in run.All() || fresh(b)
  {
    hide PacketEncoder.Ready, PacketEncoder.Held, Conserved, Sized, Settled, HasRun, FramesIn, FramesOf, EventsOf,
      Carrying, PacketEncoder.View, PacketEncoder.Cfg, PacketEncoder.Footprint, PacketEncoder.Elsewhere, Distinct,
      BufferPool.Valid;
    ghost var held, arrived, n := encoder.Held(), encoder.available.arrived, |run.waiting|;
    StockComes(run);
    CarryingSizes(run.All()[p..], run.Frames()[p..], pool.bufferSize);
    timeout := WaitAndEncode(encoder, pool, wait, None, run.All(), run.Frames(), p, n, run.cfg, run.st0, run.sent0, []);
    ManyMoreTaken(run.held, run.arrived, run.All(), p, n, held, arrived, encoder.Held(), encoder.available.arrived);
    p' := n;
  }

  /** The next wake-up of the script, unless it is the end of a wait without limit. */
  method TakeWake(encoder: PacketEncoder, pool: BufferPool, ghost run: Thread, script: seq<Wake>, buffers: seq<Buffer>,
                  wait: nat, used: nat, pos: nat, ghost p: nat) returns (timeout: nat, pos': nat, ghost p': nat)
    requires used < |script| && Underway(encoder, pool, run, wait, used, pos, p) && pool.pool == []
    requires run.script == script && run.buffers == buffers && !(script[used] == TimedOut && wait == NO_LIMIT)
    modifies encoder, encoder.available, encoder.txPool, encoder.compressor, encoder.Footprint(), pool, run.All()
    ensures Underway(encoder, pool, run, timeout, used + 1, pos', p') && pool.pool == []
    ensures timeout == if script[used].Woken? then 1 else 0
    ensures encoder.compressor == old(encoder.compressor)
    ensures forall b :: b in encoder.Footprint() ==>
              b in old(encoder.Footprint()) || b == null || b in run.All() || fresh(b)
  {
    hide PacketEncoder.Ready, PacketEncoder.Held, Conserved, Sized, Settled, HasRun, FramesIn, FramesOf, EventsOf,
      Carrying, PacketEncoder.View, PacketEncoder.Cfg, PacketEncoder.Footprint, PacketEncoder.Elsewhere, Distinct,
      BufferPool.Valid, Thread.Frames, EventsIn, FramesAt, Joined;
    ghost var held, arrived := encoder.Held(), encoder.available.arrived;
    ghost var events := FramesIn(run.waiting) + EventsOf(script[..used]);
    var n := CountAt(script[used]);
    WakeComes(run, used);
    var others := if script[used] == TimedOut then None else Some(buffers[pos..pos + n]);
    timeout := WaitAndEncode(encoder, pool, wait, others, run.All(), run.Frames(), p, n,
                             run.cfg, run.st0, run.sent0, events);
    ManyMoreTaken(run.held, run.arrived, run.All(), p, n, held, arrived, encoder.Held(), encoder.available.arrived);
    pos', p' := pos + n, p + n;
  }

  lemma WhereItIs(encoder: PacketEncoder, pool: BufferPool, run: Thread, timeout: nat, used: nat, pos: nat, p: nat)
    requires used <= |run.script| && Underway(encoder, pool, run, timeout, used, pos, p) && pool.pool == []
    ensures Sized(run.cfg) && Settled(run.cfg, run.st0) && encoder.Ready() && encoder.Cfg() == run.cfg
    ensures HasRun(run.cfg, run.st0, run.sent0, FramesIn(run.waiting) + EventsOf(run.script[..used]),
                   encoder.View(), encoder.txPool.delivered)
    ensures timeout == NO_LIMIT ==> encoder.records == [] && encoder.inflight == []
    ensures p == |run.waiting| + |FramesOf(run.script[..used])| <= |run.All()|
    ensures Conserved(run.held + multiset(run.All()[..p]), run.arrived, encoder.Held(), encoder.available.arrived)
  {
  }

  /**
    The encoder thread over its pool, which holds `waiting` at first and gets the frames of `script`,
    in `buffers`, while the thread waits. It returns when the script is over, or is asleep for good when
    the script has a wait without limit time out. However it was woken: what went out is that of a run
    of the encoder over what came, and the encoder holds just what it held and the buffers that came;
    and whenever it waits without limit, nothing is pending and no buffer is in flight.
   */
  method EncoderHandler(encoder: PacketEncoder, pool: BufferPool, ghost waiting: seq<Bytes>, script: seq<Wake>,
                        buffers: seq<Buffer>) returns (timeout: nat, used: nat)
    requires encoder.Ready() && pool.Valid() && pool.bufferSize == encoder.available.bufferSize
    requires pool != encoder.available && pool != encoder.txPool && |waiting| == |pool.pool|
    requires Carrying(pool.pool + buffers, waiting + FramesOf(script), pool.bufferSize)
    requires Distinct(pool.pool + buffers)
    requires forall k :: 0 <= k < |pool.pool + buffers| ==> encoder.Elsewhere((pool.pool + buffers)[k])
    modifies encoder, encoder.available, encoder.txPool, encoder.compressor, encoder.Footprint()
    modifies pool, pool.pool, buffers
    ensures encoder.Ready() && used <= |script|
    ensures GoesUpTo(script, used) && (used < |script| ==> timeout == 0)
    ensures Sized(old(encoder.Cfg())) && Settled(old(encoder.Cfg()), old(encoder.View()))
    ensures HasRun(old(encoder.Cfg()), old(encoder.View()), old(encoder.txPool.delivered),
                   FramesIn(waiting) + EventsOf(script[..used]), encoder.View(), encoder.txPool.delivered)
    ensures timeout == NO_LIMIT ==> encoder.records == [] && encoder.inflight == []
    ensures var n := |waiting| + |FramesOf(script[..used])|;
            && n <= |old(pool.pool) + buffers|
            && Conserved(old(encoder.Held()) + multiset((old(pool.pool) + buffers)[..n]),
                         old(encoder.available.arrived), encoder.Held(), encoder.available.arrived)
  {
    hide Underway, PacketEncoder.Ready, PacketEncoder.Held, Conserved, Sized, Settled, HasRun, WireAll, FramesIn,
      FramesOf, EventsOf, PacketEncoder.View, PacketEncoder.Cfg, PacketEncoder.Footprint, PacketEncoder.Elsewhere,
      Carrying, Distinct, BufferPool.Valid;
    ReadyMeans(encoder);
    ghost var run := Thread(encoder.Cfg(), encoder.View(), encoder.txPool.delivered, encoder.Held(),
                            encoder.available.arrived, pool.pool, waiting, script, buffers);
    SetsOut(encoder, pool, run);
    timeout := SHORT_WAIT;
    used := 0;
    var pos: nat := 0;
    ghost var p: nat := 0;
    while |pool.pool| > 0 || used < |script|
      invariant used <= |script| && Underway(encoder, pool, run, timeout, used, pos, p)
      invariant timeout == if 0 < used && script[used - 1] == TimedOut then 0 else 1
      invariant forall k :: 0 < k < used ==> script[k - 1].Woken? || script[k].Woken?
      invariant pool.pool != [] ==> used == 0
      invariant encoder.compressor == old(encoder.compressor) && (pool.pool == [] || pool.pool == old(pool.pool))
      invariant forall b :: b in encoder.Footprint() ==>
                  b in old(encoder.Footprint()) || b == null || b in run.All() || fresh(b)
      decreases |script| - used, |pool.pool|
    {
      if |pool.pool| > 0 {
        timeout, p := TakeStock(encoder, pool, run, timeout, used, pos, p);
      } else {
        if script[used] == TimedOut && timeout == NO_LIMIT {
          break;
        }
        timeout, pos, p := TakeWake(encoder, pool, run, script, buffers, timeout, used, pos, p);
        used := used + 1;
      }
    }
    WhereItIs(encoder, pool, run, timeout, used, pos, p);
  }

  /** A new encoder set to the format of the tunnel; `ok` is false where the original throws for it. */
  method NewEncoder(l2mtu: u16, l4mtu: u16, lz4: Codec, zstd: Codec, txPool: BufferPool, available: BufferPool,
                    format: byte) returns (ok: bool, encoder: PacketEncoder)
    requires available != txPool && available.bufferSize == txPool.bufferSize && available.Valid() && txPool.Valid()
    requires forall b :: b in available.pool ==> b !in txPool.pool
    requires Sized(EncoderConfig(l2mtu, l4mtu, available.bufferSize, NONE, zstd))
    requires format == COMPRESSED_LZ4 ==> Bounded(lz4, available.bufferSize)
    requires format == COMPRESSED_ZSTD ==> Bounded(zstd, available.bufferSize)
    modifies available, available.pool
    ensures ok <==> format == NONE || IsCompressed(format)
    ensures fresh(encoder) && encoder.available == available && encoder.txPool == txPool
    ensures ok ==> encoder.Ready() && encoder.View() == InitialState(1) && encoder.inflight == []
    ensures encoder.Cfg() == TunnelConfig(l2mtu, l4mtu, lz4, zstd, available.bufferSize, format)
    ensures ok ==> encoder.compressor == null || fresh(encoder.compressor)
    ensures forall b :: b in encoder.Footprint() ==> b == null || b in old(available.pool) || fresh(b)
    ensures txPool.delivered == old(txPool.delivered)
    ensures Conserved(multiset(old(available.pool)) + multiset(txPool.pool), old(available.arrived),
                      encoder.Held(), available.arrived)
  {
    hide PacketEncoder.Held, PacketEncoder.Footprint, PacketEncoder.PoolsValid, PacketEncoder.PendingValid,
      PacketEncoder.CompressionValid, Conserved, Settled, Sized, Bounded;
    encoder := new PacketEncoder(l2mtu, l4mtu, lz4, zstd, txPool, available);
    ok := encoder.SetPacketFormat(format);
  }

  function TunnelConfig(l2mtu: u16, l4mtu: u16, lz4: Codec, zstd: Codec, size: nat, format: byte): EncoderConfig {
    EncoderConfig(l2mtu, l4mtu, size, format, if format == COMPRESSED_LZ4 then lz4 else zstd)
  }

  lemma StockApart(stock: seq<Buffer>, buffers: seq<Buffer>, others: seq<Buffer>)
    requires forall b :: b in stock + buffers ==> b !in others
    ensures forall b :: b in stock ==> b !in others
    ensures forall b :: b in buffers ==> b !in others
    ensures forall i :: 0 <= i < |stock| ==> stock[i] !in others
    ensures forall i :: 0 <= i < |stock + buffers| ==> (stock + buffers)[i] !in others
  {
    assert forall b :: b in stock ==> b in stock + buffers;
    assert forall b :: b in buffers ==> b in stock + buffers;
  }

  lemma NowhereIn(encoder: PacketEncoder, b: Buffer)
    requires b !in encoder.Footprint() && b !in encoder.txPool.pool
    ensures encoder.Elsewhere(b)
  {
  }

  /**
    The encoder thread from the construction of its encoder on. With a format that the encoder knows,
    what goes out is that of a run from the initial state over what came, and the buffers the thread holds
    at the end are those of its two pools and those that came.
   */
  method EncoderThread(l2mtu: u16, l4mtu: u16, lz4: Codec, zstd: Codec, txPool: BufferPool, available: BufferPool,
                       format: byte, pool: BufferPool, ghost waiting: seq<Bytes>, script: seq<Wake>,
                       buffers: seq<Buffer>) returns (ok: bool, encoder: PacketEncoder, timeout: nat, used: nat)
    requires available != txPool && available.bufferSize == txPool.bufferSize && available.Valid() && txPool.Valid()
    requires forall b :: b in available.pool ==> b !in txPool.pool
    requires Sized(EncoderConfig(l2mtu, l4mtu, available.bufferSize, NONE, zstd))
    requires format == COMPRESSED_LZ4 ==> Bounded(lz4, available.bufferSize)
    requires format == COMPRESSED_ZSTD ==> Bounded(zstd, available.bufferSize)
    requires pool.Valid() && pool != available && pool != txPool && pool.bufferSize == available.bufferSize
    requires |waiting| == |pool.pool|
    requires Carrying(pool.pool + buffers, waiting + FramesOf(script), pool.bufferSize)
    requires Distinct(pool.pool + buffers)
    requires forall b :: b in pool.pool + buffers ==> b !in available.pool && b !in txPool.pool
    modifies available, available.pool, txPool, pool, pool.pool, buffers
    ensures ok <==> format == NONE || IsCompressed(format)
    ensures ok ==> encoder.Ready() && used <= |script| && encoder.txPool == txPool && encoder.available == available
    ensures ok ==> GoesUpTo(script, used) && (used < |script| ==> timeout == 0)
    ensures var cfg := TunnelConfig(l2mtu, l4mtu, lz4, zstd, available.bufferSize, format);
            && (ok ==> Sized(cfg) && Settled(cfg, InitialState(1)))
            && (ok ==> HasRun(cfg, InitialState(1), old(txPool.delivered), FramesIn(waiting) + EventsOf(script[..used]),
                              encoder.View(), txPool.delivered))
    ensures ok && timeout == NO_LIMIT ==> encoder.records == [] && encoder.inflight == []
    ensures ok ==>
              var n := |waiting| + |FramesOf(script[..used])|;
              && n <= |old(pool.pool) + buffers|
              && Conserved(old(multiset(available.pool) + multiset(txPool.pool))
                           + multiset((old(pool.pool) + buffers)[..n]), old(available.arrived),
                           encoder.Held(), available.arrived)
  {
    hide PacketEncoder.Ready, PacketEncoder.Held, Conserved, Sized, Settled, HasRun, FramesIn, FramesOf, EventsOf,
      PacketEncoder.View, PacketEncoder.Cfg, PacketEncoder.Footprint, PacketEncoder.Elsewhere, Distinct,
      BufferPool.Valid, Bounded;
    ghost var held, arrived, all := multiset(available.pool) + multiset(txPool.pool), available.arrived,
      pool.pool + buffers;
    StockApart(pool.pool, buffers, available.pool);
    ok, encoder := NewEncoder(l2mtu, l4mtu, lz4, zstd, txPool, available, format);
    timeout, used := SHORT_WAIT, 0;
    if !ok {
      return;
    }
    forall k | 0 <= k < |all| ensures encoder.Elsewhere(all[k]) {
      NowhereIn(encoder, all[k]);
    }
    ghost var held', arrived' := encoder.Held(), available.arrived;
    timeout, used := EncoderHandler(encoder, pool, waiting, script, buffers);
    ghost var n := |waiting| + |FramesOf(script[..used])|;
    MoreHeld(held, arrived, held', arrived', multiset(all[..n]));
    Carry(held + multiset(all[..n]), arrived, held' + multiset(all[..n]), arrived', encoder.Held(), available.arrived);
  }

  /** The frames not over the layer 2 MTU. */
  function Within(frames: seq<Bytes>, l2mtu: u16): seq<Bytes> {
    if frames == [] then []
    else (if |frames[0]| <= l2mtu then [frames[0]] else []) + Within(frames[1..], l2mtu)
  }

  lemma {:induction false} WithinAppend(a: seq<Bytes>, b: seq<Bytes>, l2mtu: u16)
    ensures Within(a + b, l2mtu) == Within(a, l2mtu) + Within(b, l2mtu)
    decreases |a|
  {
    if a == [] {
      assert a + b == b;
    } else {
      assert (a + b)[0] == a[0] && (a + b)[1..] == a[1..] + b;
      WithinAppend(a[1..], b, l2mtu);
      var first := if |a[0]| <= l2mtu then [a[0]] else [];
      assert first + (Within(a[1..], l2mtu) + Within(b, l2mtu)) == first + Within(a[1..], l2mtu) + Within(b, l2mtu);
    }
  }

  lemma {:induction false} AcceptedAppend(cfg: EncoderConfig, a: seq<Event>, b: seq<Event>)
    ensures Accepted(cfg, a + b) == Accepted(cfg, a) + Accepted(cfg, b)
    decreases |a|
  {
    if a == [] {
      assert a + b == b;
    } else {
      assert (a + b)[0] == a[0] && (a + b)[1..] == a[1..] + b;
      AcceptedAppend(cfg, a[1..], b);
    }
  }

  lemma {:induction false} AcceptedIn(cfg: EncoderConfig, frames: seq<Bytes>)
    ensures Accepted(cfg, FramesIn(frames)) == Within(frames, cfg.l2mtu)
    decreases |frames|
  {
    if frames != [] {
      assert FramesIn(frames)[1..] == FramesIn(frames[1..]);
      AcceptedIn(cfg, frames[1..]);
    }
  }

  lemma {:induction false} AcceptedOf(cfg: EncoderConfig, script: seq<Wake>)
    ensures Accepted(cfg, EventsOf(script)) == Within(FramesOf(script), cfg.l2mtu)
    decreases |script|
  {
    if script != [] {
      var k := |script| - 1;
      hide Joined, Accepted, Within, FramesIn;
      AcceptedOf(cfg, script[..k]);
      EventsStep(script, k);
      FramesStep(script, k);
      assert script[..k + 1] == script;
      AcceptedAppend(cfg, EventsOf(script[..k]), EventsIn(script[k]));
      WithinAppend(FramesOf(script[..k]), FramesAt(script[k]), cfg.l2mtu);
      AcceptedAt(cfg, script[k]);
    }
  }

  lemma AcceptedAt(cfg: EncoderConfig, wake: Wake)
    ensures Accepted(cfg, EventsIn(wake)) == Within(FramesAt(wake), cfg.l2mtu)
  {
    if wake.Woken? {
      AcceptedIn(cfg, wake.frames);
    } else {
      assert Accepted(cfg, [Flushing][1..]) == [];
    }
  }

  /** The run takes in the frames that were waiting and those that came, in order, but for those over the MTU. */
  lemma AllFramesTaken(cfg: EncoderConfig, waiting: seq<Bytes>, script: seq<Wake>)
    ensures Accepted(cfg, FramesIn(waiting) + EventsOf(script)) == Within(waiting + FramesOf(script), cfg.l2mtu)
  {
    hide Accepted, Within, FramesIn, EventsOf, FramesOf;
    AcceptedAppend(cfg, FramesIn(waiting), EventsOf(script));
    AcceptedIn(cfg, waiting);
    AcceptedOf(cfg, script);
    WithinAppend(waiting, FramesOf(script), cfg.l2mtu);
  }

  // --- The decoder thread ---

  /** Buffers of one size, each with a packet from the socket and what it held before. */
  ghost predicate Holding(bs: seq<Buffer>, packets: seq<Arrival>, size: nat)
    reads bs
  {
    |bs| == |packets| && forall i :: 0 <= i < |bs| ==> Holds(bs[i], packets[i], size)
  }

  ghost predicate Holds(b: Buffer, packet: Arrival, size: nat)
    reads b
  {
    && b.Valid() && |b.content| == size
    && b.Data() == packet.data && b.content[b.dataSize..] == packet.past
  }

  /** What was handed up since state `st0`, and the state now, are those of decoding `packets`. */
  ghost predicate HasDecoded(cfg: DecoderConfig, st0: DecState, sent0: seq<Bytes>, packets: seq<Arrival>, st: DecState,
                             sent: seq<Bytes>, verdict: Verdict)
  {
    var d := DecodeAllIn(cfg, st0, packets);
    st == d.state && sent == sent0 + d.out && verdict == d.verdict
  }

  lemma NothingDecoded(cfg: DecoderConfig, st0: DecState, sent0: seq<Bytes>)
    ensures HasDecoded(cfg, st0, sent0, [], st0, sent0, Done)
  {
    assert sent0 + [] == sent0;
  }

  lemma OneMoreDecoded(cfg: DecoderConfig, st0: DecState, sent0: seq<Bytes>, packets: seq<Arrival>, p: nat,
                       st: DecState, sent: seq<Bytes>, verdict: Verdict)
    requires p < |packets| && HasDecoded(cfg, st0, sent0, packets[..p], st, sent, verdict) && Back(verdict)
    ensures var d := DecodeIn(cfg, st, packets[p].data, packets[p].past);
            HasDecoded(cfg, st0, sent0, packets[..p + 1], d.state, sent + d.out, Combine(verdict, d.verdict))
  {
    hide DecodeIn, DecodeAllIn;
    assert packets[..p + 1] == packets[..p] + [packets[p]];
    DecodeAllInAppend(cfg, st0, packets[..p], [packets[p]]);
    OneArrival(cfg, st, packets[p]);
    var a, d := DecodeAllIn(cfg, st0, packets[..p]), DecodeIn(cfg, st, packets[p].data, packets[p].past);
    assert sent0 + a.out + d.out == sent0 + (a.out + d.out);
  }

  ghost function DecoderState(decoder: PacketDecoder): DecState
    requires decoder.Valid()
    reads decoder, decoder.available, decoder.txPool, decoder.available.pool, decoder.txPool.pool, decoder.txBuffer
    reads decoder.lz4, decoder.zstd, decoder.inflight, decoder.dcompBuffer, decoder.inHand
  {
    decoder.View()
  }

  lemma DecoderMeans(decoder: PacketDecoder)
    requires decoder.Valid()
    ensures decoder.txBuffer.Valid() && DecoderState(decoder) == decoder.View()
  {
  }

  /** One packet in its buffer, which is the decoder's from here on. */
  method TakePacket(decoder: PacketDecoder, packet: Buffer) returns (verdict: Verdict)
    requires decoder.Ready() && decoder.Elsewhere(packet) && packet.Valid()
    requires |packet.content| == decoder.available.bufferSize
    modifies decoder, decoder.available, decoder.txPool, decoder.lz4, decoder.zstd, decoder.Footprint(), packet
    ensures decoder.Valid() && (Back(verdict) ==> decoder.Ready())
    ensures var d := DecodeIn(decoder.Cfg(), old(DecoderState(decoder)), old(packet.Data()),
                              old(packet.content[packet.dataSize..]));
            && verdict == d.verdict && DecoderState(decoder) == d.state
            && decoder.txPool.delivered == old(decoder.txPool.delivered) + d.out
    ensures Conserved(old(decoder.Held()) + multiset{packet}, old(decoder.available.arrived),
                      decoder.Held(), decoder.available.arrived)
    ensures forall b: Buffer :: old(allocated(b)) && old(decoder.Elsewhere(b)) && b != packet ==> decoder.Elsewhere(b)
    ensures forall b :: b in decoder.Footprint() ==> b in old(decoder.Footprint()) || b == packet || fresh(b)
  {
    DecoderMeans(decoder);
    hide *;
    verdict := decoder.Decode(packet);
    DecoderMeans(decoder);
  }

  /** What a run of the decoder thread began with, and all the buffers and packets that come in over it. */
  datatype Reception = Reception(cfg: DecoderConfig, st0: DecState, sent0: seq<Bytes>, held: multiset<Buffer>,
                                 arrived: multiset<Buffer>, all: seq<Buffer>, packets: seq<Arrival>)

  /** Between packets: `p` of all were decoded, and the rest are still as they were. */
  ghost predicate Received(decoder: PacketDecoder, run: Reception, p: nat, verdict: Verdict)
    reads decoder, decoder.available, decoder.txPool, decoder.available.pool, decoder.txPool.pool, decoder.txBuffer
    reads decoder.lz4, decoder.zstd, decoder.inflight, decoder.dcompBuffer, decoder.inHand, run.all
  {
    && p <= |run.all| == |run.packets| && Distinct(run.all)
    && decoder.Valid() && (Back(verdict) ==> decoder.Ready()) && decoder.Cfg() == run.cfg
    && HasDecoded(run.cfg, run.st0, run.sent0, run.packets[..p], DecoderState(decoder), decoder.txPool.delivered,
                  verdict)
    && Conserved(run.held + multiset(run.all[..p]), run.arrived, decoder.Held(), decoder.available.arrived)
    && (forall k :: p <= k < |run.all| ==> decoder.Elsewhere(run.all[k]))
    && (forall k :: p <= k < |run.all| ==> Holds(run.all[k], run.packets[k], decoder.available.bufferSize))
  }

  /** The next packet. */
  method TakeNext(decoder: PacketDecoder, packet: Buffer, ghost run: Reception, ghost p: nat, before: Verdict)
    returns (verdict: Verdict)
    requires Received(decoder, run, p, before) && Back(before) && p < |run.all| && run.all[p] == packet
    modifies decoder, decoder.available, decoder.txPool, decoder.lz4, decoder.zstd, decoder.Footprint(), packet
    ensures Received(decoder, run, p + 1, verdict)
    ensures forall b :: b in decoder.Footprint() ==> b in old(decoder.Footprint()) || b == packet || fresh(b)
  {
    hide PacketDecoder.Valid, PacketDecoder.Ready, PacketDecoder.Held, Conserved, HasDecoded, DecodeIn, DecoderState,
      PacketDecoder.Footprint, PacketDecoder.Elsewhere;
    decoder.ElsewhereMeans();
    ghost var held, arrived, st, sent := decoder.Held(), decoder.available.arrived, DecoderState(decoder),
      decoder.txPool.delivered;
    var one := TakePacket(decoder, packet);
    OneMoreDecoded(run.cfg, run.st0, run.sent0, run.packets, p, st, sent, before);
    OneMoreTaken(run.held, run.arrived, run.all, p, held, arrived, decoder.Held(), decoder.available.arrived);
    verdict := Combine(before, one);
  }

  /** The packets of one wake-up, one after the other, unless the decoder does not come back from one. */
  method TakePackets(decoder: PacketDecoder, packets: seq<Buffer>, ghost run: Reception, p: nat, before: Verdict)
    returns (verdict: Verdict, p': nat)
    requires Received(decoder, run, p, before) && Back(before)
    requires p + |packets| <= |run.all| && run.all[p..p + |packets|] == packets
    modifies decoder, decoder.available, decoder.txPool, decoder.lz4, decoder.zstd, decoder.Footprint(), packets
    ensures Received(decoder, run, p', verdict)
    ensures p <= p' <= p + |packets| && (Back(verdict) ==> p' == p + |packets|)
    ensures forall b :: b in decoder.Footprint() ==> b in old(decoder.Footprint()) || b in packets || fresh(b)
  {
    hide Received, PacketDecoder.Footprint;
    verdict := before;
    for i := 0 to |packets|
      invariant Received(decoder, run, p + i, verdict) && Back(verdict)
      invariant forall b :: b in decoder.Footprint() ==> b in old(decoder.Footprint()) || b in packets || fresh(b)
    {
      assert run.all[p + i] == run.all[p..p + |packets|][i];
      verdict := TakeNext(decoder, packets[i], run, p + i, verdict);
      if !Back(verdict) {
        return verdict, p + i + 1;
      }
    }
    return verdict, p + |packets|;
  }

  lemma {:induction false} JoinedFrom(batches: seq<seq<Buffer>>, i: nat)
    requires i < |Joined(batches)|
    ensures exists k :: 0 <= k < |batches| && Joined(batches)[i] in batches[k]
  {
    var before := batches[..|batches| - 1];
    if i < |Joined(before)| {
      JoinedFrom(before, i);
      var k :| 0 <= k < |before| && Joined(before)[i] in before[k];
      assert Joined(batches)[i] in batches[k];
    } else {
      assert Joined(batches)[i] in batches[|batches| - 1];
    }
  }

  lemma BatchComes(stock: seq<Buffer>, batches: seq<seq<Buffer>>, k: nat)
    requires k < |batches|
    ensures var all, p, n := stock + Joined(batches), |stock| + |Joined(batches[..k])|, |batches[k]|;
            && p + n <= |all| && all[p..p + n] == batches[k]
            && p + n == |stock| + |Joined(batches[..k + 1])|
  {
    hide Joined;
    JoinedAt(batches, k);
  }

  lemma BatchFits(decoder: PacketDecoder, run: Reception, p: nat, n: nat, verdict: Verdict)
    requires Received(decoder, run, p, verdict) && p + n <= |run.all|
    ensures Distinct(run.all[p..p + n]) && AllOfSize(run.all[p..p + n], decoder.available.bufferSize)
    ensures forall b :: b in run.all[p..p + n] ==> b !in decoder.Footprint()
  {
    hide PacketDecoder.Valid, PacketDecoder.Ready, PacketDecoder.Held, Conserved, HasDecoded, DecoderState;
    var bs := run.all[p..p + n];
    forall i | 0 <= i < n ensures bs[i].Valid() && |bs[i].content| == decoder.available.bufferSize {
      assert Holds(run.all[p + i], run.packets[p + i], decoder.available.bufferSize);
    }
    decoder.ElsewhereMeans();
  }

  /** One wait of the decoder thread, and what it does with the packets that come. */
  method WaitAndDecode(decoder: PacketDecoder, pool: BufferPool, others: Option<seq<Buffer>>, ghost run: Reception,
                       p: nat, ghost n: nat, before: Verdict) returns (verdict: Verdict, p': nat)
    requires Received(decoder, run, p, before) && Back(before) && p + n <= |run.all|
    requires pool.Valid() && pool.bufferSize == decoder.available.bufferSize
    requires pool != decoder.available && pool != decoder.txPool
    requires if pool.pool != [] then run.all[p..p + n] == pool.pool && others.None?
             else others.Some? && run.all[p..p + n] == others.value
    modifies decoder, decoder.available, decoder.txPool, decoder.lz4, decoder.zstd, decoder.Footprint()
    modifies pool, run.all[p..p + n]
    ensures Received(decoder, run, p', verdict) && p <= p' <= p + n && (Back(verdict) ==> p' == p + n)
    ensures pool.Valid() && pool.pool == []
    ensures forall b :: b in decoder.Footprint() ==> b in old(decoder.Footprint()) || b in run.all || fresh(b)
  {
    hide Received, Distinct, PacketDecoder.Footprint, AllOfSize, BufferPool.Valid;
    BatchFits(decoder, run, p, n, before);
    var got, taken := pool.WaitFor(NO_LIMIT, others);
    assert taken == run.all[p..p + n];
    verdict, p' := TakePackets(decoder, taken, run, p, before);
  }

  lemma ReceptionStarts(decoder: PacketDecoder, run: Reception)
    requires decoder.Ready() && Distinct(run.all) && Holding(run.all, run.packets, decoder.available.bufferSize)
    requires forall k :: 0 <= k < |run.all| ==> decoder.Elsewhere(run.all[k])
    requires run.cfg == decoder.Cfg() && run.st0 == DecoderState(decoder) && run.sent0 == decoder.txPool.delivered
    requires run.held == decoder.Held() && run.arrived == decoder.available.arrived
    ensures Received(decoder, run, 0, Done)
  {
    hide PacketDecoder.Valid, PacketDecoder.Held, Conserved, HasDecoded, DecoderState, PacketDecoder.Elsewhere,
      Distinct, Holds;
    assert run.packets[..0] == [];
    NothingDecoded(run.cfg, run.st0, run.sent0);
    NoneTaken(run.held, run.arrived, run.all);
  }

  /** What the decoder has come to. */
  lemma WhatWasReceived(decoder: PacketDecoder, run: Reception, p: nat, verdict: Verdict)
    requires Received(decoder, run, p, verdict)
    ensures p <= |run.all| == |run.packets|
    ensures decoder.Valid() && (Back(verdict) ==> decoder.Ready())
    ensures HasDecoded(run.cfg, run.st0, run.sent0, run.packets[..p], DecoderState(decoder), decoder.txPool.delivered,
                       verdict)
    ensures Conserved(run.held + multiset(run.all[..p]), run.arrived, decoder.Held(), decoder.available.arrived)
  {
  }

  lemma StockFirst(stock: seq<Buffer>, batches: seq<seq<Buffer>>)
    ensures (stock + Joined(batches))[0..0 + |stock|] == stock && Joined(batches[..0]) == []
  {
  }

  /**
    The decoder thread over its pool, which holds some buffers at first and gets those of `batches`, one
    batch at a time, while the thread waits. It goes through all of them unless the record loop does not
    come back for one. What it hands up is what decoding the packets one after the other gives, and the
    decoder holds just what it held and the buffers it took.
   */
  method DecoderHandler(decoder: PacketDecoder, pool: BufferPool, batches: seq<seq<Buffer>>,
                        ghost packets: seq<Arrival>)
    returns (verdict: Verdict, used: nat)
    requires decoder.Ready() && pool.Valid() && pool.bufferSize == decoder.available.bufferSize
    requires pool != decoder.available && pool != decoder.txPool
    requires Holding(pool.pool + Joined(batches), packets, pool.bufferSize) && Distinct(pool.pool + Joined(batches))
    requires forall k :: 0 <= k < |packets| ==> decoder.Elsewhere((pool.pool + Joined(batches))[k])
    modifies decoder, decoder.available, decoder.txPool, decoder.lz4, decoder.zstd, decoder.Footprint()
    modifies pool, pool.pool, Joined(batches)
    ensures decoder.Valid() && used <= |packets| && (Back(verdict) ==> decoder.Ready() && used == |packets|)
    ensures HasDecoded(decoder.Cfg(), old(DecoderState(decoder)), old(decoder.txPool.delivered), packets[..used],
                       DecoderState(decoder), decoder.txPool.delivered, verdict)
    ensures Conserved(old(decoder.Held()) + multiset((old(pool.pool) + Joined(batches))[..used]),
                      old(decoder.available.arrived), decoder.Held(), decoder.available.arrived)
  {
    hide Received, PacketDecoder.Valid, PacketDecoder.Held, Conserved, HasDecoded, DecoderState, Distinct, Joined,
      PacketDecoder.Footprint, PacketDecoder.Elsewhere, BufferPool.Valid, AllOfSize, Holds;
    ghost var stock := pool.pool;
    ghost var run := Reception(decoder.Cfg(), DecoderState(decoder), decoder.txPool.delivered, decoder.Held(),
                               decoder.available.arrived, stock + Joined(batches), packets);
    ReceptionStarts(decoder, run);
    verdict, used := Done, 0;
    var k := 0;
    StockFirst(stock, batches);
    while |pool.pool| > 0 || k < |batches|
      invariant k <= |batches| && Received(decoder, run, used, verdict) && Back(verdict)
      invariant if pool.pool == [] then used == |stock| + |Joined(batches[..k])|
                else pool.pool == stock && used == 0 == k
      invariant pool.Valid()
      invariant forall b :: b in decoder.Footprint() ==> b in old(decoder.Footprint()) || b in run.all || fresh(b)
      decreases |batches| - k, |pool.pool|
    {
      ghost var n := if pool.pool != [] then |stock| else |batches[k]|;
      var others := if |pool.pool| > 0 then None else Some(batches[k]);
      if pool.pool == [] {
        BatchComes(stock, batches, k);
        k := k + 1;
      }
      verdict, used := WaitAndDecode(decoder, pool, others, run, used, n, verdict);
      if !Back(verdict) {
        break;
      }
    }
    WhatWasReceived(decoder, run, used, verdict);
    assert batches[..|batches|] == batches;
    assert packets[..|packets|] == packets;
  }

  lemma NowhereInDecoder(decoder: PacketDecoder, b: Buffer)
    requires b !in decoder.Footprint() && b !in decoder.txPool.pool
    ensures decoder.Elsewhere(b)
  {
  }

  /**
    The decoder thread from the construction of its decoder on. What it hands up is what a new decoder
    gives, and the buffers the thread holds at the end are those of its two pools and those it took.
   */
  method DecoderThread(l2mtu: u16, lz4: Codec, zstd: Codec, txPool: BufferPool, available: BufferPool, pool: BufferPool,
                       batches: seq<seq<Buffer>>, ghost packets: seq<Arrival>)
    returns (decoder: PacketDecoder, verdict: Verdict, used: nat)
    requires available != txPool && available.bufferSize == txPool.bufferSize && available.Valid() && txPool.Valid()
    requires forall b :: b in available.pool ==> b !in txPool.pool
    requires Bounded(lz4, available.bufferSize) && Bounded(zstd, available.bufferSize)
    requires available.bufferSize <= Turns.MAX_DATA
    requires pool.Valid() && pool != available && pool != txPool && pool.bufferSize == available.bufferSize
    requires Holding(pool.pool + Joined(batches), packets, pool.bufferSize) && Distinct(pool.pool + Joined(batches))
    requires forall b :: b in pool.pool + Joined(batches) ==> b !in available.pool && b !in txPool.pool
    modifies available, available.pool, txPool, pool, pool.pool, Joined(batches)
    ensures decoder.available == available && decoder.txPool == txPool
    ensures decoder.Valid() && used <= |packets| && (Back(verdict) ==> decoder.Ready() && used == |packets|)
    ensures HasDecoded(DecoderConfig(l2mtu, available.bufferSize, lz4, zstd), DecState(true, 0, EMPTY),
                       old(txPool.delivered), packets[..used], DecoderState(decoder), txPool.delivered, verdict)
    ensures Conserved(old(multiset(available.pool) + multiset(txPool.pool))
                      + multiset((old(pool.pool) + Joined(batches))[..used]), old(available.arrived),
                      decoder.Held(), available.arrived)
  {
    hide PacketDecoder.Valid, PacketDecoder.Held, Conserved, HasDecoded, DecoderState, Distinct, Joined, Consistent,
      PacketDecoder.Footprint, PacketDecoder.Elsewhere, BufferPool.Valid, Bounded, Holds;
    ghost var held, arrived, all := multiset(available.pool) + multiset(txPool.pool), available.arrived,
      pool.pool + Joined(batches);
    StockApart(pool.pool, Joined(batches), available.pool);
    forall i | 0 <= i < |all| ensures allocated(all[i]) {
      if i >= |pool.pool| {
        JoinedFrom(batches, i - |pool.pool|);
      }
    }
    decoder := new PacketDecoder(l2mtu, lz4, zstd, txPool, available);
    DecoderMeans(decoder);
    forall k | 0 <= k < |all| ensures decoder.Elsewhere(all[k]) {
      NowhereInDecoder(decoder, all[k]);
    }
    ghost var held', arrived' := decoder.Held(), available.arrived;
    verdict, used := DecoderHandler(decoder, pool, batches, packets);
    MoreHeld(held, arrived, held', arrived', multiset(all[..used]));
    Carry(held + multiset(all[..used]), arrived, held' + multiset(all[..used]), arrived', decoder.Held(),
          available.arrived);
  }

  // --- Both ends together ---

  /** With nothing pending, what was sent gives all frames accepted. */
  lemma SentArrives(ec: EncoderConfig, dc: DecoderConfig, sequence: u32, dec: DecState, events: seq<Event>,
                    st: EncState, sent: seq<Bytes>)
    requires Matches(ec, dc) && Fresh(dec)
    requires HasRun(ec, InitialState(sequence), [], events, st, sent) && st.records == []
    ensures var d := DecodeAll(dc, dec, sent);
            d.verdict == Done && d.out == Accepted(ec, events)
  {
    hide Run, DecodeAll, Accepted, WireAll, AllWritable, Fresh;
    EveryPrefixRefines(ec, dc, sequence, dec, events);
    RunWritable(ec, InitialState(sequence), events);
    var e := Run(ec, InitialState(sequence), events);
    assert [] + WireAll(e.packets) == WireAll(e.packets);
    var d := DecodeAll(dc, dec, sent);
    assert d.out + [] == d.out;
  }

  /** Where all packets together are decoded to their ends, a thread that comes back from each takes them all. */
  lemma GoesThroughAll(dc: DecoderConfig, dec: DecState, packets: seq<Arrival>, used: nat, dst: DecState, up: Frames,
                       verdict: Verdict)
    requires used <= |packets| && (Back(verdict) ==> used == |packets|)
    requires HasDecoded(dc, dec, [], packets[..used], dst, up, verdict)
    requires DecodeAllIn(dc, dec, packets).verdict == Done
    ensures verdict == Done && used == |packets| && up == DecodeAllIn(dc, dec, packets).out
  {
    hide DecodeAllIn;
    assert packets == packets[..used] + packets[used..];
    DecodeAllInPrefix(dc, dec, packets[..used], packets[used..]);
    assert packets[..|packets|] == packets;
    var d := DecodeAllIn(dc, dec, packets);
    assert [] + d.out == d.out;
  }

  /**
    The two threads of a tunnel, in the terms in which EncoderThread and DecoderThread end. However the
    encoder thread was woken, when it waits without limit, a decoder thread that has received what was
    sent, in order and in any buffers, comes back from every packet and has handed up every frame accepted.
   */
  lemma NothingStranded(ec: EncoderConfig, dc: DecoderConfig, sequence: u32, dec: DecState, events: seq<Event>,
                        st: EncState, sent: seq<Bytes>, packets: seq<Arrival>, used: nat, dst: DecState, up: Frames,
                        verdict: Verdict)
    requires Matches(ec, dc) && Fresh(dec)
    requires HasRun(ec, InitialState(sequence), [], events, st, sent) && st.records == []
    requires |packets| == |sent| && forall i :: 0 <= i < |packets| ==> packets[i].data == sent[i]
    requires used <= |packets| && (Back(verdict) ==> used == |packets|)
    requires HasDecoded(dc, dec, [], packets[..used], dst, up, verdict)
    ensures verdict == Done && used == |packets| && up == Accepted(ec, events)
  {
    hide HasRun, HasDecoded, DecodeAll, DecodeAllIn, Accepted;
    SentArrives(ec, dc, sequence, dec, events, st, sent);
    InBuffers(dc, dec, packets, sent);
    GoesThroughAll(dc, dec, packets, used, dst, up, verdict);
  }
}
