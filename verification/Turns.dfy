/**
  When the record loop comes back. The loop is first read as the code has it, turn after turn with a
  16-bit position; the function that ends where the position goes back to a place it was at is then
  shown to tell exactly the packets for which the turns come to an end, and what they come to.
 */
module Turns {
  import opened Bytes
  import opened Wire
  import opened Compression
  import opened DecoderSpec
  import opened Reassembly

  // Data that leaves room for one more record header within 16-bit positions, as every buffer does.
  const MAX_DATA := UINT16_MAX - OPTION_SIZE

  /** Where the loop is. */
  datatype Point = Point(asm: Assembly, flush: bool, at: nat)

  /** Some turns of the loop: it goes on from a point, or has come to its end. */
  datatype Turned = Going(point: Point, out: Frames) | Over(progress: Progress)

  function Earlier(t: Turned, out: Frames): Turned {
    match t
    case Going(c, more) => Going(c, out + more)
    case Over(p) => Over(After(p, out))
  }

  /** The body of the loop; a record of no known type leaves everything as it was. */
  function OneTurn(cfg: DecoderConfig, s: Bytes, past: Bytes, c: Point): Turned
    requires c.at < |s|
  {
    if c.at + OPTION_SIZE > |s| + |past| then
      Over(Progress(c.asm, [], c.flush, Unframed))
    else
      var p := RecordStep(cfg, c.asm, c.flush, HeaderAt(s, past, c.at), PayloadAt(s, past, c.at));
      if p.verdict == Done then Going(Point(p.asm, p.flush, NextAt(s, past, c.at)), p.out)
      else if p.verdict == Stalled then Going(c, [])
      else Over(p)
  }

  /** The loop after `n` turns, or at its end if that comes sooner. */
  function AfterTurns(cfg: DecoderConfig, s: Bytes, past: Bytes, c: Point, n: nat): Turned
    decreases n
  {
    if c.at >= |s| then
      Over(Progress(c.asm, [], c.flush, Done))
    else if n == 0 then
      Going(c, [])
    else
      match OneTurn(cfg, s, past, c)
      case Going(c', out) => Earlier(AfterTurns(cfg, s, past, c', n - 1), out)
      case Over(p) => Over(p)
  }

  /** The loop does not come back, however many turns it is given. */
  ghost predicate Forever(cfg: DecoderConfig, s: Bytes, past: Bytes, c: Point) {
    forall n: nat :: AfterTurns(cfg, s, past, c, n).Going?
  }

  ghost predicate Reaches(cfg: DecoderConfig, s: Bytes, past: Bytes, c: Point, n: nat, d: Point) {
    AfterTurns(cfg, s, past, c, n).Going? && AfterTurns(cfg, s, past, c, n).point == d
  }

  lemma EarlierEarlier(t: Turned, a: Frames, b: Frames)
    ensures Earlier(Earlier(t, b), a) == Earlier(t, a + b)
  {
    var out := if t.Going? then t.out else t.progress.out;
    assert a + (b + out) == a + b + out;
  }

  /** After turns that do not end the loop, it goes on from where they led. */
  lemma {:induction false} TurnsAdd(cfg: DecoderConfig, s: Bytes, past: Bytes, c: Point, m: nat, n: nat)
    requires AfterTurns(cfg, s, past, c, m).Going?
    ensures var g := AfterTurns(cfg, s, past, c, m);
            AfterTurns(cfg, s, past, c, m + n) == Earlier(AfterTurns(cfg, s, past, g.point, n), g.out)
    decreases m
  {
    hide OneTurn;
    if m == 0 {
      var t := AfterTurns(cfg, s, past, c, n);
      assert Earlier(t, []) == t by {
        assert t.Going? ==> [] + t.out == t.out;
        assert t.Over? ==> [] + t.progress.out == t.progress.out;
      }
    } else {
      var t := OneTurn(cfg, s, past, c);
      TurnsAdd(cfg, s, past, t.point, m - 1, n);
      var g := AfterTurns(cfg, s, past, t.point, m - 1);
      EarlierEarlier(AfterTurns(cfg, s, past, g.point, n), t.out, g.out);
    }
  }

  /** The end of the loop is its end after any more turns, too. */
  lemma {:induction false} OverStays(cfg: DecoderConfig, s: Bytes, past: Bytes, c: Point, m: nat, n: nat)
    requires AfterTurns(cfg, s, past, c, m).Over? && m <= n
    ensures AfterTurns(cfg, s, past, c, n) == AfterTurns(cfg, s, past, c, m)
    decreases m
  {
    hide OneTurn;
    if c.at < |s| && OneTurn(cfg, s, past, c).Going? {
      OverStays(cfg, s, past, OneTurn(cfg, s, past, c).point, m - 1, n - 1);
    }
  }

  lemma ForeverFrom(cfg: DecoderConfig, s: Bytes, past: Bytes, c: Point, m: nat, d: Point)
    requires Reaches(cfg, s, past, c, m, d) && Forever(cfg, s, past, d)
    ensures Forever(cfg, s, past, c)
  {
    forall n: nat ensures AfterTurns(cfg, s, past, c, n).Going? {
      if AfterTurns(cfg, s, past, c, n).Over? {
        if n <= m {
          OverStays(cfg, s, past, c, n, m);
        } else {
          TurnsAdd(cfg, s, past, c, m, n - m);
          assert AfterTurns(cfg, s, past, d, n - m).Going?;
        }
      }
    }
  }

  /** A loop that comes to where it was, in the state in which it was, does not end. */
  lemma {:induction false} CycleGoesOn(cfg: DecoderConfig, s: Bytes, past: Bytes, c: Point, m: nat, n: nat)
    requires 1 <= m && Reaches(cfg, s, past, c, m, c)
    ensures AfterTurns(cfg, s, past, c, n).Going?
    decreases n
  {
    hide AfterTurns;
    if n <= m {
      if AfterTurns(cfg, s, past, c, n).Over? {
        OverStays(cfg, s, past, c, n, m);
      }
    } else {
      TurnsAdd(cfg, s, past, c, m, n - m);
      CycleGoesOn(cfg, s, past, c, m, n - m);
    }
  }

  lemma CycleIsForever(cfg: DecoderConfig, s: Bytes, past: Bytes, c: Point, m: nat)
    requires 1 <= m && Reaches(cfg, s, past, c, m, c)
    ensures Forever(cfg, s, past, c)
  {
    hide AfterTurns;
    forall n: nat ensures AfterTurns(cfg, s, past, c, n).Going? {
      CycleGoesOn(cfg, s, past, c, m, n);
    }
  }

  /** Only a record that is skipped takes the position round, and it leaves nothing of what was there before. */
  lemma WrapIsSkip(cfg: DecoderConfig, asm: Assembly, flush: bool, s: Bytes, past: Bytes, at: nat)
    requires at < |s| <= MAX_DATA && at + OPTION_SIZE <= |s| + |past| && Wraps(s, past, at)
    ensures var p := RecordStep(cfg, asm, flush, HeaderAt(s, past, at), PayloadAt(s, past, at));
            p.verdict == Done ==> p == Progress(EMPTY, [], false, Done)
  {
  }

  /** Where the function comes to an end other than Stalled, so do the turns, and to the same. */
  lemma {:induction false} LoopIsOver(cfg: DecoderConfig, c: Point, s: Bytes, past: Bytes,
                                      back: set<nat>) returns (n: nat)
    requires RecordLoop(cfg, c.asm, c.flush, s, past, c.at, back).verdict != Stalled
    ensures AfterTurns(cfg, s, past, c, n) == Over(RecordLoop(cfg, c.asm, c.flush, s, past, c.at, back))
    decreases Unvisited(|s|, back), |s| - c.at
  {
    hide RecordStep, Unvisited, HeaderAt, PayloadAt;
    if c.at >= |s| {
      return 0;
    }
    if c.at + OPTION_SIZE > |s| + |past| {
      return 1;
    }
    var p := RecordStep(cfg, c.asm, c.flush, HeaderAt(s, past, c.at), PayloadAt(s, past, c.at));
    var next := NextAt(s, past, c.at);
    var d := Point(p.asm, p.flush, next);
    if p.verdict != Done {
      return 1;
    }
    if !Wraps(s, past, c.at) {
      n := LoopIsOver(cfg, d, s, past, back);
    } else if next >= |s| {
      n := 0;
      assert p.out + [] == p.out;
    } else {
      UnvisitedFalls(|s|, back, next);
      n := LoopIsOver(cfg, d, s, past, back + {next});
    }
    n := n + 1;
    assert AfterTurns(cfg, s, past, c, n) == Earlier(AfterTurns(cfg, s, past, d, n - 1), p.out);
  }

  /** The start of every turn after the position went back to `b`. */
  function BackAt(b: nat): Point {
    Point(EMPTY, false, b)
  }

  lemma OneTurnReaches(cfg: DecoderConfig, s: Bytes, past: Bytes, c: Point, d: Point, n: nat, e: Point)
    requires c.at < |s| && OneTurn(cfg, s, past, c).Going? && OneTurn(cfg, s, past, c).point == d
    requires Reaches(cfg, s, past, d, n, e)
    ensures Reaches(cfg, s, past, c, n + 1, e)
  {
    hide OneTurn;
  }

  lemma ForeverNext(cfg: DecoderConfig, s: Bytes, past: Bytes, c: Point, d: Point)
    requires c.at < |s| && OneTurn(cfg, s, past, c).Going? && OneTurn(cfg, s, past, c).point == d
    requires Forever(cfg, s, past, d)
    ensures Forever(cfg, s, past, c)
  {
    hide OneTurn;
    assert AfterTurns(cfg, s, past, d, 0).Going?;
    OneTurnReaches(cfg, s, past, c, d, 0, d);
    ForeverFrom(cfg, s, past, c, 1, d);
  }

  /** Where the function says Stalled, the turns go on for ever, or come back to where they were before. */
  lemma {:induction false} StalledLeads(cfg: DecoderConfig, c: Point, s: Bytes, past: Bytes, back: set<nat>)
    returns (m: nat, b: nat)
    requires |s| <= MAX_DATA && forall x :: x in back ==> x < |s|
    requires RecordLoop(cfg, c.asm, c.flush, s, past, c.at, back).verdict == Stalled
    ensures Forever(cfg, s, past, c) || (1 <= m && b in back && Reaches(cfg, s, past, c, m, BackAt(b)))
    decreases Unvisited(|s|, back), |s| - c.at
  {
    hide RecordStep, Unvisited, HeaderAt, PayloadAt, Forever, Reaches;
    var p := RecordStep(cfg, c.asm, c.flush, HeaderAt(s, past, c.at), PayloadAt(s, past, c.at));
    var next := NextAt(s, past, c.at);
    var d := Point(p.asm, p.flush, next);
    if p.verdict == Stalled {
      StandsStill(cfg, s, past, c);
      return 0, 0;
    }
    if !Wraps(s, past, c.at) {
      m, b := StalledLeads(cfg, d, s, past, back);
    } else {
      WrapIsSkip(cfg, c.asm, c.flush, s, past, c.at);
      if next in back {
        Here(cfg, s, past, d);
        OneTurnReaches(cfg, s, past, c, d, 0, d);
        return 1, next;
      }
      UnvisitedFalls(|s|, back, next);
      m, b := StalledLeads(cfg, d, s, past, back + {next});
      if !Forever(cfg, s, past, d) && b == next {
        CycleIsForever(cfg, s, past, d, m);
      }
    }
    if Forever(cfg, s, past, d) {
      ForeverNext(cfg, s, past, c, d);
    } else {
      OneTurnReaches(cfg, s, past, c, d, m, BackAt(b));
      m := m + 1;
    }
  }

  lemma Here(cfg: DecoderConfig, s: Bytes, past: Bytes, c: Point)
    requires c.at < |s|
    ensures Reaches(cfg, s, past, c, 0, c)
  {
  }

  lemma StandsStill(cfg: DecoderConfig, s: Bytes, past: Bytes, c: Point)
    requires c.at < |s| && OneTurn(cfg, s, past, c) == Going(c, [])
    ensures Forever(cfg, s, past, c)
  {
    hide OneTurn;
    Here(cfg, s, past, c);
    OneTurnReaches(cfg, s, past, c, c, 0, c);
    CycleIsForever(cfg, s, past, c, 1);
  }

  /**
    The record loop of the code does not come back exactly where the function says Stalled; and
    where it does come back, the function tells what it has then done.
   */
  lemma ComesBackExactlyWhen(cfg: DecoderConfig, c: Point, s: Bytes, past: Bytes)
    requires |s| <= MAX_DATA
    ensures var p := RecordLoop(cfg, c.asm, c.flush, s, past, c.at, {});
            && (p.verdict == Stalled <==> Forever(cfg, s, past, c))
            && (p.verdict != Stalled ==> exists n: nat :: AfterTurns(cfg, s, past, c, n) == Over(p))
  {
    hide RecordLoop, AfterTurns;
    if RecordLoop(cfg, c.asm, c.flush, s, past, c.at, {}).verdict == Stalled {
      var m, b := StalledLeads(cfg, c, s, past, {});
    } else {
      var n := LoopIsOver(cfg, c, s, past, {});
      assert AfterTurns(cfg, s, past, c, n).Over?;
    }
  }

  // --- In terms of the octets ---

  /**
    Following the lengths from `at` on, a record lies ahead that can keep the loop from coming back:
    one whose type is neither partial nor complete, or a part that takes the position round.
   */
  predicate CanStall(l2mtu: u16, s: Bytes, past: Bytes, at: nat)
    decreases |s| - at
  {
    && at < |s| && at + OPTION_SIZE <= |s| + |past|
    && var h := HeaderAt(s, past, at);
    || (h.size <= l2mtu && h.kind % 2 == 0 && h.kind != COMPLETE_PACKET)
    || (h.size <= l2mtu && IsPartialType(h.kind) && Wraps(s, past, at))
    || (!Wraps(s, past, at) && CanStall(l2mtu, s, past, NextAt(s, past, at)))
  }

  /** Without such a record the loop comes back, in every state. */
  lemma {:induction false} StalledAtRecord(cfg: DecoderConfig, asm: Assembly, flush: bool, s: Bytes, past: Bytes,
                                           at: nat, back: set<nat>)
    requires |s| <= MAX_DATA && RecordLoop(cfg, asm, flush, s, past, at, back).verdict == Stalled
    ensures CanStall(cfg.l2mtu, s, past, at)
    decreases |s| - at
  {
    hide HeaderAt, PayloadAt, CompleteStep, PartialStep;
    var p := RecordStep(cfg, asm, flush, HeaderAt(s, past, at), PayloadAt(s, past, at));
    StepFlushesOrSkips(cfg, asm, s, past, at);
    if p.verdict == Done && !Wraps(s, past, at) {
      StalledAtRecord(cfg, p.asm, p.flush, s, past, NextAt(s, past, at), back);
    }
  }

  lemma StepFlushesOrSkips(cfg: DecoderConfig, asm: Assembly, s: Bytes, past: Bytes, at: nat)
    requires at < |s| <= MAX_DATA && at + OPTION_SIZE <= |s| + |past|
    ensures var h, payload := HeaderAt(s, past, at), PayloadAt(s, past, at);
            && CompleteStep(cfg, asm, h, payload).verdict in {Done, Dropped}
            && PartialStep(cfg, asm, h, payload).verdict in {Done, Dropped}
            && (CompleteStep(cfg, asm, h, payload).verdict == Done ==> !Wraps(s, past, at))
  {
  }

  /** From `at` on, the octets are whole records of the three known types. */
  predicate Tiled(s: Bytes, at: nat)
    decreases |s| - at
  {
    || at == |s|
    || (&& at + OPTION_SIZE <= |s|
        && 1 <= ReadOption(s, at).kind <= 3
        && at + OPTION_SIZE + ReadOption(s, at).length <= |s|
        && Tiled(s, at + OPTION_SIZE + ReadOption(s, at).length))
  }

  lemma NoBody(rs: seq<Record>)
    requires AllWritable(rs)
    ensures rs == [] ==> BodyBytes(rs) == []
  {
  }

  /** Such are the records an encoder writes. */
  lemma {:induction false} WrittenIsTiled(s: Bytes, at: nat, rs: seq<Record>)
    requires AllWritable(rs) && (forall i :: 0 <= i < |rs| ==> 1 <= rs[i].kind <= 3)
    requires at <= |s| && s[at..] == BodyBytes(rs)
    ensures Tiled(s, at)
    decreases |rs|
  {
    hide ReadOption, BodyBytes;
    NoBody(rs);
    if rs != [] {
      assert BodyBytes(rs) + [] == BodyBytes(rs) && BodyBytes(rs[1..]) + [] == BodyBytes(rs[1..]);
      RecordInverts(s, at, rs, []);
      WrittenIsTiled(s, at + OPTION_SIZE + |rs[0].payload|, rs[1..]);
    }
  }

  /** Where records of the known types tile the octets, there is none that could keep the loop. */
  lemma {:induction false} TiledCannotStall(l2mtu: u16, s: Bytes, past: Bytes, at: nat)
    requires Tiled(s, at) && |s| <= UINT16_MAX
    ensures !CanStall(l2mtu, s, past, at)
    decreases |s| - at
  {
    if at < |s| {
      SameHeader(s, past, at);
      hide ReadOption, HeaderAt;
      TiledCannotStall(l2mtu, s, past, NextAt(s, past, at));
    }
  }

  /** A packet whose records tile it is always decoded to the end or dropped, in every state. */
  lemma {:induction false} TiledComesBack(cfg: DecoderConfig, asm: Assembly, flush: bool, s: Bytes, past: Bytes,
                                          at: nat, back: set<nat>)
    requires Tiled(s, at) && |s| <= UINT16_MAX
    ensures Back(RecordLoop(cfg, asm, flush, s, past, at, back).verdict)
    decreases |s| - at
  {
    if at < |s| {
      SameHeader(s, past, at);
      var p := RecordStep(cfg, asm, flush, HeaderAt(s, past, at), PayloadAt(s, past, at));
      if p.verdict == Done {
        TiledComesBack(cfg, p.asm, p.flush, s, past, NextAt(s, past, at), back);
      }
    }
  }

  /**
    A packet whose first record has type 0, which the check of types lets through: the loop stands
    still at it, in every state, unless it declares a size that gets the packet dropped.
   */
  lemma TypeZeroStalls(cfg: DecoderConfig, st: DecState, s: Bytes, past: Bytes)
    requires HEADER_SIZE <= |s| && !HeaderRejected(s) && OptionsAccepted(s) && s[HEADER_SIZE] == 0
    ensures DecodeIn(cfg, st, s, past).verdict == Stalled <==> ReadOption(s, HEADER_SIZE).size <= cfg.l2mtu
  {
    hide SequenceClears;
    SameHeader(s, past, HEADER_SIZE);
  }

  /** Behind other records, too, any even type but that of a complete record keeps the loop from coming back. */
  lemma UnknownTypeStalls(cfg: DecoderConfig, asm: Assembly, flush: bool, s: Bytes, past: Bytes, at: nat,
                          rs: seq<Record>, tail: Bytes)
    requires AllWritable(rs) && at <= |s| <= UINT16_MAX && s[at..] == BodyBytes(rs) + tail
    requires tail != [] && OPTION_SIZE <= |tail| + |past|
    requires tail[0] % 2 == 0 && tail[0] != COMPLETE_PACKET
    ensures var p := Feed(cfg, asm, flush, rs);
            RecordLoop(cfg, asm, flush, s, past, at, {}).verdict == Stalled <==>
            || p.verdict == Stalled
            || (p.verdict == Done && HeaderAt(s, past, |s| - |tail|).size <= cfg.l2mtu)
  {
    LoopFeeds(cfg, asm, flush, s, past, at, {}, rs, tail);
    TailBegins(s, past, at, BodyBytes(rs), tail);
    hide Feed, BodyBytes, HeaderAt, CompleteStep, PartialStep;
  }

  lemma TailBegins(s: Bytes, past: Bytes, at: nat, body: Bytes, tail: Bytes)
    requires at <= |s| && s[at..] == body + tail && tail != [] && OPTION_SIZE <= |tail| + |past|
    ensures |tail| <= |s| && HeaderAt(s, past, |s| - |tail|).kind == tail[0]
  {
    assert s[|s| - |tail|] == s[at..][|body|] == tail[0];
  }

  /**
    A packet whose first record is a part with the length 0xfff8: the position after it is its own.
    If it is skipped in the state it meets and is not part 1, it is skipped again and again. It is in
    every state if it is part 0.
   */
  lemma SkippedOntoItself(cfg: DecoderConfig, st: DecState, s: Bytes, past: Bytes)
    requires HEADER_SIZE <= |s| <= MAX_DATA && !HeaderRejected(s) && OptionsAccepted(s)
    requires IsPartialType(s[HEADER_SIZE]) && ReadOption(s, HEADER_SIZE).length == 0xfff8
    ensures var h, asm := ReadOption(s, HEADER_SIZE), SequenceStep(st, ReadBe32(s, 4)).asm;
            && (DecodeIn(cfg, st, s, past).verdict == Stalled <==>
                h.size <= cfg.l2mtu && h.part != 1 && OutOfPlace(asm, h))
            && (h.part == 0 ==> OutOfPlace(asm, h))
  {
    hide SequenceClears, ReadOption, Restore, Unvisited, HeaderAt;
    SameHeader(s, past, HEADER_SIZE);
    var h, asm := ReadOption(s, HEADER_SIZE), SequenceStep(st, ReadBe32(s, 4)).asm;
    assert h.kind == s[HEADER_SIZE] by { KindRead(s, HEADER_SIZE); }
    assert NextAt(s, past, HEADER_SIZE) == HEADER_SIZE && PayloadAt(s, past, HEADER_SIZE).None?;
    var p := RecordStep(cfg, asm, true, h, None);
    var q := RecordStep(cfg, EMPTY, false, h, None);
    assert p.verdict == Done ==> p == Progress(EMPTY, [], false, Done);
    assert q.verdict == Done <==> h.size <= cfg.l2mtu && h.part != 1;
    if p.verdict == Done {
      assert RecordLoop(cfg, EMPTY, false, s, past, HEADER_SIZE, {} + {HEADER_SIZE})
          == if q.verdict == Done then q.(verdict := Stalled) else q;
    }
  }

  lemma KindRead(s: Bytes, at: nat)
    requires at + OPTION_SIZE <= |s|
    ensures ReadOption(s, at).kind == s[at]
  {
  }

  // --- Headers read past the data ---

  /**
    Where records are followed by fewer octets than a record header has, the loop reads a header
    past the data if and only if it takes all these records.
   */
  lemma ReadsPastExactlyWhen(cfg: DecoderConfig, asm: Assembly, flush: bool, s: Bytes, at: nat, rs: seq<Record>,
                             tail: Bytes)
    requires AllWritable(rs) && at <= |s| <= UINT16_MAX && s[at..] == BodyBytes(rs) + tail
    requires 0 < |tail| < OPTION_SIZE
    ensures RecordLoop(cfg, asm, flush, s, [], at, {}).verdict == Unframed <==>
            Feed(cfg, asm, flush, rs).verdict == Done
    ensures Feed(cfg, asm, flush, rs).verdict == Done ==>
              RecordLoop(cfg, asm, flush, s, [], at, {}) == Feed(cfg, asm, flush, rs).(verdict := Unframed)
  {
    LoopFeeds(cfg, asm, flush, s, [], at, {}, rs, tail);
    FeedFramed(cfg, asm, flush, rs);
    hide Feed;
    var p := Feed(cfg, asm, flush, rs);
    assert p.out + [] == p.out;
  }

  /**
    Following the lengths from `at` on, something lies ahead that can make the loop read a header past
    the data: less than a header at the end, or a part that takes the position round.
   */
  predicate CanReadPast(l2mtu: u16, s: Bytes, at: nat)
    decreases |s| - at
  {
    && at < |s|
    && (at + OPTION_SIZE > |s|
        || (var h := ReadOption(s, at);
            || (h.size <= l2mtu && IsPartialType(h.kind) && Wraps(s, [], at))
            || (!Wraps(s, [], at) && CanReadPast(l2mtu, s, NextAt(s, [], at)))))
  }

  /** Nothing of that kind lies ahead in the records of an encoder. */
  lemma {:induction false} WrittenIsSafe(l2mtu: u16, s: Bytes, at: nat, rs: seq<Record>)
    requires AllWritable(rs) && at <= |s| <= MAX_DATA && s[at..] == BodyBytes(rs)
    ensures !CanReadPast(l2mtu, s, at)
    decreases |rs|
  {
    hide ReadOption, HeaderAt, BodyBytes;
    NoBody(rs);
    if rs != [] {
      assert BodyBytes(rs) + [] == BodyBytes(rs) && BodyBytes(rs[1..]) + [] == BodyBytes(rs[1..]);
      RecordInverts(s, at, rs, []);
      SameHeader(s, [], at);
      WrittenIsSafe(l2mtu, s, at + OPTION_SIZE + |rs[0].payload|, rs[1..]);
    }
  }

  /** Without that the loop reads nothing past the data, in every state. */
  lemma {:induction false} ReadsPastAtRecord(cfg: DecoderConfig, asm: Assembly, flush: bool, s: Bytes, at: nat,
                                             back: set<nat>)
    requires |s| <= MAX_DATA && RecordLoop(cfg, asm, flush, s, [], at, back).verdict == Unframed
    ensures CanReadPast(cfg.l2mtu, s, at)
    decreases |s| - at
  {
    hide HeaderAt, ReadOption, PayloadAt, CompleteStep, PartialStep, Unvisited;
    if at + OPTION_SIZE <= |s| {
      StepFlushesOrSkips(cfg, asm, s, [], at);
      SameHeader(s, [], at);
      var p := RecordStep(cfg, asm, flush, HeaderAt(s, [], at), PayloadAt(s, [], at));
      if p.verdict == Done && !Wraps(s, [], at) {
        ReadsPastAtRecord(cfg, p.asm, p.flush, s, NextAt(s, [], at), back);
      }
    }
  }

  /** The loop has come to where less than a record header is left of the octets there are. */
  predicate AtShortEnd(s: Bytes, past: Bytes, c: Point) {
    c.at < |s| && |s| + |past| < c.at + OPTION_SIZE
  }

  lemma {:induction false} UnframedComesTo(cfg: DecoderConfig, s: Bytes, past: Bytes, c: Point, n: nat) returns (m: nat)
    requires AfterTurns(cfg, s, past, c, n).Over? && AfterTurns(cfg, s, past, c, n).progress.verdict == Unframed
    ensures AfterTurns(cfg, s, past, c, m).Going? && AtShortEnd(s, past, AfterTurns(cfg, s, past, c, m).point)
    decreases n
  {
    hide RecordStep;
    if AtShortEnd(s, past, c) {
      return 0;
    }
    var t := OneTurn(cfg, s, past, c);
    StepFramed(cfg, s, past, c);
    m := UnframedComesTo(cfg, s, past, t.point, n - 1);
    m := m + 1;
  }

  lemma StepFramed(cfg: DecoderConfig, s: Bytes, past: Bytes, c: Point)
    requires c.at < |s| && c.at + OPTION_SIZE <= |s| + |past|
    ensures RecordStep(cfg, c.asm, c.flush, HeaderAt(s, past, c.at), PayloadAt(s, past, c.at)).verdict != Unframed
  {
  }

  /**
    For all packets: the loop reads a header outside the octets there are exactly where the loop of
    the code, after some turns, has come to less than a header of them.
   */
  lemma UnframedExactlyWhen(cfg: DecoderConfig, c: Point, s: Bytes, past: Bytes)
    requires |s| <= MAX_DATA
    ensures RecordLoop(cfg, c.asm, c.flush, s, past, c.at, {}).verdict == Unframed <==>
            exists n: nat, d: Point :: Reaches(cfg, s, past, c, n, d) && AtShortEnd(s, past, d)
  {
    hide RecordLoop, AfterTurns;
    ComesBackExactlyWhen(cfg, c, s, past);
    var p := RecordLoop(cfg, c.asm, c.flush, s, past, c.at, {});
    if p.verdict == Unframed {
      var n: nat :| AfterTurns(cfg, s, past, c, n) == Over(p);
      var m := UnframedComesTo(cfg, s, past, c, n);
      assert Reaches(cfg, s, past, c, m, AfterTurns(cfg, s, past, c, m).point);
    }
    if n: nat, d: Point :| Reaches(cfg, s, past, c, n, d) && AtShortEnd(s, past, d) {
      ShortEndIsOver(cfg, s, past, c, n, d);
      var k: nat :| AfterTurns(cfg, s, past, c, k) == Over(p);
      OverStays(cfg, s, past, c, n + 1, n + 1 + k);
      OverStays(cfg, s, past, c, k, n + 1 + k);
    }
  }

  lemma ShortEndIsOver(cfg: DecoderConfig, s: Bytes, past: Bytes, c: Point, n: nat, d: Point)
    requires Reaches(cfg, s, past, c, n, d) && AtShortEnd(s, past, d)
    ensures var t := AfterTurns(cfg, s, past, c, n + 1); t.Over? && t.progress.verdict == Unframed
  {
    TurnsAdd(cfg, s, past, c, n, 1);
    assert AfterTurns(cfg, s, past, d, 1) == OneTurn(cfg, s, past, d);
  }

  /**
    A packet whose first record is a part whose length takes the position round, to less than a header
    before the end: a header is read past the data if and only if the part is skipped in the state it
    meets, as part 0 is in every state. With the length 0xffff, 16 octets are such a packet.
   */
  lemma SkippedToTheEnd(cfg: DecoderConfig, st: DecState, s: Bytes)
    requires HEADER_SIZE <= |s| <= MAX_DATA && !HeaderRejected(s) && OptionsAccepted(s)
    requires IsPartialType(s[HEADER_SIZE]) && Wraps(s, [], HEADER_SIZE)
    requires NextAt(s, [], HEADER_SIZE) < |s| < NextAt(s, [], HEADER_SIZE) + OPTION_SIZE
    ensures var h, asm := ReadOption(s, HEADER_SIZE), SequenceStep(st, ReadBe32(s, 4)).asm;
            && (Decode(cfg, st, s).verdict == Unframed <==> h.size <= cfg.l2mtu && OutOfPlace(asm, h))
            && (h.part == 0 ==> OutOfPlace(asm, h))
  {
    hide SequenceClears, ReadOption, Restore, Unvisited, HeaderAt;
    SameHeader(s, [], HEADER_SIZE);
    KindRead(s, HEADER_SIZE);
    var h, asm := ReadOption(s, HEADER_SIZE), SequenceStep(st, ReadBe32(s, 4)).asm;
    assert PayloadAt(s, [], HEADER_SIZE).None?;
    var p := RecordStep(cfg, asm, true, h, None);
    assert p.verdict == Done ==> p == Progress(EMPTY, [], false, Done);
    var next := NextAt(s, [], HEADER_SIZE);
    assert RecordLoop(cfg, EMPTY, false, s, [], next, {} + {next}) == Progress(EMPTY, [], false, Unframed);
  }

  /** Such a packet of 16 octets: a part 0 of length 0xffff. */
  lemma WrapToTheEnd(cfg: DecoderConfig, st: DecState)
    ensures Decode(cfg, st, HeaderBytes(1, 1) + OptionBytes(PARTIAL_PACKET, 0, NONE, 0xffff, 0)).verdict == Unframed
  {
    var s := HeaderBytes(1, 1) + OptionBytes(PARTIAL_PACKET, 0, NONE, 0xffff, 0);
    assert s[HEADER_SIZE..HEADER_SIZE + OPTION_SIZE] == OptionBytes(PARTIAL_PACKET, 0, NONE, 0xffff, 0);
    ReadOptionInverts(s, HEADER_SIZE, PARTIAL_PACKET, 0, NONE, 0xffff, 0);
    SameHeader(s, [], HEADER_SIZE);
    assert s[0] == VERSION_V1 + 0x10 && s[1] == 0 && s[2] == FORMAT_ENCAPSULATED && s[3] == 0;
    assert s[HEADER_SIZE] == PARTIAL_PACKET && s[HEADER_SIZE + 7] == 0;
    hide Decode, ReadOption, HeaderBytes, OptionBytes;
    SkippedToTheEnd(cfg, st, s);
  }

  lemma {:induction false} FeedFramed(cfg: DecoderConfig, asm: Assembly, flush: bool, rs: seq<Record>)
    requires AllWritable(rs)
    ensures Feed(cfg, asm, flush, rs).verdict != Unframed
    decreases |rs|
  {
    if rs != [] {
      var p := Step(cfg, asm, flush, rs[0]);
      FeedFramed(cfg, p.asm, p.flush, rs[1..]);
    }
  }

  /**
    What is read there can do no more than to drop the packet, to be skipped, or to keep the loop
    from coming back: nothing is handed up for it, and nothing of what was under reassembly stays.
   */
  lemma PastTheData(cfg: DecoderConfig, asm: Assembly, flush: bool, s: Bytes, past: Bytes, at: nat)
    requires at < |s| < at + OPTION_SIZE <= |s| + |past|
    ensures var p := RecordStep(cfg, asm, flush, HeaderAt(s, past, at), PayloadAt(s, past, at));
            p.out == [] && (p.verdict == Stalled || p.asm == EMPTY)
  {
  }

  /** One whole frame and one stray octet. */
  lemma StrayOctet(cfg: DecoderConfig, st: DecState, x: byte)
    requires Fresh(st) && 1 <= cfg.l2mtu
    ensures var s := PacketBytes(Packet(1, [Record(COMPLETE_PACKET, 1, NONE, 0, [7])])) + [x];
            Decode(cfg, st, s).verdict == Unframed && Decode(cfg, st, s).out == [[7]]
  {
    hide Feed, RecordLoop, BodyBytes, BodySize, AllWritable;
    var r := Record(COMPLETE_PACKET, 1, NONE, 0, [7]);
    var packet := Packet(1, [r]);
    OneRecord(r);
    HeaderInverts(packet);
    var s := PacketBytes(packet) + [x];
    AcceptsFirst(packet, [x], r);
    assert s[HEADER_SIZE..] == BodyBytes([r]) + [x];
    assert [] + [7] == [7];
    var asm := SequenceStep(st, ReadBe32(s, 4)).asm;
    assert asm == EMPTY;
    FeedOne(cfg, asm, r);
    ReadsPastExactlyWhen(cfg, asm, true, s, HEADER_SIZE, [r], [x]);
  }

  lemma OneRecord(r: Record)
    requires |r.payload| <= 100
    ensures AllWritable([r]) && BodySize([r]) == OPTION_SIZE + |r.payload|
    ensures BodyBytes([r]) == RecordBytes(r)
  {
    assert [r][1..] == [];
  }

  lemma FeedOne(cfg: DecoderConfig, asm: Assembly, r: Record)
    requires Writable(r) && Step(cfg, asm, true, r).verdict == Done
    ensures AllWritable([r]) && Feed(cfg, asm, true, [r]) == Step(cfg, asm, true, r)
  {
    hide RecordStep;
    var p := Step(cfg, asm, true, r);
    assert Feed(cfg, p.asm, p.flush, [r][1..]) == Progress(p.asm, [], p.flush, Done);
    assert p.out + [] == p.out;
  }

  /** More octets after a packet leave what its header says as it was. */
  lemma AcceptsFirst(p: Packet, tail: Bytes, r: Record)
    requires AllWritable(p.records) && p.records == [r] && IsValidType(r.kind)
    ensures var s := PacketBytes(p) + tail;
            && HEADER_SIZE <= |s| && !HeaderRejected(s) && OptionsAccepted(s) && ReadBe32(s, 4) == p.sequence
  {
    var t := PacketBytes(p);
    var s := t + tail;
    HeaderInverts(p);
    assert BodyBytes([r]) + [] == BodyBytes([r]);
    RecordInverts(t, HEADER_SIZE, [r], []);
    assert s[0] == t[0] && s[1] == t[1] && s[2] == t[2] && s[3] == t[3];
    assert s[4] == t[4] && s[5] == t[5] && s[6] == t[6] && s[7] == t[7];
    assert s[8] == t[8] && s[15] == t[15];
  }
}
