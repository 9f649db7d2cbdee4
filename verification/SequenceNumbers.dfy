/** Packet numbers over runs of any length, and what the decoder makes of them. */
module SequenceNumbers {
  import opened Bytes
  import opened EncoderSpec
  import opened DecoderSpec
  import opened Packing

  // Numbers in use: 1 .. UINT32_MAX - 1.
  const CYCLE := UINT32_MAX - 1

  /** Position of a packet number in the cycle; UINT32_MAX is about to become 1. */
  function Slot(sequence: u32): nat
    requires 1 <= sequence
  {
    (sequence - 1) % CYCLE
  }

  /** The number of the `i`-th packet from a given slot on. */
  function Nth(slot: nat, i: nat): (s: u32)
    ensures 1 <= s < UINT32_MAX
  {
    1 + (slot + i) % CYCLE
  }

  ghost predicate Numbered(st: EncState, e: Emission)
    requires 1 <= st.sequence
  {
    && 1 <= e.state.sequence
    && Slot(e.state.sequence) == (Slot(st.sequence) + |e.packets|) % CYCLE
    && forall i :: 0 <= i < |e.packets| ==> e.packets[i].sequence == Nth(Slot(st.sequence), i)
  }

  lemma ModAdd(a: nat, b: nat)
    ensures (a % CYCLE + b) % CYCLE == (a + b) % CYCLE
  {
    var q := a / CYCLE;
    var x := a % CYCLE + b;
    assert a + b == x + q * CYCLE;
    ModShift(x, q);
  }

  lemma {:induction false} ModShift(x: nat, q: nat)
    ensures (x + q * CYCLE) % CYCLE == x % CYCLE
    decreases q
  {
    if q > 0 {
      ModShift(x, q - 1);
      var y := x + (q - 1) * CYCLE;
      assert x + q * CYCLE == y + CYCLE;
      assert (y + CYCLE) % CYCLE == y % CYCLE;
    }
  }

  /** Numbering carries over from one emission to the next. */
  lemma NumberedThen(st: EncState, e: Emission, f: Emission)
    requires 1 <= st.sequence && Numbered(st, e) && Numbered(e.state, f)
    ensures Numbered(st, Then(f, e.packets))
  {
    var g := Then(f, e.packets);
    var s, n := Slot(st.sequence), |e.packets|;
    ModAdd(s + n, |f.packets|);
    forall i | 0 <= i < |g.packets| ensures g.packets[i].sequence == Nth(s, i) {
      if i >= n {
        ModAdd(s + n, i - n);
        assert g.packets[i] == f.packets[i - n];
      } else {
        assert g.packets[i] == e.packets[i];
      }
    }
  }

  lemma NothingNumbered(st: EncState, st': EncState)
    requires 1 <= st.sequence == st'.sequence
    ensures Numbered(st, Emission(st', []))
  {
  }

  lemma FlushNumbered(st: EncState)
    requires 1 <= st.sequence
    ensures Numbered(st, FlushPacket(st)) && Numbered(st, Flush(st))
  {
  }

  lemma {:induction false} SplitNumbered(cfg: EncoderConfig, st: EncState, data: Bytes, size: u16, format: byte,
                                         pos: nat, part: byte)
    requires Sized(cfg) && pos <= |data| && (pos < |data| ==> Room(cfg, st) > 0)
    requires 1 <= st.sequence
    ensures Numbered(st, Split(cfg, st, data, size, format, pos, part))
    decreases |data| - pos
  {
    hide Numbered, Room, PartRecord, DataSize, PartSize;
    if pos == |data| {
      NothingNumbered(st, st);
    } else {
      SplitStepRoom(cfg, st, data, size, format, pos, part);
      var st' := AddRecord(st, PartRecord(cfg, st, data, size, format, pos, part));
      var e := SplitStep(cfg, st, data, size, format, pos, part);
      assert Numbered(st, e) && 1 <= e.state.sequence by {
        if DataSize(st') == cfg.l4mtu {
          FlushNumbered(st');
          SameSequence(st, st', e);
        } else {
          NothingNumbered(st, st');
        }
      }
      var n := PartSize(cfg, st, |data| - pos);
      SplitNumbered(cfg, e.state, data, size, format, pos + n, (part + 1) % 0x100);
      NumberedThen(st, e, Split(cfg, e.state, data, size, format, pos + n, (part + 1) % 0x100));
    }
  }

  lemma SameSequence(a: EncState, b: EncState, e: Emission)
    requires 1 <= a.sequence == b.sequence && Numbered(b, e)
    ensures Numbered(a, e) && 1 <= e.state.sequence
  {
  }

  lemma EncodeNumbered(cfg: EncoderConfig, st: EncState, frame: Bytes)
    requires Sized(cfg) && Settled(cfg, st) && 1 <= st.sequence
    ensures Numbered(st, Encode(cfg, st, frame))
  {
    hide Split, WellMade;
    if |frame| <= cfg.l2mtu {
      var input := Compressed(cfg, st.history, frame);
      var e := Place(cfg, st, |frame|, input);
      if |input.data| > Room(cfg, st) {
        SplitNumbered(cfg, st.(history := input.history), input.data, |frame|, input.format, 0, 1);
      }
      assert Numbered(st, e);
      FlushNumbered(e.state);
      NumberedThen(st, e, Flush(e.state));
    }
  }

  /**
    Over a run of any length the packets are numbered 1 .. UINT32_MAX - 1 round and round, without
    a gap, and neither 0 nor UINT32_MAX is ever used.
   */
  lemma {:induction false} RunNumbered(cfg: EncoderConfig, st: EncState, events: seq<Event>)
    requires Sized(cfg) && Settled(cfg, st) && 1 <= st.sequence
    ensures Numbered(st, Run(cfg, st, events))
    decreases |events|
  {
    hide Encode, Flush, WellMade, Numbered;
    if events == [] {
      NothingNumbered(st, st);
    } else {
      var e := match events[0] {
        case Frame(data) => EncodePacks(cfg, st, data); Encode(cfg, st, data)
        case Flushing => Flush(st)
      };
      assert Numbered(st, e) && Settled(cfg, e.state) by {
        match events[0] {
          case Frame(data) => EncodePacks(cfg, st, data); EncodeNumbered(cfg, st, data);
          case Flushing => FlushNumbered(st); FlushPacks(cfg, st);
        }
      }
      SameSequence(st, st, e);
      RunNumbered(cfg, e.state, events[1..]);
      NumberedThen(st, e, Run(cfg, e.state, events[1..]));
    }
  }

  // --- The receiving side ---

  /**
    When a packet number makes the decoder give up a half received frame: unless it is the one
    after the last number, or lies so far below the last one that the numbering may have wrapped.
   */
  lemma ClearsExactlyWhen(last: u32, sequence: u32)
    ensures !SequenceClears(last, sequence) <==>
            || sequence as int == (last as int + 1) % 0x1_0000_0000
            || (last != UINT32_MAX && sequence as int < last as int - UINT32_MAX / 2)
  {
  }

  /** A gap that straddles the wrap goes unnoticed: packets UINT32_MAX - 1 and 1 to 4 are missing. */
  lemma GapAcrossWrapUnnoticed()
    ensures !SequenceClears(UINT32_MAX - 2, 5)
  {
  }

  /** In order, and across any number of wraps, no packet number makes the decoder clear its state. */
  lemma InOrderNeverClears(slot: nat, i: nat)
    ensures !SequenceClears(Nth(slot, i), Nth(slot, i + 1))
  {
    ModAdd(slot + i, 1);
  }

  /** Within half the number range, in positions and in numbers, the decoder tells the next packet from every other. */
  lemma WindowClears(slot: nat, i: nat, j: nat)
    requires -0x7fff_ffff <= i - j <= 0x7fff_ffff
    requires -0x7fff_ffff <= Nth(slot, i) as int - Nth(slot, j) as int <= 0x7fff_ffff
    ensures SequenceClears(Nth(slot, i), Nth(slot, j)) <==> j != i + 1
  {
    ClearsExactlyWhen(Nth(slot, i), Nth(slot, j));
    if j == i + 1 {
      InOrderNeverClears(slot, i);
    }
    if Nth(slot, j) as int == Nth(slot, i) as int + 1 {
      NextIsOne(slot, i, j);
    }
  }

  /** Packets `i` and then `j` are told apart from neighbours, or are neighbours. */
  predicate ToldApart(slot: nat, i: nat, j: nat) {
    j == i + 1 || (Nth(slot, j) != Nth(slot, i) + 1 && Nth(slot, j) >= Nth(slot, i) - UINT32_MAX / 2)
  }

  /** That is just when the decoder, after packet `i`, gives up its frame for `j` if and only if `j` is not the next. */
  lemma ToldApartExactlyWhen(slot: nat, i: nat, j: nat)
    ensures ToldApart(slot, i, j) <==> (SequenceClears(Nth(slot, i), Nth(slot, j)) <==> j != i + 1)
  {
    ClearsExactlyWhen(Nth(slot, i), Nth(slot, j));
    if j == i + 1 {
      InOrderNeverClears(slot, i);
    }
  }

  lemma WindowToldApart(slot: nat, i: nat, j: nat)
    requires -0x7fff_ffff <= i - j <= 0x7fff_ffff
    requires -0x7fff_ffff <= Nth(slot, i) as int - Nth(slot, j) as int <= 0x7fff_ffff
    ensures ToldApart(slot, i, j)
  {
    WindowClears(slot, i, j);
    ToldApartExactlyWhen(slot, i, j);
  }

  lemma NextIsOne(slot: nat, i: nat, j: nat)
    requires -CYCLE < i - j < CYCLE - 1 && Nth(slot, j) as int == Nth(slot, i) as int + 1
    ensures j == i + 1
  {
    var a, b := slot + i + 1, slot + j;
    assert a / CYCLE * CYCLE + a % CYCLE == a && b / CYCLE * CYCLE + b % CYCLE == b;
    ModAdd(slot + i, 1);
  }
}
