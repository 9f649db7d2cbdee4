/** The packet decoder, in place on its buffers and pools. */
module Decoder {
  import opened Bytes
  import opened Wire
  import opened Compression
  import opened Compressors
  import opened Buffers
  import opened Ownership
  import opened DecoderSpec
  import opened Reassembly
  import opened Turns

  class PacketDecoder {
    const l2mtu: u16
    const lz4: StreamCompressor
    const zstd: StreamCompressor
    const available: BufferPool
    const txPool: BufferPool
    var firstPacket: bool
    var lastSequence: u32
    var lastPart: byte
    var lastFormat: byte
    var lastOrigSize: u16
    var txBuffer: Buffer
    var inflight: seq<Buffer>
    var dcompBuffer: Buffer
    // The packet that a decode call has taken and not yet put anywhere.
    ghost var inHand: Buffer?

    // --- The abstract state ---

    ghost function Cfg(): DecoderConfig {
      DecoderConfig(l2mtu, available.bufferSize, lz4.codec, zstd.codec)
    }

    /** The frame under reassembly is what the transmit buffer holds. */
    ghost function Asm(): Assembly
      requires txBuffer.Valid()
      reads this`lastPart, this`lastFormat, this`lastOrigSize, this`txBuffer, txBuffer, lz4, zstd
    {
      Assembly(lastPart, lastFormat, lastOrigSize, txBuffer.Data(), Histories(lz4.decompressed, zstd.decompressed))
    }

    ghost function View(): DecState
      requires txBuffer.Valid()
      reads this`firstPacket, this`lastSequence, this`lastPart, this`lastFormat, this`lastOrigSize, this`txBuffer
      reads txBuffer, lz4, zstd
    {
      DecState(firstPacket, lastSequence, Asm())
    }

    /** All buffers this decoder and its two pools hold. */
    ghost function Held(): multiset<Buffer>
      reads this`inflight, this`txBuffer, this`dcompBuffer, this`inHand, available`pool, txPool`pool
    {
      AllHeld(available.pool, txPool.pool, inflight, txBuffer, dcompBuffer, inHand)
    }

    /** The buffers that a decode call may write to. */
    ghost function Footprint(): set<Buffer>
      reads this`inflight, this`txBuffer, this`dcompBuffer, available`pool
    {
      {txBuffer, dcompBuffer} + (set b | b in available.pool) + (set b | b in inflight)
    }

    ghost predicate PoolsValid()
      reads this`inflight, this`txBuffer, this`dcompBuffer, this`inHand, available, txPool, available.pool, txPool.pool
    {
      && available != txPool && available.bufferSize == txPool.bufferSize
      && available.Valid() && txPool.Valid()
      && AllApart(available.pool, txPool.pool, inflight, txBuffer, dcompBuffer, inHand)
    }

    ghost predicate TxValid()
      reads this`txBuffer, txBuffer
    {
      txBuffer.Valid() && |txBuffer.content| == available.bufferSize
    }

    ghost predicate OthersValid()
      reads this`inflight, this`dcompBuffer, this`inHand, inflight, dcompBuffer, inHand
    {
      && AllOfSize(inflight, available.bufferSize)
      && dcompBuffer.Valid() && |dcompBuffer.content| == available.bufferSize
      && (inHand != null ==> inHand.Valid() && |inHand.content| == available.bufferSize)
    }

    ghost predicate SizesValid() {
      && lz4 != zstd && Bounded(lz4.codec, available.bufferSize) && Bounded(zstd.codec, available.bufferSize)
      && available.bufferSize <= MAX_DATA
    }

    /** All but what the frame under reassembly must be like. */
    ghost predicate Sound()
      reads this`inflight, this`txBuffer, this`dcompBuffer, this`inHand
      reads available, txPool, available.pool, txPool.pool, txBuffer, inflight, dcompBuffer, inHand
    {
      PoolsValid() && TxValid() && OthersValid() && SizesValid()
    }

    ghost predicate Valid()
      reads this, available, txPool, available.pool, txPool.pool, txBuffer, lz4, zstd, inflight, dcompBuffer, inHand
    {
      Sound() && Consistent(Cfg(), Asm())
    }

    /** Ready to take a packet: nothing in hand. */
    ghost predicate Ready()
      reads this, available, txPool, available.pool, txPool.pool, txBuffer, lz4, zstd, inflight, dcompBuffer, inHand
    {
      Valid() && inHand == null
    }

    /** As long as a decompressor has seen anything, packets are kept for it. */
    ghost predicate KeepsPackets()
      reads this`inflight, lz4, zstd
    {
      inflight == [] ==> lz4.decompressed == [] && zstd.decompressed == []
    }

    /** A buffer that is in none of the places where ours are. */
    ghost predicate Elsewhere(b: Buffer)
      reads this`txBuffer, this`dcompBuffer, this`inflight, available`pool, txPool`pool
    {
      b !in available.pool && b !in txPool.pool && b !in inflight && b != txBuffer && b != dcompBuffer
    }

    // --- Construction ---

    /** A decoder with a buffer to decompress into and one for its first frame. */
    constructor (l2mtu: u16, lz4: Codec, zstd: Codec, txPool: BufferPool, available: BufferPool)
      requires available != txPool && available.bufferSize == txPool.bufferSize && available.Valid() && txPool.Valid()
      requires forall b :: b in available.pool ==> b !in txPool.pool
      requires Bounded(lz4, available.bufferSize) && Bounded(zstd, available.bufferSize)
          && available.bufferSize <= MAX_DATA
      modifies available, available.pool
      ensures Valid() && inHand == null && inflight == []
      ensures View() == DecState(true, 0, EMPTY) && Cfg() == DecoderConfig(l2mtu, available.bufferSize, lz4, zstd)
      ensures this.available == available && this.txPool == txPool && txPool.delivered == old(txPool.delivered)
      ensures fresh(this.lz4) && fresh(this.zstd)
      ensures forall b :: b in Footprint() ==> b in old(available.pool) || fresh(b)
      ensures Conserved(multiset(old(available.pool)) + multiset(txPool.pool), old(available.arrived), Held(),
          available.arrived)
    {
      hide AllHeld, AllApart, Drawn, Distinct, BufferPool.Valid, Bounded, Conserved, Consistent, Held, Sound,
        Footprint, AllOfSize, View;
      ghost var av, arr := available.pool, available.arrived;
      PoolDistinct(available);
      this.l2mtu := l2mtu;
      firstPacket := true;
      lastSequence := 0;
      var compressorLZ4 := new StreamCompressor(lz4);
      var compressorZSTD := new StreamCompressor(zstd);
      this.lz4, this.zstd := compressorLZ4, compressorZSTD;
      var buffer := available.PopWait();
      dcompBuffer := buffer;
      this.txPool, this.available := txPool, available;
      txBuffer := buffer;
      inflight, inHand := [], null;
      lastPart, lastFormat, lastOrigSize := 0, NONE, 0;
      new;
      DrawnFrom(av, arr, buffer, available.pool, available.arrived);
      Start(av, arr);
    }

    /** Takes the first transmit buffer, after the one to decompress into. */
    method Start(ghost av: seq<Buffer>, ghost arr: multiset<Buffer>)
      requires available != txPool && available.bufferSize == txPool.bufferSize && available.Valid() && txPool.Valid()
      requires SizesValid() && inflight == [] && inHand == null && firstPacket && lastSequence == 0
      requires lz4.decompressed == [] && zstd.decompressed == []
      requires dcompBuffer.Valid() && |dcompBuffer.content| == available.bufferSize
      requires dcompBuffer !in available.pool && dcompBuffer !in txPool.pool
      requires Drawn(av, arr, dcompBuffer, available.pool, available.arrived)
      requires Distinct(av) && forall b :: b in av ==> b !in txPool.pool
      modifies this`txBuffer, this`lastPart, this`lastFormat, this`lastOrigSize, available, available.Next()
      ensures Valid() && View() == DecState(true, 0, EMPTY)
      ensures Conserved(multiset(av) + multiset(txPool.pool), arr, Held(), available.arrived)
      ensures forall b :: b in Footprint() ==> b == dcompBuffer || b in old(available.pool) || fresh(b)
    {
      hide AllHeld, AllApart, Distinct, BufferPool.Valid, Bounded;
      ghost var av', arr' := available.pool, available.arrived;
      assert forall b :: b in available.Next() ==> b in available.pool && b in av;
      hide Drawn;
      GetTxBuffer();
      DrawsApart(av, arr, dcompBuffer, av', arr', txBuffer, available.pool, available.arrived, txPool.pool);
      DrawsHeld(av, arr, dcompBuffer, av', arr', txBuffer, available.pool, available.arrived, txPool.pool);
      DrawnFrom(av', arr', txBuffer, available.pool, available.arrived);
    }

    // --- Small steps ---

    method ClearState()
      requires TxValid()
      modifies this`lastPart, this`lastFormat, this`lastOrigSize, txBuffer`dataSize
      ensures TxValid() && Asm() == Cleared(old(Asm()))
    {
      txBuffer.Clear();
      lastPart := 0;
      lastFormat := NONE;
      lastOrigSize := 0;
    }

    /** The next buffer to put a frame in. */
    method GetTxBuffer()
      requires available.Valid()
      modifies this`txBuffer, this`lastPart, this`lastFormat, this`lastOrigSize, available, available.Next()
      ensures available.Valid() && txBuffer !in available.pool && TxValid()
      ensures Asm() == Cleared(Asm())
      ensures old(available.pool) == [] ==> fresh(txBuffer)
      ensures Drawn(old(available.pool), old(available.arrived), txBuffer, available.pool, available.arrived)
    {
      txBuffer := available.PopWait();
      ClearState();
    }

    /** Where the buffers that the next frame touches are not. */
    lemma TouchedApart()
      requires PoolsValid()
      ensures txBuffer !in available.pool && txBuffer !in txPool.pool && txBuffer !in inflight
          && txBuffer != dcompBuffer && txBuffer != inHand
      ensures Distinct(available.pool)
      ensures forall b :: b in available.Next() ==>
                b !in txPool.pool && b !in inflight && b != dcompBuffer && b != txBuffer && b != inHand
    {
      assert available.pool != [] ==> available.pool[0] in available.pool;
    }

    /** Hands the frame up: its buffer is ours no more, and an empty one takes its place. */
    method HandUp()
      requires Sound()
      modifies this`txBuffer, this`lastPart, this`lastFormat, this`lastOrigSize, available, txPool, available.Next()
      ensures Sound()
      ensures Asm() == Cleared(old(Asm()))
      ensures txPool.delivered == old(txPool.delivered) + [old(txBuffer.Data())]
      ensures forall b :: b in Footprint() ==> b in old(Footprint()) || fresh(b)
      ensures Conserved(old(Held()), old(available.arrived), Held(), available.arrived)
      ensures forall b :: b in txPool.pool ==> b in old(txPool.pool) || b in old(Footprint()) || fresh(b)
    {
      hide BufferPool.Valid, AllHeld, AllApart, Drawn, Distinct, AllOfSize;
      TouchedApart();
      ghost var first, av, tx, arr := txBuffer, available.pool, txPool.pool, available.arrived;
      var ok := txPool.Push(txBuffer);
      assert ok;
      GetTxBuffer();
      HeldMoves(av, available.pool, tx, inflight, dcompBuffer, inHand, first, txBuffer, arr, available.arrived);
      ApartMoves(av, available.pool, tx, inflight, dcompBuffer, inHand, first, txBuffer, arr, available.arrived);
    }

    /** Gives the packets kept for the decompressors back to the pool, and resets both. */
    method FlushInflight()
      requires Sound()
      modifies this`inflight, available, lz4, zstd
      ensures Sound() && inflight == []
      ensures Asm() == old(Asm()).(histories := NO_HISTORY)
      ensures forall b :: b in Footprint() ==> b in old(Footprint())
      ensures Held() == old(Held()) && available.arrived == old(available.arrived)
    {
      hide AllHeld, AllApart, Distinct, Bounded;
      InflightApart();
      HeldReturns(available.pool, txPool.pool, inflight, txBuffer, dcompBuffer, inHand);
      ApartReturns(available.pool, txPool.pool, inflight, txBuffer, dcompBuffer, inHand);
      if inflight != [] {
        var ok := available.PushAll(inflight);
        assert ok;
        inflight := [];
      } else {
        assert available.pool + [] == available.pool;
      }
      lz4.ResetDecompressionStream();
      zstd.ResetDecompressionStream();
    }

    lemma InflightApart()
      requires PoolsValid() && OthersValid()
      ensures Distinct(inflight) && forall b :: b in inflight ==> b.Valid() && b !in available.pool
    {
    }

    /** The packet in hand joins those in flight. */
    method PushInflight(packet: Buffer)
      requires Sound() && inHand == packet
      modifies this`inflight, this`inHand
      ensures Sound() && inHand == null && inflight == old(inflight) + [packet]
      ensures Asm() == old(Asm())
      ensures forall b :: b in Footprint() ==> b in old(Footprint()) || b == packet
      ensures Held() == old(Held())
    {
      hide AllHeld, AllApart, Distinct, AllOfSize, BufferPool.Valid;
      HeldJoins(available.pool, txPool.pool, inflight, txBuffer, dcompBuffer, packet);
      ApartJoins(available.pool, txPool.pool, inflight, txBuffer, dcompBuffer, packet);
      AllOfSizeSnoc(inflight, packet, available.bufferSize);
      inflight := inflight + [packet];
      inHand := null;
    }

    /** A packet that is of no use, or of no further use: forget what it was part of, and let go of it. */
    method ClearStateAndFlushInflight(packet: Buffer)
      requires Sound() && inHand == packet
      modifies this`lastPart, this`lastFormat, this`lastOrigSize, this`inflight, this`inHand, txBuffer`dataSize
      modifies available, lz4, zstd
      ensures Valid() && inHand == null && inflight == []
      ensures Asm() == EMPTY
      ensures Held() == old(Held()) && available.arrived == old(available.arrived)
      ensures forall b :: b in Footprint() ==> b in old(Footprint()) || b == packet
    {
      hide AllHeld, AllApart, Distinct, AllOfSize, BufferPool.Valid, Bounded;
      TouchedApart();
      ClearState();
      PushInflight(packet);
      FlushInflight();
    }

    /** In the middle of a packet: forget the frame under reassembly, and what was in flight. */
    method ClearAndFlush()
      requires Sound()
      modifies this`lastPart, this`lastFormat, this`lastOrigSize, this`inflight, txBuffer`dataSize, available, lz4, zstd
      ensures Valid() && inflight == [] && Asm() == EMPTY
      ensures Held() == old(Held()) && available.arrived == old(available.arrived)
      ensures forall b :: b in Footprint() ==> b in old(Footprint())
    {
      hide AllHeld, AllApart, Distinct, AllOfSize, BufferPool.Valid, Bounded;
      TouchedApart();
      ClearState();
      FlushInflight();
    }

    /** Decompresses with the compressor for a format. */
    method Decompress(format: byte, data: Bytes) returns (frame: Option<Bytes>)
      requires lz4 != zstd && txBuffer.Valid() && IsCompressed(format)
      modifies lz4, zstd
      ensures Restore(Cfg(), old(Asm()).histories, format, data) ==
              if frame.Some? then Some((frame.value, Asm().histories)) else None
    {
      if format == COMPRESSED_LZ4 {
        frame := lz4.Decompress(data);
      } else {
        frame := zstd.Decompress(data);
      }
    }

    /** Replaces what the transmit buffer holds. */
    method FillTx(data: Bytes)
      requires Sound() && |data| <= available.bufferSize
      modifies txBuffer
      ensures Sound() && Asm() == old(Asm()).(partial := data)
    {
      hide AllApart, Distinct, AllOfSize, BufferPool.Valid, Bounded;
      TouchedApart();
      txBuffer.Write(0, data);
      var ok := txBuffer.SetDataSize(|data|);
      assert ok;
    }

    /** Adds to what the transmit buffer holds; there is always room, so nothing throws. */
    method AppendTx(data: Bytes)
      requires Sound() && |Asm().partial| + |data| <= available.bufferSize
      modifies txBuffer
      ensures Sound() && Asm() == old(Asm()).(partial := old(Asm()).partial + data)
    {
      hide AllApart, Distinct, AllOfSize, BufferPool.Valid, Bounded;
      TouchedApart();
      var ok := txBuffer.Append(data);
      assert ok;
    }

    /** Decompresses what was put together, into the other buffer, which then is the one to hand up. */
    method SwapIn(data: Bytes)
      requires Sound() && |data| <= available.bufferSize
      modifies this`txBuffer, this`dcompBuffer, dcompBuffer
      ensures Sound() && Asm() == old(Asm()).(partial := data)
      ensures Held() == old(Held()) && Footprint() == old(Footprint())
    {
      hide AllApart, Distinct, AllOfSize, BufferPool.Valid, Bounded, AllHeld;
      HeldSwapped(available.pool, txPool.pool, inflight, txBuffer, dcompBuffer, inHand);
      ApartSwapped(available.pool, txPool.pool, inflight, txBuffer, dcompBuffer, inHand);
      DcompApart();
      dcompBuffer.Write(0, data);
      var ok := dcompBuffer.SetDataSize(|data|);
      assert ok;
      txBuffer, dcompBuffer := dcompBuffer, txBuffer;
    }

    lemma DcompApart()
      requires PoolsValid()
      ensures dcompBuffer !in available.pool && dcompBuffer !in txPool.pool && dcompBuffer !in inflight
      ensures dcompBuffer != txBuffer && dcompBuffer != inHand
    {
    }

    /** Puts the payload of a complete record in the transmit buffer; `ok` is false if it cannot be read. */
    method LoadComplete(h: OptionHeader, payload: Bytes) returns (ok: bool)
      requires Sound() && |Asm().partial| + |payload| <= available.bufferSize
      modifies txBuffer, lz4, zstd
      ensures Sound()
      ensures var asm := old(Asm());
              var data := if IsCompressed(h.format) then payload else asm.partial + payload;
              match Restore(Cfg(), asm.histories, h.format, data)
              case None => !ok
              case Some((frame, histories)) => ok && Asm() == asm.(partial := frame, histories := histories)
    {
      hide PoolsValid, TxValid, OthersValid;
      TxIsValid();
      if IsCompressed(h.format) {
        var frame := Decompress(h.format, payload);
        if frame.None? {
          return false;
        }
        Fits(h.format, old(Asm()).histories, payload);
        FillTx(frame.value);
      } else {
        AppendTx(payload);
      }
      return true;
    }

    lemma TxIsValid()
      requires Sound()
      ensures txBuffer.Valid() && |txBuffer.content| == available.bufferSize && lz4 != zstd && txPool != available
      ensures txBuffer != dcompBuffer && available.bufferSize <= MAX_DATA
    {
    }

    lemma Fits(format: byte, histories: Histories, data: Bytes)
      requires Sound()
      ensures var r := Restore(Cfg(), histories, format, data);
              IsCompressed(format) && r.Some? ==> |r.value.0| <= available.bufferSize
    {
    }

    /** Gives up the packet in hand at a record. */
    method Discard(packet: Buffer) returns (verdict: Verdict)
      requires Sound() && inHand == packet
      modifies this`lastPart, this`lastFormat, this`lastOrigSize, this`inflight, this`inHand, txBuffer`dataSize
      modifies available, lz4, zstd
      ensures Valid() && verdict == Dropped && inHand == null && inflight == [] && Asm() == EMPTY
      ensures forall b :: b in Footprint() ==> b in old(Footprint()) || b == packet
      ensures Conserved(old(Held()), old(available.arrived), Held(), available.arrived)
    {
      hide Sound, Consistent, Footprint, Held, Conserved;
      ClearStateAndFlushInflight(packet);
      NothingMoved(Held(), available.arrived);
      return Dropped;
    }

    /** A whole frame: it is read and, if it is as long as declared, handed up. */
    method TakeWhole(packet: Buffer, h: OptionHeader, payload: Bytes) returns (verdict: Verdict)
      requires Sound() && inHand == packet && |Asm().partial| + |payload| <= available.bufferSize
      modifies this`lastPart, this`lastFormat, this`lastOrigSize, this`txBuffer, this`inflight, this`inHand
      modifies available, txPool, lz4, zstd, Footprint()
      ensures Valid()
      ensures var asm := old(Asm());
              var data := if IsCompressed(h.format) then payload else asm.partial + payload;
              match Restore(Cfg(), asm.histories, h.format, data)
              case Some((frame, histories)) =>
                if |frame| == h.size then
                  verdict == Done && Asm() == Cleared(asm.(histories := histories))
                  && txPool.delivered == old(txPool.delivered) + [frame]
                else
                  verdict == Dropped && Asm() == EMPTY && txPool.delivered == old(txPool.delivered)
              case None => verdict == Dropped && Asm() == EMPTY && txPool.delivered == old(txPool.delivered)
      ensures if verdict == Done then inHand == packet else inHand == null && inflight == []
      ensures forall b :: b in Footprint() ==> b in old(Footprint()) || b == packet || fresh(b)
      ensures Conserved(old(Held()), old(available.arrived), Held(), available.arrived)
      ensures forall b :: b in txPool.pool ==> b in old(txPool.pool) || b in old(Footprint()) || b == packet || fresh(b)
    {
      hide Sound, Restore, Held, Conserved, Footprint;
      TxIsValid();
      DcompInFootprint();
      NothingMoved(Held(), available.arrived);
      var ok := LoadComplete(h, payload);
      TxIsValid();
      DcompInFootprint();
      if !ok || txBuffer.dataSize != h.size {
        verdict := Discard(packet);
        return;
      }
      HandUp();
      return Done;
    }

    /** A record that holds a whole frame. */
    method CompleteRecord(packet: Buffer, h: OptionHeader, payload: Option<Bytes>) returns (verdict: Verdict)
      requires Valid() && inHand == packet && (payload.Some? ==> |payload.value| <= available.bufferSize)
      modifies this`lastPart, this`lastFormat, this`lastOrigSize, this`txBuffer, this`inflight, this`inHand
      modifies available, txPool, lz4, zstd, Footprint()
      ensures Valid()
      ensures var p := CompleteStep(Cfg(), old(Asm()), h, payload);
              verdict == p.verdict && Asm() == p.asm && txPool.delivered == old(txPool.delivered) + p.out
      ensures if verdict == Done then inHand == packet else inHand == null && inflight == []
      ensures forall b :: b in Footprint() ==> b in old(Footprint()) || b == packet || fresh(b)
      ensures Conserved(old(Held()), old(available.arrived), Held(), available.arrived)
      ensures forall b :: b in txPool.pool ==> b in old(txPool.pool) || b in old(Footprint()) || b == packet || fresh(b)
    {
      hide Sound, Restore, Held, Conserved, Footprint;
      TxIsValid();
      DcompInFootprint();
      NothingMoved(Held(), available.arrived);
      if lastPart != 0 {
        ClearAndFlush();
        TxIsValid();
        DcompInFootprint();
      }
      if h.part != 0 || payload.None? {
        verdict := Discard(packet);
      } else {
        verdict := TakeWhole(packet, h, payload.value);
      }
    }

    /** Reads what was put together from the parts; `ok` is false if it cannot be read. */
    method LoadWhole(format: byte) returns (ok: bool)
      requires Sound()
      modifies this`txBuffer, this`dcompBuffer, dcompBuffer, lz4, zstd
      ensures Sound() && Held() == old(Held()) && Footprint() == old(Footprint())
      ensures match Restore(Cfg(), old(Asm()).histories, format, old(Asm()).partial)
              case Some((frame, _)) => ok && Asm().partial == frame
              case None => !ok
    {
      hide Sound, Restore, Held, Footprint;
      TxIsValid();
      if IsCompressed(format) {
        var frame := Decompress(format, txBuffer.Data());
        if frame.None? {
          return false;
        }
        Fits(format, old(Asm()).histories, old(Asm()).partial);
        SwapIn(frame.value);
        TxIsValid();
      } else {
        RestorePlain(Cfg(), old(Asm()).histories, format, old(Asm()).partial);
      }
      return true;
    }

    /** The last part is in: what was put together is read and, if it is as long as declared, handed up. */
    method FinishFrame(packet: Buffer, h: OptionHeader) returns (verdict: Verdict)
      requires Sound() && inHand == packet
      modifies this`lastPart, this`lastFormat, this`lastOrigSize, this`txBuffer, this`dcompBuffer, this`inflight
      modifies this`inHand
      modifies available, txPool, lz4, zstd, Footprint()
      ensures Valid()
      ensures match Restore(Cfg(), old(Asm()).histories, h.format, old(Asm()).partial)
              case Some((frame, _)) =>
                if |frame| == h.size then
                  verdict == Done && Asm() == EMPTY && txPool.delivered == old(txPool.delivered) + [frame]
                else
                  verdict == Dropped && Asm() == EMPTY && txPool.delivered == old(txPool.delivered)
              case None => verdict == Dropped && Asm() == EMPTY && txPool.delivered == old(txPool.delivered)
      ensures if verdict == Done then inHand == packet else inHand == null && inflight == []
      ensures forall b :: b in Footprint() ==> b in old(Footprint()) || b == packet || fresh(b)
      ensures Conserved(old(Held()), old(available.arrived), Held(), available.arrived)
      ensures forall b :: b in txPool.pool ==> b in old(txPool.pool) || b in old(Footprint()) || b == packet || fresh(b)
    {
      hide Sound, Restore, Held, Conserved, Footprint;
      TxIsValid();
      DcompInFootprint();
      NothingMoved(Held(), available.arrived);
      var ok := LoadWhole(h.format);
      TxIsValid();
      DcompInFootprint();
      if !ok || txBuffer.dataSize != h.size {
        verdict := Discard(packet);
        return;
      }
      HandUp();
      FlushInflight();
      return Done;
    }

    lemma DcompInFootprint()
      ensures txBuffer in Footprint() && dcompBuffer in Footprint() && available.Next() <= Footprint()
    {
    }

    /** A record that holds a part of a frame. */
    method PartialRecord(packet: Buffer, h: OptionHeader, payload: Option<Bytes>) returns (verdict: Verdict)
      requires Valid() && inHand == packet && IsPartialType(h.kind)
      modifies this`lastPart, this`lastFormat, this`lastOrigSize, this`txBuffer, this`dcompBuffer, this`inflight
      modifies this`inHand
      modifies available, txPool, lz4, zstd, Footprint()
      ensures Valid()
      ensures var p := PartialStep(Cfg(), old(Asm()), h, payload);
              verdict == p.verdict && Asm() == p.asm && txPool.delivered == old(txPool.delivered) + p.out
      ensures if verdict == Done then inHand == packet else inHand == null && inflight == []
      ensures forall b :: b in Footprint() ==> b in old(Footprint()) || b == packet || fresh(b)
      ensures Conserved(old(Held()), old(available.arrived), Held(), available.arrived)
      ensures forall b :: b in txPool.pool ==> b in old(txPool.pool) || b in old(Footprint()) || b == packet || fresh(b)
    {
      hide Sound, Restore, Held, Conserved, Footprint;
      TxIsValid();
      DcompInFootprint();
      NothingMoved(Held(), available.arrived);
      // The first part of a frame while another is not complete, a part out of turn, or one whose
      // record does not agree with the one before.
      if (h.part == 1 && lastPart != 0)
        || h.part as int != lastPart as int + 1
        || (lastPart != 0 && h.size != lastOrigSize)
        || (lastPart != 0 && lastFormat != h.format)
      {
        ClearAndFlush();
        return Done;
      }
      if payload.None? {
        verdict := Discard(packet);
        return;
      }
      if txBuffer.dataSize + |payload.value| > |txBuffer.content| {
        verdict := Discard(packet);
        return;
      }
      if !IsCompressed(h.format) && txBuffer.dataSize + |payload.value| > h.size {
        verdict := Discard(packet);
        return;
      }
      AppendTx(payload.value);
      if IsCompleteType(h.kind) {
        verdict := FinishFrame(packet, h);
        return;
      }
      lastPart := h.part;
      lastFormat := h.format;
      lastOrigSize := h.size;
      return Done;
    }

    /** The packet number: whether the frame under reassembly can still be completed. */
    method CheckSequence(sequence: u32)
      requires Valid()
      modifies this`firstPacket, this`lastSequence
      modifies this`lastPart, this`lastFormat, this`lastOrigSize, this`inflight, txBuffer`dataSize, available, lz4, zstd
      ensures Valid() && View() == SequenceStep(old(View()), sequence)
      ensures Held() == old(Held()) && available.arrived == old(available.arrived)
      ensures forall b :: b in Footprint() ==> b in old(Footprint())
    {
      hide Sound, Consistent, Held, Footprint, SequenceClears;
      TxIsValid();
      if firstPacket {
        firstPacket := false;
        lastSequence := (sequence - 1) % 0x1_0000_0000;
      }
      FollowSequence(sequence);
    }

    /** A packet number above the one expected, or below it and not wrapped around, costs us that frame. */
    method FollowSequence(sequence: u32)
      requires Valid()
      modifies this`lastSequence
      modifies this`lastPart, this`lastFormat, this`lastOrigSize, this`inflight, txBuffer`dataSize, available, lz4, zstd
      ensures Valid() && lastSequence == sequence
      ensures Asm() == if SequenceClears(old(lastSequence), sequence) then EMPTY else old(Asm())
      ensures Held() == old(Held()) && available.arrived == old(available.arrived)
      ensures forall b :: b in Footprint() ==> b in old(Footprint())
    {
      hide Sound, Consistent, Held, Footprint;
      TxIsValid();
      var expected := (lastSequence + 1) % 0x1_0000_0000;
      if sequence > expected {
        ClearAndFlush();
      }
      if sequence < expected {
        if SequenceWraps(sequence, lastSequence) {
          lastSequence := 0;
        } else {
          ClearAndFlush();
        }
      }
      lastSequence := sequence;
    }

    /**
      Reads the option headers a packet announces, up to the first that ends them. The position of
      that one is returned, 0 if the headers are not as they must be.
     */
    method ScanOptions(data: Bytes) returns (headerPos: nat)
      requires HEADER_SIZE <= |data|
      ensures headerPos == if OptionsAccepted(data) then HEADER_SIZE else 0
    {
      var count := OptLen(data);
      var current := HEADER_SIZE;
      headerPos := 0;
      var num := 0;
      while num < count
        invariant 0 <= num <= count && current == HEADER_SIZE + num * OPTION_SIZE && current <= |data|
        invariant num > 0 ==> count == num == 1 && headerPos == HEADER_SIZE && OptionsAccepted(data)
        invariant num == 0 ==> headerPos == 0
      {
        if OPTION_SIZE > |data| - current {
          return 0;
        }
        if data[current + 7] != 0 {
          return 0;
        }
        if headerPos == 0 {
          if IsValidType(data[current]) {
            if num + 1 != count {
              return 0;
            }
            headerPos := current;
          } else {
            return 0;
          }
        }
        current := current + OPTION_SIZE;
        num := num + 1;
      }
    }

    /** One turn of the record loop. */
    method DecodeRecord(packet: Buffer, flush: bool, h: OptionHeader, payload: Option<Bytes>)
      returns (verdict: Verdict, flush': bool)
      requires Valid() && inHand == packet && (payload.Some? ==> |payload.value| <= available.bufferSize)
      modifies this`lastPart, this`lastFormat, this`lastOrigSize, this`txBuffer, this`dcompBuffer, this`inflight
      modifies this`inHand
      modifies available, txPool, lz4, zstd, Footprint()
      ensures Valid()
      ensures var p := RecordStep(Cfg(), old(Asm()), flush, h, payload);
              && verdict == p.verdict && Asm() == p.asm && txPool.delivered == old(txPool.delivered) + p.out
              && flush' == p.flush
      ensures if verdict == Dropped then inHand == null && inflight == [] else inHand == packet
      ensures forall b :: b in Footprint() ==> b in old(Footprint()) || b == packet || fresh(b)
      ensures Conserved(old(Held()), old(available.arrived), Held(), available.arrived)
      ensures forall b :: b in txPool.pool ==> b in old(txPool.pool) || b in old(Footprint()) || b == packet || fresh(b)
    {
      hide Sound, Held, Conserved, CompleteStep, PartialStep, Consistent, Footprint;
      TxIsValid();
      DcompInFootprint();
      StepFlushes(Cfg(), Asm(), h, payload);
      flush' := true;
      if h.size > l2mtu {
        verdict := Discard(packet);
      } else if h.kind == COMPLETE_PACKET {
        verdict := CompleteRecord(packet, h, payload);
      } else if IsPartialType(h.kind) {
        verdict := PartialRecord(packet, h, payload);
        flush' := verdict != Done;
      } else {
        NothingMoved(Held(), available.arrived);
        verdict, flush' := Stalled, flush;
      }
    }

    /**
      The record loop over the packet in hand, which holds `data` and after it what earlier packets
      left. The position is a 16-bit number; where it comes back to a place it went back to before,
      the original goes on for ever, and so it does at a record of no known type.
     */
    method RunRecords(packet: Buffer, data: Bytes, past: Bytes) returns (verdict: Verdict, flush: bool)
      requires Valid() && inHand == packet && HEADER_SIZE <= |data| && |data| + |past| <= available.bufferSize
      modifies this`lastPart, this`lastFormat, this`lastOrigSize, this`txBuffer, this`dcompBuffer, this`inflight
      modifies this`inHand
      modifies available, txPool, lz4, zstd, Footprint(), packet
      ensures Valid()
      ensures var p := RecordLoop(Cfg(), old(Asm()), true, data, past, HEADER_SIZE, {});
              && verdict == p.verdict && Asm() == p.asm && txPool.delivered == old(txPool.delivered) + p.out
              && flush == p.flush
      ensures if verdict == Dropped then inHand == null && inflight == [] else inHand == packet
      ensures forall b :: b in Footprint() ==> b in old(Footprint()) || b == packet || fresh(b)
      ensures Conserved(old(Held()), old(available.arrived), Held(), available.arrived)
      ensures forall b :: b in txPool.pool ==> b in old(txPool.pool) || b in old(Footprint()) || b == packet || fresh(b)
    {
      hide Sound, Held, Conserved, Consistent, Footprint, RecordLoop, RecordStep, LoopSoFar, HeaderAt, PayloadAt,
        NextAt, Wraps, Unvisited;
      TxIsValid();
      NothingMoved(Held(), available.arrived);
      ghost var cfg, asm, sent, held, arrived := Cfg(), Asm(), txPool.delivered, Held(), available.arrived;
      ghost var done: Frames := [];
      LoopStarts(cfg, asm, data, past);
      var pos: nat, back: set<nat> := HEADER_SIZE, {};
      verdict, flush := Done, true;
      while pos < |data|
        invariant Valid() && inHand == packet && txBuffer.Valid() && verdict == Done
        invariant LoopSoFar(cfg, asm, Asm(), flush, data, past, pos, back, done)
        invariant txPool.delivered == sent + done
        invariant Conserved(held, arrived, Held(), available.arrived)
        invariant forall b :: b in txPool.pool ==>
                    b in old(txPool.pool) || b in old(Footprint()) || b == packet || fresh(b)
        invariant forall b :: b in Footprint() ==> b in old(Footprint()) || b == packet || fresh(b)
        decreases Unvisited(|data|, back), |data| - pos
      {
        if pos + OPTION_SIZE > |data| + |past| {
          LoopLeavesBuffer(cfg, asm, Asm(), flush, data, past, pos, back, done);
          verdict := Unframed;
          return;
        }
        var h, payload, next := HeaderAt(data, past, pos), PayloadAt(data, past, pos), NextAt(data, past, pos);
        ghost var asm', flush', held', arrived' := Asm(), flush, Held(), available.arrived;
        TurnFits(data, past, pos);
        verdict, flush := DecodeRecord(packet, flush, h, payload);
        Carry(held, arrived, held', arrived', Held(), available.arrived);
        LoopTurns(cfg, asm, asm', flush', data, past, pos, back, done);
        done := done + RecordStep(cfg, asm', flush', h, payload).out;
        TxIsValid();
        if verdict != Done {
          return;
        }
        if Wraps(data, past, pos) && next < |data| {
          if next in back {
            verdict := Stalled;
            return;
          }
          UnvisitedFalls(|data|, back, next);
          back := back + {next};
        }
        pos := next;
      }
      LoopEnds(cfg, asm, Asm(), flush, data, past, pos, back, done);
    }

    /** Where only buffers of ours and new ones moved, the others stay elsewhere. */
    twostate lemma OthersStay()
      requires forall b :: b in Footprint() ==> b in old(Footprint()) || b == old(inHand) || fresh(b)
      requires forall b :: b in txPool.pool ==>
                 b in old(txPool.pool) || b in old(Footprint()) || b == old(inHand) || fresh(b)
      ensures forall b: Buffer ::
                old(allocated(b)) && b !in old(Footprint()) && b !in old(txPool.pool) && b != old(inHand) ==>
                  Elsewhere(b)
    {
      forall b: Buffer |
        old(allocated(b)) && b !in old(Footprint()) && b !in old(txPool.pool) && b != old(inHand)
        ensures Elsewhere(b)
      {
        assert b !in Footprint();
      }
    }

    lemma ElsewhereMeans()
      ensures forall b: Buffer :: Elsewhere(b) ==> b !in Footprint() && b !in txPool.pool
    {
    }

    /** Takes a packet in hand. */
    ghost method Receive(packet: Buffer)
      requires Valid() && inHand == null && packet.Valid() && |packet.content| == available.bufferSize
          && Elsewhere(packet)
      modifies this`inHand
      ensures Valid() && inHand == packet && View() == old(View()) && Footprint() == old(Footprint())
      ensures Held() == old(Held()) + multiset{packet}
    {
      hide AllHeld, AllApart, Distinct, BufferPool.Valid, Consistent, AllOfSize;
      HeldGives(available.pool, txPool.pool, inflight, txBuffer, dcompBuffer, packet);
      ApartNew(available.pool, txPool.pool, inflight, txBuffer, dcompBuffer, packet);
      inHand := packet;
    }

    /** A packet too short for a header: it goes straight back, and the transmit buffer is emptied. */
    method Refuse(packet: Buffer)
      requires Valid() && inHand == packet
      modifies this`inHand, txBuffer`dataSize, available
      ensures Valid() && inHand == null
      ensures View() == old(View()).(asm := old(Asm()).(partial := []))
      ensures forall b :: b in Footprint() ==> b in old(Footprint()) || b == packet
      ensures Conserved(old(Held()), old(available.arrived), Held(), available.arrived)
    {
      hide AllHeld, AllApart, Distinct, AllOfSize;
      TouchedApart();
      ApartInHand(available.pool, txPool.pool, inflight, txBuffer, dcompBuffer, packet);
      HeldGives(available.pool, txPool.pool, inflight, txBuffer, dcompBuffer, packet);
      ApartGives(available.pool, txPool.pool, inflight, txBuffer, dcompBuffer, packet);
      var ok := available.Push(packet);
      assert ok;
      txBuffer.Clear();
      inHand := null;
      NothingMoved(Held(), available.arrived);
    }

    /** After the record loop: the packet joins those in flight, which are let go of if nothing needs them. */
    method EndPacket(packet: Buffer, flush: bool)
      requires Valid() && inHand == packet
      modifies this`inflight, this`inHand, available, lz4, zstd
      ensures Valid() && inHand == null
      ensures Asm() == old(Asm()).(histories := if flush then NO_HISTORY else old(Asm()).histories)
      ensures inflight == if flush then [] else old(inflight) + [packet]
      ensures forall b :: b in Footprint() ==> b in old(Footprint()) || b == packet
      ensures Conserved(old(Held()), old(available.arrived), Held(), available.arrived)
    {
      hide Sound, Held, Footprint;
      PushInflight(packet);
      if flush {
        FlushInflight();
      }
      NothingMoved(Held(), available.arrived);
    }

    /** The records of a packet, and what becomes of it after the last. */
    method DecodeRecords(packet: Buffer, data: Bytes, past: Bytes) returns (verdict: Verdict)
      requires Valid() && inHand == packet && HEADER_SIZE <= |data| && |data| + |past| <= available.bufferSize
      modifies this`lastPart, this`lastFormat, this`lastOrigSize, this`txBuffer, this`dcompBuffer, this`inflight
      modifies this`inHand
      modifies available, txPool, lz4, zstd, Footprint(), packet
      ensures Valid()
      ensures var p := RecordLoop(Cfg(), old(Asm()), true, data, past, HEADER_SIZE, {});
              && verdict == p.verdict && txPool.delivered == old(txPool.delivered) + p.out
              && Asm() == p.asm.(histories := if verdict == Done && p.flush then NO_HISTORY else p.asm.histories)
              && (verdict == Done ==> if p.flush then inflight == [] else EndsIn(inflight, packet))
      ensures inHand == if verdict == Stalled || verdict == Unframed then packet else null
      ensures verdict == Dropped ==> inflight == []
      ensures forall b :: b in Footprint() ==> b in old(Footprint()) || b == packet || fresh(b)
      ensures Conserved(old(Held()), old(available.arrived), Held(), available.arrived)
      ensures forall b :: b in txPool.pool ==> b in old(txPool.pool) || b in old(Footprint()) || b == packet || fresh(b)
    {
      hide Sound, Held, Conserved, Consistent, Footprint, RecordLoop;
      ghost var held, arrived := Held(), available.arrived;
      TxIsValid();
      DcompInFootprint();
      var flush;
      verdict, flush := RunRecords(packet, data, past);
      TxIsValid();
      if verdict == Done {
        ghost var held', arrived' := Held(), available.arrived;
        EndPacket(packet, flush);
        Carry(held, arrived, held', arrived', Held(), available.arrived);
      }
    }

    /** A packet whose header is accepted: its number, its options, its records. */
    method DecodeBody(packet: Buffer, data: Bytes, past: Bytes) returns (verdict: Verdict)
      requires Valid() && inHand == packet && HEADER_SIZE <= |data| && |data| + |past| <= available.bufferSize
      requires !HeaderRejected(data)
      modifies this`firstPacket, this`lastSequence
      modifies this`lastPart, this`lastFormat, this`lastOrigSize, this`txBuffer, this`dcompBuffer, this`inflight
      modifies this`inHand
      modifies available, txPool, lz4, zstd, Footprint(), packet
      ensures Valid()
      ensures var d := DecodeIn(Cfg(), old(View()), data, past);
              verdict == d.verdict && View() == d.state && txPool.delivered == old(txPool.delivered) + d.out
      ensures inHand == if verdict == Stalled || verdict == Unframed then packet else null
      ensures verdict == Dropped ==> inflight == []
      ensures verdict == Done ==>
                if LetsGo(Cfg(), old(View()), data, past) then inflight == [] else EndsIn(inflight, packet)
      ensures forall b :: b in Footprint() ==> b in old(Footprint()) || b == packet || fresh(b)
      ensures Conserved(old(Held()), old(available.arrived), Held(), available.arrived)
      ensures forall b :: b in txPool.pool ==> b in old(txPool.pool) || b in old(Footprint()) || b == packet || fresh(b)
    {
      hide Sound, Held, Conserved, Consistent, Footprint, RecordLoop, SequenceStep, HeaderRejected, EndsIn;
      TxIsValid();
      DcompInFootprint();
      CheckSequence(ReadBe32(data, 4));
      TxIsValid();
      DcompInFootprint();
      var pos := ScanOptions(data);
      if pos == 0 {
        verdict := Discard(packet);
        return;
      }
      verdict := DecodeRecords(packet, data, past);
      TxIsValid();
    }

    /**
      Takes a packet. The buffer is ours from here on; the frames handed up and the state after are
      what the transition on values says of the octets in use and those after them in the buffer. The
      packet stays in hand only where the original does not come back from its record loop, or reads
      outside the buffer.
     */
    method Decode(packet: Buffer) returns (verdict: Verdict)
      requires Ready() && packet.Valid() && |packet.content| == available.bufferSize && Elsewhere(packet)
      modifies this`firstPacket, this`lastSequence
      modifies this`lastPart, this`lastFormat, this`lastOrigSize, this`txBuffer, this`dcompBuffer, this`inflight
      modifies this`inHand
      modifies available, txPool, lz4, zstd, Footprint(), packet
      ensures Valid() && (Back(verdict) ==> Ready())
      ensures var d := DecodeIn(Cfg(), old(View()), old(packet.Data()), old(packet.content[packet.dataSize..]));
              verdict == d.verdict && View() == d.state && txPool.delivered == old(txPool.delivered) + d.out
      ensures inHand == if verdict == Stalled || verdict == Unframed then packet else null
      ensures verdict == Dropped && old(packet.dataSize) >= 8 ==> inflight == []
      ensures verdict == Done ==>
                if LetsGo(Cfg(), old(View()), old(packet.Data()), old(packet.content[packet.dataSize..]))
                then inflight == []
                else EndsIn(inflight, packet)
      ensures old(KeepsPackets()) && Back(verdict) ==> KeepsPackets()
      ensures forall b :: b in Footprint() ==> b in old(Footprint()) || b == packet || fresh(b)
      ensures Conserved(old(Held()) + multiset{packet}, old(available.arrived), Held(), available.arrived)
      ensures forall b: Buffer :: old(allocated(b)) && old(Elsewhere(b)) && b != packet ==> Elsewhere(b)
    {
      hide Sound, Held, Conserved, Consistent, Footprint, SequenceStep, EndOfPacket, AllApart, OptionsAccepted, LetsGo,
        Elsewhere;
      PacketFits(packet);
      ElsewhereMeans();
      TxIsValid();
      DcompInFootprint();
      NothingSeen(Cfg(), View(), packet.Data(), packet.content[packet.dataSize..]);
      Receive(packet);
      label InHand:
      if packet.dataSize < HEADER_SIZE {
        Refuse(packet);
        OthersStay@InHand();
        return Dropped;
      }
      var data := packet.Data();
      if HeaderRejected(data) {
        verdict := Discard(packet);
        OthersStay@InHand();
        return;
      }
      verdict := DecodeBody(packet, data, packet.content[packet.dataSize..]);
      OthersStay@InHand();
    }

    /** Sets the number of the packet received last; before the first packet this has no effect. */
    method SetLastSequence(number: u32)
      requires Ready()
      modifies this`lastSequence
      ensures Ready() && View() == old(View()).(lastSequence := number)
    {
      hide Sound, Consistent;
      TxIsValid();
      lastSequence := number;
    }

    lemma PacketFits(packet: Buffer)
      requires Sound() && packet.Valid() && |packet.content| == available.bufferSize
      ensures packet.Data() == packet.content[..packet.dataSize]
          && packet.dataSize <= |packet.content| == available.bufferSize
    {
    }
  }

  lemma RestorePlain(cfg: DecoderConfig, histories: Histories, format: byte, data: Bytes)
    requires !IsCompressed(format)
    ensures Restore(cfg, histories, format, data) == Some((data, histories))
  {
  }

  lemma StepFlushes(cfg: DecoderConfig, asm: Assembly, h: OptionHeader, payload: Option<Bytes>)
    ensures var p := CompleteStep(cfg, asm, h, payload); p.flush && p.verdict in {Done, Dropped}
    ensures var p := PartialStep(cfg, asm, h, payload); p.flush == (p.verdict != Done) && p.verdict in {Done, Dropped}
  {
  }

  /** The record loop has come to `pos`, has handed up `done`, and goes on from `now`. */
  ghost predicate LoopSoFar(cfg: DecoderConfig, asm: Assembly, now: Assembly, flush: bool, data: Bytes, past: Bytes,
                            pos: nat, back: set<nat>, done: Frames)
  {
    After(RecordLoop(cfg, now, flush, data, past, pos, back), done)
    == RecordLoop(cfg, asm, true, data, past, HEADER_SIZE, {})
  }

  lemma LoopStarts(cfg: DecoderConfig, asm: Assembly, data: Bytes, past: Bytes)
    ensures LoopSoFar(cfg, asm, asm, true, data, past, HEADER_SIZE, {}, [])
  {
    hide RecordLoop;
    var p := RecordLoop(cfg, asm, true, data, past, HEADER_SIZE, {});
    assert [] + p.out == p.out;
  }

  lemma LoopLeavesBuffer(cfg: DecoderConfig, asm: Assembly, now: Assembly, flush: bool, data: Bytes, past: Bytes,
                         pos: nat, back: set<nat>, done: Frames)
    requires LoopSoFar(cfg, asm, now, flush, data, past, pos, back, done)
    requires pos < |data| && |data| + |past| < pos + OPTION_SIZE
    ensures RecordLoop(cfg, asm, true, data, past, HEADER_SIZE, {}) == Progress(now, done, flush, Unframed)
  {
    assert RecordLoop(cfg, now, flush, data, past, pos, back) == Progress(now, [], flush, Unframed);
    assert done + [] == done;
  }

  lemma TurnFits(data: Bytes, past: Bytes, pos: nat)
    requires pos + OPTION_SIZE <= |data| + |past|
    ensures PayloadAt(data, past, pos).Some? ==> |PayloadAt(data, past, pos).value| <= |data|
    ensures !Wraps(data, past, pos) ==> NextAt(data, past, pos) > pos
  {
  }

  /** One turn of the record loop. */
  lemma LoopTurns(cfg: DecoderConfig, asm: Assembly, now: Assembly, flush: bool, data: Bytes, past: Bytes, pos: nat,
                  back: set<nat>, done: Frames)
    requires LoopSoFar(cfg, asm, now, flush, data, past, pos, back, done)
    requires pos < |data| && pos + OPTION_SIZE <= |data| + |past|
    ensures var p := RecordStep(cfg, now, flush, HeaderAt(data, past, pos), PayloadAt(data, past, pos));
            var next, all := NextAt(data, past, pos), RecordLoop(cfg, asm, true, data, past, HEADER_SIZE, {});
            && p.verdict != Unframed
            && if p.verdict != Done then
                 all == After(p, done)
               else if Wraps(data, past, pos) && next < |data| && next in back then
                 all == After(p.(verdict := Stalled), done)
               else
                 var back' := if Wraps(data, past, pos) && next < |data| then back + {next} else back;
                 LoopSoFar(cfg, asm, p.asm, p.flush, data, past, next, back', done + p.out)
  {
    hide RecordStep, HeaderAt, PayloadAt, NextAt, Wraps, Unvisited;
    var p := RecordStep(cfg, now, flush, HeaderAt(data, past, pos), PayloadAt(data, past, pos));
    NeverUnframed(cfg, now, flush, HeaderAt(data, past, pos), PayloadAt(data, past, pos));
    var next := NextAt(data, past, pos);
    if p.verdict == Done && !(Wraps(data, past, pos) && next < |data| && next in back) {
      var back' := if Wraps(data, past, pos) && next < |data| then back + {next} else back;
      var q := RecordLoop(cfg, p.asm, p.flush, data, past, next, back');
      assert RecordLoop(cfg, now, flush, data, past, pos, back) == After(q, p.out) by {
        assert p.out + [] == p.out;
      }
      assert done + (p.out + q.out) == done + p.out + q.out;
    }
  }

  lemma NeverUnframed(cfg: DecoderConfig, asm: Assembly, flush: bool, h: OptionHeader, payload: Option<Bytes>)
    ensures RecordStep(cfg, asm, flush, h, payload).verdict != Unframed
  {
  }

  lemma LoopEnds(cfg: DecoderConfig, asm: Assembly, now: Assembly, flush: bool, data: Bytes, past: Bytes, pos: nat,
                 back: set<nat>, done: Frames)
    requires LoopSoFar(cfg, asm, now, flush, data, past, pos, back, done) && pos >= |data|
    ensures RecordLoop(cfg, asm, true, data, past, HEADER_SIZE, {}) == Progress(now, done, flush, Done)
  {
    assert RecordLoop(cfg, now, flush, data, past, pos, back) == Progress(now, [], flush, Done);
    assert done + [] == done;
  }

  /** A decoded packet after which nothing in flight is needed any more. */
  ghost predicate LetsGo(cfg: DecoderConfig, st: DecState, s: Bytes, past: Bytes) {
    && HEADER_SIZE <= |s| && !HeaderRejected(s) && OptionsAccepted(s)
    && RecordLoop(cfg, SequenceStep(st, ReadBe32(s, 4)).asm, true, s, past, HEADER_SIZE, {}).flush
  }

  ghost predicate EndsIn(bs: seq<Buffer>, b: Buffer) {
    bs != [] && bs[|bs| - 1] == b
  }

  /** Where nothing in flight is needed any more, the decompressors begin anew. */
  lemma NothingSeen(cfg: DecoderConfig, st: DecState, s: Bytes, past: Bytes)
    requires Consistent(cfg, st.asm)
    ensures var d := DecodeIn(cfg, st, s, past);
            (d.verdict == Done && LetsGo(cfg, st, s, past)) || (d.verdict == Dropped && HEADER_SIZE <= |s|) ==>
              d.state.asm.histories == NO_HISTORY
  {
    hide RecordLoop, SequenceClears;
    if HEADER_SIZE <= |s| && !HeaderRejected(s) && OptionsAccepted(s) {
      RecordLoopKeeps(cfg, SequenceStep(st, ReadBe32(s, 4)).asm, true, s, past, HEADER_SIZE, {});
    }
  }
}
