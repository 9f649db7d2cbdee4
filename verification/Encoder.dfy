/** The packet encoder, in place on its buffers and pools. */
module Encoder {
  import opened Bytes
  import opened Wire
  import opened Compression
  import opened Compressors
  import opened Buffers
  import opened Ownership
  import opened EncoderSpec
  import Spec = EncoderSpec
  import opened Packing

  class PacketEncoder {
    const l2mtu: u16
    const l4mtu: u16
    const lz4: Codec
    const zstd: Codec
    const available: BufferPool
    const txPool: BufferPool
    var sequence: u32
    var txBuffer: Buffer
    var inflight: seq<Buffer>
    var format: byte
    var compressor: StreamCompressor?
    var compBuffer: Buffer?
    var optLen: u16
    var packetCount: u32
    // The records written to the pending packet.
    ghost var records: seq<Record>
    // The buffer that an encode call has taken and not yet put anywhere.
    ghost var inHand: Buffer?

    // --- The abstract state ---

    ghost function Cfg(): EncoderConfig
      reads this`format
    {
      EncoderConfig(l2mtu, l4mtu, available.bufferSize, format, if format == COMPRESSED_LZ4 then lz4 else zstd)
    }

    ghost function View(): EncState
      reads this`sequence, this`records, this`compressor, compressor
    {
      EncState(sequence, records, if compressor == null then [] else compressor.compressed)
    }

    /** All buffers this encoder and its two pools hold. */
    ghost function Held(): multiset<Buffer>
      reads this`inflight, this`txBuffer, this`compBuffer, this`inHand, available`pool, txPool`pool
    {
      AllHeld(available.pool, txPool.pool, inflight, txBuffer, compBuffer, inHand)
    }

    /** No buffer is in two places. */
    ghost predicate Apart()
      reads this`inflight, this`txBuffer, this`compBuffer, this`inHand, available`pool, txPool`pool
    {
      AllApart(available.pool, txPool.pool, inflight, txBuffer, compBuffer, inHand)
    }

    /** The buffers that filling and sending packets may write to. */
    ghost function Territory(): set<Buffer>
      reads this`txBuffer, available`pool
    {
      {txBuffer} + set b | b in available.pool
    }

    /** The buffers that this encoder may write to or give away, now or later. */
    ghost function Footprint(): set<Buffer?>
      reads this`txBuffer, this`inflight, this`compBuffer, this`inHand, available`pool
    {
      {txBuffer, compBuffer, inHand} + (set b | b in available.pool) + (set b | b in inflight)
    }

    /** Where only packets were filled and sent, the footprint grew no more than the territory did. */
    twostate lemma FootprintGrows()
      requires inflight == old(inflight) && compBuffer == old(compBuffer) && inHand == old(inHand)
      requires forall b :: b in Territory() ==> b in old(Territory()) || fresh(b)
      ensures forall b :: b in Footprint() ==> b in old(Footprint()) || b == null || fresh(b)
    {
      forall b | b in Footprint() ensures b in old(Footprint()) || b == null || fresh(b) {
        if b != null && b in available.pool {
          assert b in Territory();
        } else if b == txBuffer {
          assert txBuffer in Territory();
        }
      }
    }

    lemma FootprintHas()
      ensures txBuffer in Territory() && available.Next() <= Territory()
      ensures compBuffer in Footprint()
      ensures forall b :: b in Territory() ==> b in Footprint()
      ensures forall b :: b in inflight ==> b in Footprint()
    {
    }

    ghost predicate PoolsValid()
      reads this`inflight, this`txBuffer, this`compBuffer, this`inHand, available, txPool, available.pool, txPool.pool
    {
      && available != txPool && available.bufferSize == txPool.bufferSize
      && available.Valid() && txPool.Valid() && Apart()
    }

    /** The pending packet: a header left blank, then the records; counters to match. */
    ghost predicate PendingValid()
      reads this`txBuffer, this`optLen, this`packetCount, this`records, txBuffer
    {
      && txBuffer.Valid() && |txBuffer.content| == available.bufferSize
      && WellMade(records) && txBuffer.dataSize == HEADER_SIZE + BodySize(records)
      && txBuffer.content[HEADER_SIZE..txBuffer.dataSize] == BodyBytes(records)
      && packetCount == |records| && optLen == if records == [] then 0 else 1
    }

    /** The compressor has seen exactly the frames in the in-flight buffers. */
    ghost predicate CompressionValid()
      reads this`format, this`compressor, this`inflight, this`compBuffer, this`inHand, compressor, inflight
      reads compBuffer, inHand
    {
      && AllOfSize(inflight, available.bufferSize)
      && (compBuffer != null ==> compBuffer.Valid() && |compBuffer.content| == available.bufferSize)
      && (inHand != null ==> inHand.Valid() && |inHand.content| == available.bufferSize)
      && (if format == NONE then compressor == null && inflight == []
          else && compressor != null && compressor.codec == Cfg().codec
               && compressor.compressed == Datas(inflight))
    }

    ghost predicate Valid()
      reads this, available, txPool, available.pool, txPool.pool, txBuffer, compressor, inflight, compBuffer, inHand
    {
      PoolsValid() && PendingValid() && CompressionValid() && Sized(Cfg())
    }

    /** Ready to take a frame: nothing in hand, a buffer for the compressor, and room for a record. */
    ghost predicate Ready()
      reads this, available, txPool, available.pool, txPool.pool, txBuffer, compressor, inflight, compBuffer, inHand
    {
      Valid() && compBuffer != null && inHand == null && Settled(Cfg(), View())
    }

    /** A buffer that is in none of the places where ours are. */
    ghost predicate Elsewhere(b: Buffer)
      reads this`txBuffer, this`compBuffer, this`inflight, available`pool, txPool`pool
    {
      b !in available.pool && b !in txPool.pool && b !in inflight && b != txBuffer && b != compBuffer
    }

    // --- Construction ---

    /** An encoder with a buffer for its compressor and one for its first packet, format NONE. */
    constructor (l2mtu: u16, l4mtu: u16, lz4: Codec, zstd: Codec, txPool: BufferPool, available: BufferPool)
      requires available != txPool && available.bufferSize == txPool.bufferSize && available.Valid() && txPool.Valid()
      requires forall b :: b in available.pool ==> b !in txPool.pool
      requires Sized(EncoderConfig(l2mtu, l4mtu, available.bufferSize, NONE, zstd))
      modifies available, available.pool
      ensures Ready() && format == NONE && View() == InitialState(1)
      ensures this.l2mtu == l2mtu && this.l4mtu == l4mtu && this.lz4 == lz4 && this.zstd == zstd
      ensures this.available == available && this.txPool == txPool && inflight == []
      ensures forall b :: b in Footprint() ==> b == null || b in old(available.pool) || fresh(b)
      ensures txPool.delivered == old(txPool.delivered)
      ensures Conserved(multiset(old(available.pool)) + multiset(txPool.pool), old(available.arrived), Held(),
          available.arrived)
    {
      hide AllWritable, AllHeld, AllApart, Drawn, Distinct, BufferPool.Valid, BodySize, BodyBytes, PendingValid, Sized,
        Conserved, Held, Footprint, Apart, Bounded, Settled;
      ghost var av, arr := available.pool, available.arrived;
      PoolDistinct(available);
      this.l2mtu, this.l4mtu, this.lz4, this.zstd := l2mtu, l4mtu, lz4, zstd;
      sequence := 1;
      format := NONE;
      compressor := null;
      inflight, inHand := [], null;
      var buffer := available.PopWait();
      compBuffer := buffer;
      this.txPool, this.available := txPool, available;
      txBuffer := buffer;
      optLen, packetCount, records := 0, 0, [];
      new;
      Start(av, arr, buffer);
      InitiallySettled(Cfg(), 1);
    }

    /** Begins the first packet, after the buffer for the compressor was taken. */
    method Start(ghost av: seq<Buffer>, ghost arr: multiset<Buffer>, comp: Buffer)
      requires available != txPool && available.bufferSize == txPool.bufferSize && available.Valid() && txPool.Valid()
      requires Sized(Cfg()) && compBuffer == comp && inflight == [] && inHand == null
      requires format == NONE && compressor == null && sequence == 1
      requires comp.Valid() && |comp.content| == available.bufferSize && comp !in available.pool && comp !in txPool.pool
      requires Drawn(av, arr, comp, available.pool, available.arrived)
      requires Distinct(av) && forall b :: b in av ==> b !in txPool.pool
      modifies this`txBuffer, this`optLen, this`packetCount, this`records, available, available.Next()
      ensures Valid() && View() == InitialState(1)
      ensures Conserved(multiset(av) + multiset(txPool.pool), arr, Held(), available.arrived)
      ensures forall b :: b in Footprint() ==> b == null || b == comp || b in old(available.pool) || fresh(b)
    {
      hide AllWritable, AllHeld, AllApart, Distinct, BufferPool.Valid, BodySize, BodyBytes, PendingValid, Bounded;
      ghost var av', arr' := available.pool, available.arrived;
      assert forall b :: b in available.Next() ==> b in available.pool && b in av;
      hide Drawn;
      GetTxBuffer();
      DrawsApart(av, arr, comp, av', arr', txBuffer, available.pool, available.arrived, txPool.pool);
      DrawsHeld(av, arr, comp, av', arr', txBuffer, available.pool, available.arrived, txPool.pool);
      DrawnFrom(av', arr', txBuffer, available.pool, available.arrived);
    }

    // --- Small steps ---

    /** The next buffer for a packet, its header left blank. */
    method GetTxBuffer()
      requires available.Valid() && HEADER_SIZE <= available.bufferSize
      modifies this`txBuffer, this`optLen, this`packetCount, this`records, available, available.Next()
      ensures available.Valid() && txBuffer !in available.pool
      ensures PendingValid() && records == []
      ensures old(available.pool) == [] ==> fresh(txBuffer)
      ensures Drawn(old(available.pool), old(available.arrived), txBuffer, available.pool, available.arrived)
    {
      txBuffer := available.PopWait();
      txBuffer.Clear();
      var ok := txBuffer.SetDataSize(HEADER_SIZE);
      assert ok;
      optLen := 0;
      packetCount := 0;
      records := [];
    }

    /** Fills in the header left blank at the start of the pending packet. */
    method WriteHeader()
      requires PendingValid() && records != []
      modifies this`sequence, txBuffer`content
      ensures txBuffer.Valid() && |txBuffer.content| == old(|txBuffer.content|)
      ensures var s: u32 := if old(sequence) == UINT32_MAX then 1 else old(sequence);
              sequence == s + 1 && txBuffer.Data() == PacketBytes(Packet(s, records))
    {
      BodyBytesSize(records);
      if sequence == UINT32_MAX {
        sequence := 1;
      }
      ghost var body := txBuffer.content[HEADER_SIZE..txBuffer.dataSize];
      txBuffer.Write(0, HeaderBytes(optLen, sequence));
      HeaderInPlace(old(txBuffer.content), HeaderBytes(optLen, sequence), txBuffer.dataSize, body);
      sequence := sequence + 1;
    }

    lemma PendingEmpty()
      requires PendingValid()
      ensures txBuffer.Valid() && |txBuffer.content| == available.bufferSize && HEADER_SIZE <= txBuffer.dataSize
      ensures txBuffer.dataSize == HEADER_SIZE <==> records == []
    {
      EmptyBody(records);
    }

    /** Where the buffers that the next packet touches are not. */
    lemma TouchedApart()
      requires PoolsValid()
      ensures txBuffer !in available.pool && txBuffer !in txPool.pool && txBuffer !in inflight
           && txBuffer != compBuffer && txBuffer != inHand
      ensures Distinct(available.pool)
      ensures forall b :: b in available.Next() ==>
                b !in txPool.pool && b !in inflight && b != compBuffer && b != txBuffer && b != inHand
    {
      assert available.pool != [] ==> available.pool[0] in available.pool;
    }

    /** Hands the pending packet, its header filled in, to the socket pool; its buffer is ours no more. */
    method Enqueue()
      requires Valid() && records != []
      modifies this`sequence, txPool, txBuffer`content
      ensures var e := Spec.FlushPacket(old(View()));
              sequence == e.state.sequence && txPool.delivered == old(txPool.delivered) + WireAll(e.packets)
      ensures txPool.pool == old(txPool.pool) + [txBuffer]
      ensures txPool.Valid() && available.Valid() && CompressionValid() && HEADER_SIZE <= available.bufferSize
    {
      hide BodySize, BodyBytes, AllWritable, PacketBytes, HeaderBytes, WellMade, BufferPool.Valid, CompressionValid,
        PendingValid;
      PendingEmpty();
      TouchedApart();
      hide Sized, AllApart;
      WriteHeader();
      var ok := txPool.Push(txBuffer);
      assert ok;
    }

    /** Sends the pending packet, unless it holds no record. */
    method FlushPending()
      requires Valid()
      modifies this`sequence, this`txBuffer, this`optLen, this`packetCount, this`records
      modifies available, txPool, txBuffer, available.Next()
      ensures Valid() && forall b :: b in Territory() ==> b in old(Territory()) || fresh(b)
      ensures View() == Spec.FlushPacket(old(View())).state
      ensures txPool.delivered == old(txPool.delivered) + WireAll(Spec.FlushPacket(old(View())).packets)
      ensures Conserved(old(Held()), old(available.arrived), Held(), available.arrived)
      ensures forall b :: b in txPool.pool ==> b in old(txPool.pool) || b in old(Territory()) || fresh(b)
    {
      hide BodySize, BodyBytes, AllWritable, PacketBytes, Sized, WellMade, WireAll, BufferPool.Valid, CompressionValid,
        AllHeld, PendingValid, AllApart, Drawn, Distinct;
      PendingEmpty();
      TouchedApart();
      if txBuffer.dataSize == HEADER_SIZE {
        return;
      }
      ghost var first, av, tx, arr := txBuffer, available.pool, txPool.pool, available.arrived;
      Enqueue();
      GetTxBuffer();
      HeldMoves(av, available.pool, tx, inflight, compBuffer, inHand, first, txBuffer, arr, available.arrived);
      ApartMoves(av, available.pool, tx, inflight, compBuffer, inHand, first, txBuffer, arr, available.arrived);
    }

    /** Gives the buffers the compressor needed back to the pool, and resets the compressor. */
    method FlushInflight()
      requires Valid()
      modifies this`inflight, available, compressor
      ensures Valid() && inflight == []
      ensures View() == old(View()).(history := [])
      ensures Held() == old(Held()) && available.arrived == old(available.arrived)
      ensures forall b :: b in Footprint() ==> b in old(Footprint()) || b == null || fresh(b)
      ensures available.pool == old(available.pool) + old(inflight)
    {
      hide AllWritable, Sized, WellMade, AllHeld, PendingValid, AllApart, Distinct, BufferPool.Valid, Datas;
      if inflight == [] {
        NothingCompressed();
        return;
      }
      InflightApart();
      var ok := available.PushAll(inflight);
      assert ok;
      HeldReturns(old(available.pool), txPool.pool, inflight, txBuffer, compBuffer, inHand);
      ApartReturns(old(available.pool), txPool.pool, inflight, txBuffer, compBuffer, inHand);
      inflight := [];
      if compressor != null {
        compressor.ResetCompressionStream();
      }
    }

    lemma NothingCompressed()
      requires CompressionValid() && inflight == []
      ensures View().history == []
    {
    }

    lemma InflightApart()
      requires PoolsValid() && CompressionValid()
      ensures Distinct(inflight) && forall b :: b in inflight ==> b.Valid() && b !in available.pool
    {
    }

    /** Sends the pending packet and lets go of the buffers kept for the compressor. */
    method FlushAll()
      requires Valid()
      modifies this`sequence, this`txBuffer, this`optLen, this`packetCount, this`records, this`inflight
      modifies available, txPool, compressor, Territory()
      ensures Valid() && inflight == [] && records == []
      ensures View() == Spec.Flush(old(View())).state
      ensures txPool.delivered == old(txPool.delivered) + WireAll(Spec.Flush(old(View())).packets)
      ensures Conserved(old(Held()), old(available.arrived), Held(), available.arrived)
      ensures forall b :: b in txPool.pool ==> b in old(txPool.pool) || b in old(Footprint()) || fresh(b)
      ensures forall b :: b in Footprint() ==> b in old(Footprint()) || b == null || fresh(b)
    {
      hide BodySize, BodyBytes, AllWritable, PacketBytes, Sized, WellMade, WireAll, BufferPool.Valid, CompressionValid,
        AllHeld, PendingValid, AllApart, Distinct;
      hide Territory, Footprint;
      FootprintHas();
      FlushPending();
      FootprintGrows();
      FlushInflight();
    }

    /** Writes a record at the end of the pending packet: its header, the counters, its payload. */
    method PutRecord(kind: byte, size: u16, format: byte, part: byte, payload: Bytes)
      requires PendingValid() && PARTIAL_PACKET <= kind <= LAST_PART && |payload| <= UINT16_MAX
      requires txBuffer.dataSize + OPTION_SIZE + |payload| <= available.bufferSize <= UINT16_MAX
      modifies this`optLen, this`packetCount, this`records, txBuffer
      ensures PendingValid() && records == old(records) + [Record(kind, size, format, part, payload)]
      ensures txBuffer.dataSize == old(txBuffer.dataSize) + OPTION_SIZE + |payload|
      ensures var n := |payload|;
              var header := [kind, size / 256, size % 256, format, n / 256, n % 256, part, 0];
              txBuffer.Data() == old(txBuffer.Data()) + header + payload
    {
      hide BodyBytes, BodySize, WellMade, OptionBytes;
      OptionInOctets(kind, size, format, |payload|, part);
      ghost var record := Record(kind, size, format, part, payload);
      RecordAdded(records, record);
      ghost var header := OptionBytes(kind, size, format, |payload|, part);
      ghost var before := txBuffer.Data();
      var current := txBuffer.dataSize;
      txBuffer.Write(current, OptionBytes(kind, size, format, |payload|, part));
      current := current + OPTION_SIZE;
      if packetCount == 0 {
        optLen := optLen + 1;
      }
      packetCount := packetCount + 1;
      var ok := txBuffer.SetDataSize(current);
      assert ok;
      assert txBuffer.Data() == before + header;
      ok := txBuffer.Append(payload);
      assert ok;
      BodyGrows(before, txBuffer.Data(), header + payload);
      assert txBuffer.content[HEADER_SIZE..txBuffer.dataSize] == txBuffer.Data()[HEADER_SIZE..];
      records := records + [record];
    }

    /** Marks the record written last as completing its frame, where its header begins at `at`. */
    method MarkLast(at: nat)
      requires PendingValid() && records != [] && available.bufferSize <= UINT16_MAX
      requires var r := records[|records| - 1];
               r.kind == PARTIAL_PACKET && at + OPTION_SIZE + |r.payload| == txBuffer.dataSize
      modifies this`records, txBuffer`content
      ensures PendingValid()
      ensures var n := |old(records)| - 1;
              records == old(records)[..n] + [old(records)[n].(kind := LAST_PART)]
    {
      ghost var n := |records| - 1;
      ghost var before, r := records[..n], records[n];
      ghost var r' := r.(kind := LAST_PART);
      assert records == before + [r];
      hide BodyBytes, BodySize, RecordBytes, WellMade;
      LastMarked(before, r, r');
      PokeInside(txBuffer.content, at, txBuffer.dataSize, BodyBytes(before), RecordBytes(r), LAST_PART);
      txBuffer.Write(at, [LAST_PART]);
      records := before + [r'];
    }

    /** Octets of payload that one more record may carry in the pending packet. */
    method GetMaxPayloadSize() returns (size: u16)
      requires PendingValid()
      ensures size == Room(Cfg(), View())
      ensures size == if txBuffer.dataSize + 8 < l4mtu then l4mtu - txBuffer.dataSize - 8 else 0
    {
      var maximum: int := l4mtu;
      if txBuffer.dataSize == 0 {
        maximum := maximum - HEADER_SIZE;
      }
      maximum := maximum - OPTION_SIZE;
      maximum := maximum - txBuffer.dataSize;
      if maximum <= 0 {
        return 0;
      }
      return maximum;
    }

    /** Writes the part at `pos` to the pending packet, as much of it as there is room for. */
    method WritePart(data: Bytes, size: u16, format: byte, pos: nat, part: byte) returns (n: nat)
      requires Valid() && pos < |data| <= UINT16_MAX && Room(Cfg(), View()) > 0
      modifies this`optLen, this`packetCount, this`records, txBuffer
      ensures Valid()
      ensures n == PartSize(Cfg(), old(View()), |data| - pos)
      ensures records == old(records) + [PartRecord(Cfg(), old(View()), data, size, format, pos, part)]
    {
      hide BodySize, BodyBytes, AllWritable, PacketBytes, WellMade, WireAll, BufferPool.Valid, CompressionValid,
        AllHeld, PendingValid, AllApart, Distinct, Bounded;
      var left := |data| - pos;
      var maximum := GetMaxPayloadSize();
      n := if left > maximum then maximum else left;
      PendingSize();
      TouchedApart();
      var current := txBuffer.dataSize;
      PutRecord(PARTIAL_PACKET, size, format, part, data[pos..pos + n]);
      if left - n == 0 {
        MarkLast(current);
      }
    }

    /** One iteration of the split loop: writes the part at `pos`, and sends the packet if that fills it. */
    method PutPart(data: Bytes, size: u16, format: byte, pos: nat, part: byte) returns (n: nat)
      requires Valid() && pos < |data| <= UINT16_MAX && Room(Cfg(), View()) > 0
      modifies this`sequence, this`txBuffer, this`optLen, this`packetCount, this`records
      modifies available, txPool, Territory()
      ensures Valid() && forall b :: b in Territory() ==> b in old(Territory()) || fresh(b)
      ensures n == PartSize(Cfg(), old(View()), |data| - pos)
      ensures View() == SplitStep(Cfg(), old(View()), data, size, format, pos, part).state
      ensures (StepWritable(Cfg(), old(View()), data, size, format, pos, part);
               txPool.delivered == old(txPool.delivered)
                   + WireAll(SplitStep(Cfg(), old(View()), data, size, format, pos, part).packets))
      ensures Conserved(old(Held()), old(available.arrived), Held(), available.arrived)
      ensures forall b :: b in txPool.pool ==> b in old(txPool.pool) || b in old(Territory()) || fresh(b)
    {
      hide BodySize, AllWritable, WellMade, WireAll, PoolsValid, CompressionValid, AllHeld, PendingValid, Sized,
        PartSize;
      n := WritePart(data, size, format, pos, part);
      PendingSize();
      if txBuffer.dataSize == l4mtu {
        FlushPending();
      }
    }

    /** The split loop: the frame goes out in parts, a packet at a time, the last part stays pending. */
    method PutParts(data: Bytes, size: u16, format: byte)
      requires Valid() && Room(Cfg(), View()) > 0 && |data| <= UINT16_MAX
      modifies this`sequence, this`txBuffer, this`optLen, this`packetCount, this`records
      modifies available, txPool, Territory()
      ensures Valid() && forall b :: b in Territory() ==> b in old(Territory()) || fresh(b)
      ensures View() == Split(Cfg(), old(View()), data, size, format, 0, 1).state
      ensures (SplitPacks(Cfg(), old(View()), data, size, format, 0, 1);
               txPool.delivered == old(txPool.delivered)
                   + WireAll(Split(Cfg(), old(View()), data, size, format, 0, 1).packets))
      ensures Conserved(old(Held()), old(available.arrived), Held(), available.arrived)
      ensures forall b :: b in txPool.pool ==> b in old(txPool.pool) || b in old(Territory()) || fresh(b)
    {
      hide BodySize, PoolsValid, CompressionValid, Conserved, PendingValid, Bounded, PartSize, SplitStep, MaxPayload,
        WellMade, Split, SplitSoFar, WireAll, AllWritable, Territory, Sized, CompressionValid, Held, Then, Room,
        DataSize;
      var part: byte := 1;
      var pos := 0;
      ghost var st0, held0, arrived0, sent0 := View(), Held(), available.arrived, txPool.delivered;
      ghost var done: seq<Packet> := [];
      ValidPending();
      SplitStarts(Cfg(), st0, data, size, format);
      NothingMoved(held0, arrived0);
      while pos < |data|
        invariant Valid() && forall b :: b in Territory() ==> b in old(Territory()) || fresh(b)
        invariant SplitSoFar(Cfg(), st0, View(), data, size, format, pos, part, done)
        invariant forall i :: 0 <= i < |done| ==> AllWritable(done[i].records)
        invariant txPool.delivered == sent0 + WireAll(done)
        invariant Conserved(held0, arrived0, Held(), available.arrived)
        invariant forall b :: b in txPool.pool ==> b in old(txPool.pool) || b in old(Territory()) || fresh(b)
      {
        ghost var st, held, arrived := View(), Held(), available.arrived;
        SplitAdvances(Cfg(), st0, st, data, size, format, pos, part, done);
        var n := PutPart(data, size, format, pos, part);
        Carry(held0, arrived0, held, arrived, Held(), available.arrived);
        done := done + SplitStep(Cfg(), st, data, size, format, pos, part).packets;
        pos := pos + n;
        part := (part + 1) % 0x100;
      }
      SplitEnds(Cfg(), st0, View(), data, size, format, pos, part, done);
    }

    /** After a compression: its result goes into the compressor's buffer, the raw one joins those in flight. */
    method TakeCompressed(raw: Buffer, data: Bytes)
      requires PoolsValid() && PendingValid() && compBuffer != null && inHand == raw
      requires AllOfSize(inflight, available.bufferSize) && raw.Valid() && |raw.content| == available.bufferSize
      requires compBuffer.Valid() && |compBuffer.content| == available.bufferSize
      requires format != NONE && compressor != null && compressor.codec == Cfg().codec && |data| <= available.bufferSize
      requires compressor.compressed == Datas(inflight) + [raw.Data()]
      modifies this`inHand, this`compBuffer, this`inflight, compBuffer
      ensures PoolsValid() && PendingValid() && CompressionValid()
      ensures inHand == old(compBuffer) && inHand.Valid() && inHand.Data() == data && compBuffer == null
      ensures inflight == old(inflight) + [raw]
      ensures Held() == old(Held())
    {
      hide BodySize, BodyBytes, AllWritable, WellMade, AllHeld, PendingValid, AllApart, Distinct, BufferPool.Valid,
        Datas, Drawn;
      InHandApart();
      HeldSwaps(available.pool, txPool.pool, inflight, txBuffer, compBuffer, raw);
      ApartSwaps(available.pool, txPool.pool, inflight, txBuffer, compBuffer, raw);
      AllOfSizeSnoc(inflight, raw, available.bufferSize);
      DatasSnoc(inflight, raw);
      hide AllOfSize;
      compBuffer.Write(0, data);
      var ok := compBuffer.SetDataSize(|data|);
      assert ok;
      inHand := compBuffer;
      compBuffer := null;
      inflight := inflight + [raw];
    }

    lemma InHandApart()
      requires PoolsValid() && inHand != null
      ensures inHand !in available.pool && inHand !in txPool.pool && inHand !in inflight && inHand != txBuffer
           && inHand != compBuffer
      ensures compBuffer != null ==>
                && compBuffer !in available.pool && compBuffer !in txPool.pool
                && compBuffer !in inflight && compBuffer != txBuffer
    {
      ApartInHand(available.pool, txPool.pool, inflight, txBuffer, compBuffer, inHand);
    }

    /**
      Compresses a frame if the format asks for it. What is left in hand is the buffer to send: the
      compressor's, and then the raw one joins those in flight; or, uncompressed, the raw one.
     */
    method Prepare(raw: Buffer) returns (packet: Buffer, packetFormat: byte)
      requires Valid() && compBuffer != null && inHand == raw && raw.dataSize <= l2mtu
      modifies this`inHand, this`compBuffer, this`inflight, compressor, compBuffer
      ensures Valid() && inHand == packet && packet.Valid() && packet.dataSize <= available.bufferSize
      ensures var input := Compressed(Cfg(), old(View()).history, old(raw.Data()));
              && packet.Data() == input.data && packetFormat == input.format
              && View() == old(View()).(history := input.history)
      ensures var sent := if format == NONE then None
                          else compressor.codec.compress(old(View()).history, old(raw.Data()));
              if sent.Some? then
                packet.Data() == sent.value && packetFormat == format && inflight == old(inflight) + [raw]
              else
                packet == raw && packet.Data() == old(raw.Data()) && packetFormat == NONE && inflight == old(inflight)
      ensures Held() == old(Held()) && (inflight == old(inflight) || inflight == old(inflight) + [raw])
      ensures forall b :: b in Footprint() ==> b in old(Footprint()) || b == null || fresh(b)
      ensures (packet == raw && compBuffer == old(compBuffer))
           || (packet == old(compBuffer) && compBuffer == null && format != NONE)
    {
      hide BodySize, BodyBytes, AllWritable, WellMade, AllHeld, PendingValid, AllApart, Distinct, BufferPool.Valid,
        Datas;
      packetFormat := format;
      packet := raw;
      if format == NONE {
        return;
      }
      InHandApart();
      var compressed := compressor.Compress(raw.Data());
      if compressed.Some? {
        packet := compBuffer;
        TakeCompressed(raw, compressed.value);
      } else {
        packetFormat := NONE;
      }
    }

    /** Puts the frame in hand in the pending packet, whole if it fits there, in parts otherwise. */
    method PutFrame(packet: Buffer, size: u16, format: byte)
      requires Valid() && inHand == packet && Room(Cfg(), View()) > 0
      modifies this`sequence, this`txBuffer, this`optLen, this`packetCount, this`records, this`inflight
      modifies available, txPool, compressor, Territory()
      ensures Valid() && forall b :: b in Territory() ==> b in old(Territory()) || b in old(inflight) || fresh(b)
      ensures var input := Input(old(packet.Data()), format, old(View()).history);
              View() == Place(Cfg(), old(View()), size, input).state
      ensures var input := Input(old(packet.Data()), format, old(View()).history);
              (PlaceWritable(Cfg(), old(View()), size, input);
               txPool.delivered == old(txPool.delivered) + WireAll(Place(Cfg(), old(View()), size, input).packets))
      ensures Conserved(old(Held()), old(available.arrived), Held(), available.arrived)
      ensures forall b :: b in txPool.pool ==> b in old(txPool.pool) || b in old(Footprint()) || fresh(b)
      ensures forall b :: b in Footprint() ==> b in old(Footprint()) || b == null || fresh(b)
    {
      hide BodySize, PoolsValid, Conserved, PendingValid, Sized, MaxPayload, WellMade, Split, AllWritable,
        BufferPool.Valid, AllHeld, CompressionValid;
      SmallInHand();
      var room := GetMaxPayloadSize();
      ghost var st, sent := View(), txPool.delivered;
      ghost var input := Input(packet.Data(), format, st.history);
      ghost var e := Place(Cfg(), st, size, input);
      ValidPending();
      PlaceWritable(Cfg(), st, size, input);
      assert st.(history := input.history) == st;
      if packet.dataSize > room {
        PutParts(packet.Data(), size, format);
        FootprintGrows();
        FlushInflight();
      } else {
        RoomMeans();
        PutRecord(COMPLETE_PACKET, size, format, 0, packet.Data());
        NothingMoved(Held(), available.arrived);
        assert e.packets == [] && WireAll(e.packets) == [];
        assert txPool.delivered == sent + WireAll(e.packets);
      }
    }

    lemma SmallInHand()
      requires Valid() && inHand != null
      ensures inHand.Valid() && |inHand.Data()| == inHand.dataSize <= UINT16_MAX
    {
    }

    lemma RoomMeans()
      requires Valid()
      ensures txBuffer !in available.pool && txBuffer !in txPool.pool && txBuffer !in inflight
           && txBuffer != compBuffer && txBuffer != inHand
      ensures Room(Cfg(), View()) > 0 ==> txBuffer.dataSize + OPTION_SIZE + Room(Cfg(), View()) <= available.bufferSize
    {
    }

    /** Puts the buffer in hand where it will be needed: back to the compressor, or to the pool. */
    method PutAway(packet: Buffer)
      requires Valid() && inHand == packet
      modifies this`inHand, this`compBuffer, available
      ensures Valid() && inHand == null && View() == old(View())
      ensures Held() == old(Held()) && available.arrived == old(available.arrived)
      ensures forall b :: b in Footprint() ==> b in old(Footprint()) || b == null || fresh(b)
      ensures old(compBuffer) != null || format != NONE ==> compBuffer != null
    {
      hide Sized, AllHeld, PendingValid, AllApart, Distinct, BufferPool.Valid, AllOfSize, Datas;
      ApartInHand(available.pool, txPool.pool, inflight, txBuffer, compBuffer, packet);
      if format != NONE && compBuffer == null {
        HeldBack(available.pool, txPool.pool, inflight, txBuffer, packet);
        ApartBack(available.pool, txPool.pool, inflight, txBuffer, packet);
        compBuffer := packet;
      } else {
        HeldGives(available.pool, txPool.pool, inflight, txBuffer, compBuffer, packet);
        ApartGives(available.pool, txPool.pool, inflight, txBuffer, compBuffer, packet);
        var ok := available.Push(packet);
        assert ok;
      }
      inHand := null;
    }

    /** Where only buffers of ours and new ones moved, the others stay elsewhere. */
    twostate lemma OthersStay()
      requires forall b :: b in Footprint() ==> b in old(Footprint()) || b == null || fresh(b)
      requires forall b :: b in txPool.pool ==> b in old(txPool.pool) || b in old(Footprint()) || fresh(b)
      ensures forall b: Buffer ::
                old(allocated(b)) && b !in old(Footprint()) && b !in old(txPool.pool) ==> Elsewhere(b)
    {
      forall b: Buffer | old(allocated(b)) && b !in old(Footprint()) && b !in old(txPool.pool) ensures Elsewhere(b) {
        assert b !in Footprint();
      }
    }

    lemma ElsewhereMeans()
      requires inHand == null
      ensures forall b: Buffer :: Elsewhere(b) ==> b !in Footprint() && b !in txPool.pool
    {
    }

    /** Takes a buffer in hand. */
    ghost method Receive(raw: Buffer)
      requires Valid() && inHand == null && raw.Valid() && |raw.content| == available.bufferSize && Elsewhere(raw)
      modifies this`inHand
      ensures Valid() && inHand == raw && View() == old(View())
      ensures Held() == old(Held()) + multiset{raw}
      ensures forall b :: b in Footprint() ==> b in old(Footprint()) || b == raw
    {
      hide BodySize, BodyBytes, AllWritable, WellMade, AllHeld, PendingValid, AllApart, Distinct, BufferPool.Valid;
      HeldGives(available.pool, txPool.pool, inflight, txBuffer, compBuffer, raw);
      ApartNew(available.pool, txPool.pool, inflight, txBuffer, compBuffer, raw);
      inHand := raw;
    }

    /** A frame over the layer 2 MTU: its buffer goes straight back. */
    method Refuse(raw: Buffer)
      requires Valid() && inHand == raw && compBuffer != null
      modifies available, this`inHand
      ensures Valid() && inHand == null && View() == old(View())
      ensures Held() == old(Held()) && available.arrived == old(available.arrived)
      ensures forall b :: b in Footprint() ==> b in old(Footprint()) || b == null || fresh(b)
    {
      hide BodySize, BodyBytes, AllWritable, WellMade, AllHeld, PendingValid, AllApart, Distinct;
      InHandApart();
      HeldGives(available.pool, txPool.pool, inflight, txBuffer, compBuffer, raw);
      ApartGives(available.pool, txPool.pool, inflight, txBuffer, compBuffer, raw);
      var ok := available.Push(raw);
      assert ok;
      inHand := null;
    }

    /** After a frame: when the pending packet has little room left, it goes out. */
    method FlushIfFull()
      requires Valid()
      modifies this`sequence, this`txBuffer, this`optLen, this`packetCount, this`records, this`inflight
      modifies available, txPool, compressor, Territory()
      ensures Valid()
      ensures View() == FlushedIfFull(Cfg(), old(View())).state
      ensures txPool.delivered == old(txPool.delivered) + WireAll(FlushedIfFull(Cfg(), old(View())).packets)
      ensures if old(txBuffer.dataSize) + 8 + 88 > l4mtu then records == [] && inflight == []
              else View() == old(View()) && txPool.delivered == old(txPool.delivered)
      ensures Conserved(old(Held()), old(available.arrived), Held(), available.arrived)
      ensures forall b :: b in txPool.pool ==> b in old(txPool.pool) || b in old(Footprint()) || fresh(b)
      ensures forall b :: b in Footprint() ==> b in old(Footprint()) || b == null || fresh(b)
    {
      hide BodySize, PoolsValid, Conserved, PendingValid, CompressionValid, Sized, MaxPayload, WellMade, AllWritable,
        AllHeld, Datas, AllApart, Spec.Flush;
      var room := GetMaxPayloadSize();
      if room < MIN_ROOM {
        FlushAll();
      } else {
        NothingMoved(Held(), available.arrived);
        NothingSent(txPool.delivered);
      }
    }

    /** Puts the frame in hand in packets and sends those that are full. */
    method SendInHand(packet: Buffer, size: u16, format: byte)
      requires Valid() && inHand == packet && packet.Valid() && Room(Cfg(), View()) > 0
      modifies this`sequence, this`txBuffer, this`optLen, this`packetCount, this`records, this`inflight
      modifies available, txPool, compressor, Territory(), inflight
      ensures Valid()
      ensures var e := Placed(Cfg(), old(View()), size, Input(old(packet.Data()), format, old(View()).history));
              View() == e.state && txPool.delivered == old(txPool.delivered) + WireAll(e.packets)
      ensures Conserved(old(Held()), old(available.arrived), Held(), available.arrived)
      ensures forall b :: b in txPool.pool ==> b in old(txPool.pool) || b in old(Footprint()) || fresh(b)
      ensures forall b :: b in Footprint() ==> b in old(Footprint()) || b == null || fresh(b)
    {
      hide BodySize, PoolsValid, Conserved, PendingValid, CompressionValid, MaxPayload, WellMade, Place, AllWritable,
        AllHeld, WireAll, Datas, AllApart, Territory, FlushedIfFull, Held, Room, Sized, Buffer.Data;
      ghost var cfg, st, input := Cfg(), View(), Input(packet.Data(), format, View().history);
      ghost var held, arrived := Held(), available.arrived;
      ValidPending();
      PlaceWritable(cfg, st, size, input);
      PutFrame(packet, size, format);
      ghost var held1, arrived1 := Held(), available.arrived;
      FlushIfFull();
      Carry(held, arrived, held1, arrived1, Held(), available.arrived);
      ghost var e := Place(cfg, st, size, input);
      WireAllAppend(e.packets, FlushedIfFull(cfg, e.state).packets);
    }

    /** Compresses the frame in hand, puts it in packets, and puts its buffer away. */
    method Accept(raw: Buffer)
      requires Valid() && compBuffer != null && inHand == raw && raw.Valid() && raw.dataSize <= l2mtu
           && Room(Cfg(), View()) > 0
      modifies this`sequence, this`txBuffer, this`optLen, this`packetCount, this`records, this`inflight
      modifies this`compBuffer, this`inHand
      modifies available, txPool, compressor, compBuffer, Territory(), inflight, raw
      ensures Valid() && compBuffer != null && inHand == null
      ensures var e := Taken(Cfg(), old(View()), old(raw.Data()));
              View() == e.state && txPool.delivered == old(txPool.delivered) + WireAll(e.packets)
      ensures Conserved(old(Held()), old(available.arrived), Held(), available.arrived)
      ensures forall b :: b in txPool.pool ==> b in old(txPool.pool) || b in old(Footprint()) || fresh(b)
      ensures forall b :: b in Footprint() ==> b in old(Footprint()) || b == null || fresh(b)
    {
      hide BodySize, PoolsValid, Conserved, PendingValid, CompressionValid, MaxPayload, WellMade, Placed, AllWritable,
        AllHeld, WireAll, Compressed, Datas, AllApart, Territory, Held, Room, Sized;
      ghost var cfg, st, frame := Cfg(), View(), raw.Data();
      ValidPending();
      var size := raw.dataSize;
      var packet, packetFormat := Prepare(raw);
      PlaceSame(cfg, st, Compressed(cfg, st.history, frame).history, size, Compressed(cfg, st.history, frame));
      SendInHand(packet, size, packetFormat);
      PutAway(packet);
    }

    /**
      Takes a frame. The buffer is ours from here on; where it ends up, and all that went out and is
      pending now, is what the transition on values says.
     */
    method Encode(raw: Buffer)
      requires Ready() && raw.Valid() && |raw.content| == available.bufferSize && Elsewhere(raw)
      modifies this`sequence, this`txBuffer, this`optLen, this`packetCount, this`records, this`inflight
      modifies this`compBuffer, this`inHand
      modifies available, txPool, compressor, Footprint(), raw
      ensures Ready()
      ensures var e := Encoded(Cfg(), old(View()), old(raw.Data()));
              View() == e.state && txPool.delivered == old(txPool.delivered) + WireAll(e.packets)
      ensures Conserved(old(Held()) + multiset{raw}, old(available.arrived), Held(), available.arrived)
      ensures forall b: Buffer :: old(allocated(b)) && old(Elsewhere(b)) && b != raw ==> Elsewhere(b)
      ensures forall b :: b in Footprint() ==> b in old(Footprint()) || b == null || b == raw || fresh(b)
    {
      hide BodySize, PoolsValid, Conserved, PendingValid, CompressionValid, MaxPayload, WellMade, AllWritable, AllHeld,
        Settled, WireAll, Datas, AllApart, Territory, Taken, Encoded, Held, Room, Sized, Footprint, Elsewhere;
      FootprintHas();
      ElsewhereMeans();
      ghost var cfg, st, frame := Cfg(), View(), raw.Data();
      ValidPending();
      EncodeIsTaken(cfg, st, frame);
      Receive(raw);
      label InHand:
      var size := raw.dataSize;
      if size > l2mtu {
        NothingMoved(Held(), available.arrived);
        NothingSent(txPool.delivered);
        Refuse(raw);
      } else {
        Accept(raw);
      }
      OthersStay@InHand();
    }

    /** Sends what is pending; afterwards nothing is left that a receiver could be waiting for. */
    method Flush()
      requires Ready()
      modifies this`sequence, this`txBuffer, this`optLen, this`packetCount, this`records, this`inflight
      modifies available, txPool, compressor, Territory()
      ensures Ready() && records == [] && inflight == []
      ensures var e := Flushed(Cfg(), old(View()));
              View() == e.state && txPool.delivered == old(txPool.delivered) + WireAll(e.packets)
      ensures Conserved(old(Held()), old(available.arrived), Held(), available.arrived)
      ensures forall b: Buffer :: old(allocated(b)) && old(Elsewhere(b)) ==> Elsewhere(b)
      ensures forall b :: b in Footprint() ==> b in old(Footprint()) || b == null || fresh(b)
    {
      hide PoolsValid, PendingValid, CompressionValid, Conserved, Held, WireAll, Settled, Room, Footprint, Territory,
        Sized, Spec.Flush, Elsewhere;
      ElsewhereMeans();
      ValidPending();
      FlushEmpties(Cfg(), View());
      FlushAll();
      OthersStay();
    }

    /**
      Sets the format of the payloads and makes a compressor for it; `ok` is false where the original
      throws for a format it does not know. The invariant is kept where no buffer is in flight.
     */
    method SetPacketFormat(packetFormat: byte) returns (ok: bool)
      requires Valid()
      requires packetFormat == COMPRESSED_LZ4 ==> Bounded(lz4, available.bufferSize)
      requires packetFormat == COMPRESSED_ZSTD ==> Bounded(zstd, available.bufferSize)
      modifies this`format, this`compressor
      ensures ok <==> packetFormat == NONE || IsCompressed(packetFormat)
      ensures format == packetFormat
      ensures if !ok then compressor == old(compressor)
              else if format == NONE then compressor == null
              else compressor != null && fresh(compressor) && compressor.compressed == []
                   && compressor.codec == Cfg().codec
      ensures ok && inflight == [] ==> Valid() && View() == old(View()) && (old(Ready()) ==> Ready())
      ensures Held() == old(Held()) && Footprint() == old(Footprint())
    {
      hide AllApart, AllHeld, Settled, PoolsValid, PendingValid, Bounded, AllOfSize;
      ghost var cfg, st := Cfg(), View();
      format := packetFormat;
      if packetFormat == NONE {
        compressor := null;
      } else if packetFormat == COMPRESSED_LZ4 {
        compressor := new StreamCompressor(lz4);
      } else if packetFormat == COMPRESSED_ZSTD {
        compressor := new StreamCompressor(zstd);
      } else {
        return false;
      }
      SettledInAny(cfg, Cfg(), st);
      return true;
    }

    /** Sets the number of the next packet. */
    method SetSequence(number: u32)
      requires Ready()
      modifies this`sequence
      ensures Ready() && View() == old(View()).(sequence := number)
    {
      hide PoolsValid, PendingValid, CompressionValid, Sized, WellMade;
      sequence := number;
    }

    lemma ValidPending()
      requires Valid()
      ensures Sized(Cfg()) && WellMade(View().records) && available != txPool
      ensures DataSize(View()) <= l4mtu ==> Pending(Cfg(), View())
    {
    }

    lemma PendingSize()
      requires PendingValid()
      ensures txBuffer.dataSize == DataSize(View()) && |txBuffer.content| == available.bufferSize
    {
    }
  }

  lemma SettledInAny(cfg: EncoderConfig, cfg': EncoderConfig, st: EncState)
    requires cfg'.l4mtu == cfg.l4mtu
    ensures Settled(cfg, st) && st.history == [] ==> Settled(cfg', st)
  {
    hide WellMade;
  }

  lemma InitiallySettled(cfg: EncoderConfig, sequence: u32)
    requires Sized(cfg)
    ensures Settled(cfg, InitialState(sequence))
  {
  }

  /** The split loop has come to `pos`, has emitted `done`, and goes on from `st`. */
  ghost predicate SplitSoFar(cfg: EncoderConfig, st0: EncState, st: EncState, data: Bytes, size: u16, format: byte,
                             pos: nat, part: byte, done: seq<Packet>)
  {
    && Sized(cfg) && WellMade(st.records) && pos <= |data|
    && (data != [] ==> Room(cfg, st0) > 0) && (pos < |data| ==> Room(cfg, st) > 0)
    && (forall i :: 0 <= i < |done| ==> AllWritable(done[i].records))
    && Then(Split(cfg, st, data, size, format, pos, part), done) == Split(cfg, st0, data, size, format, 0, 1)
  }

  lemma SplitStarts(cfg: EncoderConfig, st: EncState, data: Bytes, size: u16, format: byte)
    requires Sized(cfg) && WellMade(st.records) && Room(cfg, st) > 0
    ensures SplitSoFar(cfg, st, st, data, size, format, 0, 1, []) && WireAll([]) == []
  {
    var all := Split(cfg, st, data, size, format, 0, 1);
    assert [] + all.packets == all.packets;
  }

  lemma SplitAdvances(cfg: EncoderConfig, st0: EncState, st: EncState, data: Bytes, size: u16, format: byte,
                      pos: nat, part: byte, done: seq<Packet>)
    requires SplitSoFar(cfg, st0, st, data, size, format, pos, part, done) && pos < |data|
    ensures Room(cfg, st) > 0 && WellMade(st.records)
    ensures var e := SplitStep(cfg, st, data, size, format, pos, part);
            var n := PartSize(cfg, st, |data| - pos);
            && 0 < n <= |data| - pos
            && SplitSoFar(cfg, st0, e.state, data, size, format, pos + n, (part + 1) % 0x100, done + e.packets)
            && (forall i :: 0 <= i < |done| ==> AllWritable(done[i].records))
            && (forall i :: 0 <= i < |e.packets| ==> AllWritable(e.packets[i].records))
            && WireAll(done + e.packets) == WireAll(done) + WireAll(e.packets)
  {
    hide SplitStep, PartSize, BodySize;
    SplitStepRoom(cfg, st, data, size, format, pos, part);
    StepWritable(cfg, st, data, size, format, pos, part);
    var e := SplitStep(cfg, st, data, size, format, pos, part);
    var n := PartSize(cfg, st, |data| - pos);
    WireAllAppend(done, e.packets);
    ThenThen(Split(cfg, e.state, data, size, format, pos + n, (part + 1) % 0x100), e.packets, done);
  }

  lemma SplitEnds(cfg: EncoderConfig, st0: EncState, st: EncState, data: Bytes, size: u16, format: byte,
                  pos: nat, part: byte, done: seq<Packet>)
    requires SplitSoFar(cfg, st0, st, data, size, format, pos, part, done) && pos >= |data|
    ensures Split(cfg, st0, data, size, format, 0, 1) == Emission(st, done)
  {
    assert done + [] == done;
  }

  lemma ThenThen(e: Emission, a: seq<Packet>, b: seq<Packet>)
    ensures Then(Then(e, a), b) == Then(e, b + a)
  {
  }

  lemma StepWritable(cfg: EncoderConfig, st: EncState, data: Bytes, size: u16, format: byte, pos: nat, part: byte)
    requires WellMade(st.records) && pos <= |data|
    ensures var e := SplitStep(cfg, st, data, size, format, pos, part);
            && WellMade(e.state.records)
            && forall i :: 0 <= i < |e.packets| ==> WellMade(e.packets[i].records)
  {
  }

  lemma KindIsFirstOctet(r: Record, r': Record)
    requires Writable(r) && r' == r.(kind := LAST_PART)
    ensures RecordBytes(r') == [LAST_PART] + RecordBytes(r)[1..]
  {
    hide Be16;
  }

  lemma RecordAdded(rs: seq<Record>, r: Record)
    requires WellMade(rs) && Writable(r) && PARTIAL_PACKET <= r.kind <= LAST_PART
    ensures WellMade(rs + [r])
    ensures BodyBytes(rs + [r]) == BodyBytes(rs) + RecordBytes(r)
    ensures BodySize(rs + [r]) == BodySize(rs) + OPTION_SIZE + |r.payload|
    ensures OPTION_SIZE * |rs| <= BodySize(rs)
  {
    hide BodyBytes, BodySize, RecordBytes;
    BodyBytesSnoc(rs, r);
    BodySizeSnoc(rs, r);
    BodySizeCounts(rs);
  }

  lemma BodyGrows(before: Bytes, after: Bytes, more: Bytes)
    requires |before| >= HEADER_SIZE && after == before + more
    ensures after[HEADER_SIZE..] == before[HEADER_SIZE..] + more
  {
  }

  lemma LastMarked(before: seq<Record>, r: Record, r': Record)
    requires WellMade(before + [r]) && r' == r.(kind := LAST_PART)
    ensures WellMade(before) && WellMade(before + [r']) && Writable(r) && Writable(r')
    ensures BodyBytes(before + [r]) == BodyBytes(before) + RecordBytes(r)
    ensures BodyBytes(before + [r']) == BodyBytes(before) + ([LAST_PART] + RecordBytes(r)[1..])
    ensures BodySize(before + [r']) == BodySize(before + [r]) == BodySize(before) + |RecordBytes(r)|
    ensures |BodyBytes(before)| == BodySize(before)
  {
    hide RecordBytes, BodyBytes, BodySize;
    forall i | 0 <= i < |before| ensures before[i] == (before + [r])[i] {}
    assert (before + [r])[|before|] == r;
    BodyBytesSnoc(before, r);
    BodyBytesSnoc(before, r');
    BodySizeSnoc(before, r);
    BodySizeSnoc(before, r');
    BodyBytesSize(before);
    KindIsFirstOctet(r, r');
  }

  lemma OptionInOctets(kind: byte, size: u16, format: byte, length: u16, part: byte)
    ensures OptionBytes(kind, size, format, length, part)
         == [kind, size / 256, size % 256, format, length / 256, length % 256, part, 0]
  {
  }

  lemma HeaderInPlace(content: Bytes, header: Bytes, end: nat, body: Bytes)
    requires |header| <= end <= |content| && content[|header|..end] == body
    ensures (content[..0] + header + content[|header|..])[..end] == header + body
  {
  }

  lemma PokeInside(content: Bytes, at: nat, end: nat, before: Bytes, last: Bytes, x: byte)
    requires HEADER_SIZE <= at < end <= |content| && |before| == at - HEADER_SIZE && last != []
    requires content[HEADER_SIZE..end] == before + last
    ensures (content[..at] + [x] + content[at + 1..])[HEADER_SIZE..end] == before + ([x] + last[1..])
  {
    var content' := content[..at] + [x] + content[at + 1..];
    assert content[HEADER_SIZE..end] == content[HEADER_SIZE..at] + [content[at]] + content[at + 1..end];
    assert content[HEADER_SIZE..at] == (before + last)[..at - HEADER_SIZE] == before;
    assert content[at + 1..end] == (before + last)[at + 1 - HEADER_SIZE..] == last[1..];
    assert content'[HEADER_SIZE..end] == content[HEADER_SIZE..at] + [x] + content[at + 1..end];
  }

  function FlushedIfFull(cfg: EncoderConfig, st: EncState): Emission {
    if Room(cfg, st) < MIN_ROOM then Spec.Flush(st) else Emission(st, [])
  }

  /** A frame put in packets, and the last of them sent when it has little room left. */
  function Placed(cfg: EncoderConfig, st: EncState, size: u16, input: Input): (e: Emission)
    requires Sized(cfg) && Room(cfg, st) > 0 && WellMade(st.records)
    ensures forall i :: 0 <= i < |e.packets| ==> AllWritable(e.packets[i].records)
  {
    PlaceWritable(cfg, st, size, input);
    var p := Place(cfg, st, size, input);
    Then(FlushedIfFull(cfg, p.state), p.packets)
  }

  /** What an encoder does with a frame that it does not refuse. */
  function Taken(cfg: EncoderConfig, st: EncState, frame: Bytes): (e: Emission)
    requires Sized(cfg) && Room(cfg, st) > 0 && |frame| <= cfg.l2mtu && WellMade(st.records)
    ensures forall i :: 0 <= i < |e.packets| ==> AllWritable(e.packets[i].records)
  {
    Placed(cfg, st, |frame|, Compressed(cfg, st.history, frame))
  }

  lemma FlushEmpties(cfg: EncoderConfig, st: EncState)
    requires Sized(cfg) && Settled(cfg, st)
    ensures Flushed(cfg, st) == Spec.Flush(st) && Spec.Flush(st).state.records == []
  {
  }

  /** The transition of the encoder for a flush, whose packet can be written. */
  function Flushed(cfg: EncoderConfig, st: EncState): (e: Emission)
    requires Sized(cfg) && Settled(cfg, st)
    ensures Settled(cfg, e.state) && forall i :: 0 <= i < |e.packets| ==> AllWritable(e.packets[i].records)
  {
    FlushPacks(cfg, st);
    Spec.Flush(st)
  }

  /** The transition of the encoder for a frame, whose packets can be written. */
  function Encoded(cfg: EncoderConfig, st: EncState, frame: Bytes): (e: Emission)
    requires Sized(cfg) && Settled(cfg, st)
    ensures Settled(cfg, e.state) && forall i :: 0 <= i < |e.packets| ==> AllWritable(e.packets[i].records)
  {
    EncodePacks(cfg, st, frame);
    Spec.Encode(cfg, st, frame)
  }

  lemma EncodeIsTaken(cfg: EncoderConfig, st: EncState, frame: Bytes)
    requires Sized(cfg) && Settled(cfg, st)
    ensures WellMade(st.records) && Room(cfg, st) > 0
    ensures Encoded(cfg, st, frame) == if |frame| > cfg.l2mtu then Emission(st, []) else Taken(cfg, st, frame)
  {
    hide Place, BodySize, AllWritable;
    if |frame| <= cfg.l2mtu {
      var p := Place(cfg, st, |frame|, Compressed(cfg, st.history, frame));
      assert p.packets + [] == p.packets;
    }
  }

  lemma NothingSent(sent: seq<Bytes>)
    ensures WireAll([]) == [] && sent + WireAll([]) == sent
  {
  }

  /** Placing depends on the history only through the input. */
  lemma PlaceSame(cfg: EncoderConfig, st: EncState, history: Frames, size: u16, input: Input)
    requires Sized(cfg) && Room(cfg, st) > 0 && WellMade(st.records)
    ensures Room(cfg, st.(history := history)) == Room(cfg, st)
    ensures Placed(cfg, st.(history := history), size, input) == Placed(cfg, st, size, input)
  {
    hide Split;
    assert st.(history := history).(history := input.history) == st.(history := input.history);
  }

  lemma PlaceWritable(cfg: EncoderConfig, st: EncState, size: u16, input: Input)
    requires Sized(cfg) && WellMade(st.records) && Room(cfg, st) > 0
    ensures var e := Place(cfg, st, size, input);
            && (forall i :: 0 <= i < |e.packets| ==> AllWritable(e.packets[i].records))
            && WellMade(e.state.records) && forall i :: 0 <= i < |FlushedIfFull(cfg, e.state).packets| ==>
                 AllWritable(FlushedIfFull(cfg, e.state).packets[i].records)
  {
    hide Split;
    if |input.data| > Room(cfg, st) {
      SplitPacks(cfg, st.(history := input.history), input.data, size, input.format, 0, 1);
    }
  }
}
