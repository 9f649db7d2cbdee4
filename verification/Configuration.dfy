/** The sizes a tunnel is set up with. */
module Configuration {
  import opened Bytes
  import opened Wire
  import opened Compression
  import opened DecoderSpec
  import opened EncoderSpec
  import opened Packing
  import opened RoundTrip
  import opened Splitting
  import Turns

  const MIN_MTU_SIZE := 1200
  const MAX_MTU_SIZE := 9218
  const MIN_TXSIZE := 1200
  const MAX_TXSIZE := 9218

  datatype ConfigError = MtuTooBig | MtuTooSmall | TxSizeTooBig | TxSizeTooSmall | TxSizeAboveMtu

  datatype Result<+T> = Ok(value: T) | Error(error: ConfigError)

  /** What the packet switch hands to its nodes. */
  datatype Sizes = Sizes(txSize: u16, l2mtu: u16, bufferSize: nat)

  /** An ethernet header with two VLAN tags on top of the MTU, in 16 bits. */
  function L2MtuFromMtu(mtu: u16): u16 {
    (mtu + (14 + 8)) % 0x1_0000
  }

  /** The checks of the packet switch, in order, and the sizes that follow. */
  function Configure(mtu: int, txSize: int): Result<Sizes> {
    if mtu > MAX_MTU_SIZE then Error(MtuTooBig)
    else if mtu < MIN_MTU_SIZE then Error(MtuTooSmall)
    else if txSize > MAX_TXSIZE then Error(TxSizeTooBig)
    else if txSize < MIN_TXSIZE then Error(TxSizeTooSmall)
    else if txSize > mtu then Error(TxSizeAboveMtu)
    else
      var l2mtu := L2MtuFromMtu(mtu);
      Ok(Sizes(txSize, l2mtu, l2mtu + l2mtu / 10))
  }

  /** Which MTU and TX size are let through, and for which reason the others are not. */
  lemma ConfiguredExactlyWhen(mtu: int, txSize: int)
    ensures var r := Configure(mtu, txSize);
            && (r.Ok? <==> 1200 <= txSize <= mtu <= 9218)
            && (r == Error(MtuTooBig) <==> 9218 < mtu)
            && (r == Error(MtuTooSmall) <==> mtu < 1200)
            && (r == Error(TxSizeTooBig) <==> 1200 <= mtu <= 9218 < txSize)
            && (r == Error(TxSizeTooSmall) <==> 1200 <= mtu <= 9218 && txSize < 1200)
            && (r == Error(TxSizeAboveMtu) <==> 1200 <= mtu < txSize <= 9218)
            && (r.Ok? ==> r.value == Sizes(txSize, mtu + 22, mtu + 22 + (mtu + 22) / 10))
  {
  }

  /** The octets of a packet that are left to the tunnel, once the IP and UDP headers are off. */
  method L4Mtu(txSize: u16, ipv4: bool) returns (l4mtu: u16)
    ensures l4mtu == L4MtuOf(txSize, ipv4)
  {
    l4mtu := txSize;
    if ipv4 {
      l4mtu := (l4mtu - 20) % 0x1_0000;
    } else {
      l4mtu := (l4mtu - 40) % 0x1_0000;
    }
    l4mtu := (l4mtu - 8) % 0x1_0000;
  }

  function L4MtuOf(txSize: u16, ipv4: bool): u16 {
    (txSize - if ipv4 then 28 else 48) % 0x1_0000
  }

  function EncoderFor(s: Sizes, ipv4: bool, format: byte, codec: Codec): EncoderConfig {
    EncoderConfig(s.l2mtu, L4MtuOf(s.txSize, ipv4), s.bufferSize, format, codec)
  }

  /**
    Every configuration that is let through is sized as the encoder needs it: no write to a buffer
    can go over its end, a packet is smaller than a buffer, and the buffer of a frame is bigger than
    the frame by a tenth, rounded down, for what compression may add.
   */
  lemma ConfiguredIsSized(mtu: int, txSize: int, ipv4: bool, format: byte, codec: Codec)
    requires 1200 <= txSize <= mtu <= 9218
    requires var s := Configure(mtu, txSize).value;
             format == NONE || (IsCompressed(format) && Bounded(codec, s.bufferSize))
    ensures var s := Configure(mtu, txSize).value;
            var cfg := EncoderFor(s, ipv4, format, codec);
            && Sized(cfg) && cfg.l4mtu < cfg.bufferSize <= UINT16_MAX - OPTION_SIZE && s.l2mtu == mtu + 22
            && cfg.l4mtu + (if ipv4 then 28 else 48) == txSize
            && 10 * cfg.bufferSize <= 11 * cfg.l2mtu < 10 * (cfg.bufferSize + 1)
  {
  }

  /**
    Two ends with the same MTU match, whatever their TX sizes and the format: with that, all the results
    about the two of them hold of every configuration that is let through.
   */
  lemma ConfiguredMatches(mtu: int, txSize: int, otherTxSize: int, ipv4: bool, format: byte, lz4: Codec, zstd: Codec)
    requires 1200 <= txSize <= mtu <= 9218 && 1200 <= otherTxSize <= mtu && format <= 2
    requires var size := (mtu + 22) + (mtu + 22) / 10; Bounded(lz4, size) && Bounded(zstd, size)
    requires Inverse(lz4) && Inverse(zstd)
    ensures var s, other := Configure(mtu, txSize).value, Configure(mtu, otherTxSize).value;
            var dc := DecoderConfig(other.l2mtu, other.bufferSize, lz4, zstd);
            Matches(EncoderFor(s, ipv4, format, CodecFor(dc, format)), dc) && dc.bufferSize <= Turns.MAX_DATA
  {
    var s := Configure(mtu, txSize).value;
    ConfiguredIsSized(mtu, txSize, ipv4, format, if format == 1 then lz4 else zstd);
  }

  /** No frame, compressed or not, needs more than ten parts, wherever the pending packet stands. */
  lemma TenPartsSuffice(mtu: int, txSize: int, ipv4: bool, format: byte, codec: Codec, st: EncState, frame: Bytes)
    returns (parts: seq<Record>)
    requires 1200 <= txSize <= mtu <= 9218
    requires var s := Configure(mtu, txSize).value;
             format == NONE || (IsCompressed(format) && Bounded(codec, s.bufferSize))
    requires var cfg := EncoderFor(Configure(mtu, txSize).value, ipv4, format, codec);
             && Settled(cfg, st) && |frame| <= cfg.l2mtu
             && |Compressed(cfg, st.history, frame).data| > Room(cfg, st)
    ensures Sized(EncoderFor(Configure(mtu, txSize).value, ipv4, format, codec))
    ensures var cfg := EncoderFor(Configure(mtu, txSize).value, ipv4, format, codec);
            var input := Compressed(cfg, st.history, frame);
            var e := Split(cfg, st, input.data, |frame|, input.format, 0, 1);
            && AllRecords(e.packets) + e.state.records == st.records + parts
            && PartsOf(parts, input.data, |frame|, input.format, 1) && |parts| <= 10
  {
    ConfiguredIsSized(mtu, txSize, ipv4, format, codec);
    var cfg := EncoderFor(Configure(mtu, txSize).value, ipv4, format, codec);
    CompressedFits(cfg, st.history, frame);
    var input := Compressed(cfg, st.history, frame);
    TenAreEnough(cfg, st, |input.data|, mtu, txSize, ipv4);
    parts := SplitIntoParts(cfg, st, input.data, |frame|, input.format, 0, 1, 10);
    assert input.data[0..] == input.data;
  }

  lemma TenAreEnough(cfg: EncoderConfig, st: EncState, left: nat, mtu: int, txSize: int, ipv4: bool)
    requires 1200 <= txSize <= mtu <= 9218
    requires var s := Configure(mtu, txSize).value;
             cfg.bufferSize == s.bufferSize && cfg.l4mtu == L4MtuOf(s.txSize, ipv4)
    requires Settled(cfg, st) && left <= cfg.bufferSize
    ensures Enough(cfg, st, left, 10)
  {
    assert cfg.l4mtu >= 1152 && cfg.bufferSize <= 10164;
  }
}
