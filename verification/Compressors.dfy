/** A stream compressor: a codec and the histories of its two directions. */
module Compressors {
  import opened Bytes
  import opened Compression

  class StreamCompressor {
    const codec: Codec
    var compressed: Frames
    var decompressed: Frames

    constructor (codec: Codec)
      ensures this.codec == codec && compressed == [] && decompressed == []
    {
      this.codec := codec;
      compressed, decompressed := [], [];
    }

    method ResetCompressionStream()
      modifies this`compressed
      ensures compressed == []
    {
      compressed := [];
    }

    method ResetDecompressionStream()
      modifies this`decompressed
      ensures decompressed == []
    {
      decompressed := [];
    }

    /** A compression that fails leaves the stream as it was. */
    method Compress(input: Bytes) returns (output: Option<Bytes>)
      modifies this`compressed
      ensures output == codec.compress(old(compressed), input)
      ensures compressed == if output.Some? then old(compressed) + [input] else old(compressed)
    {
      output := codec.compress(compressed, input);
      if output.Some? {
        compressed := compressed + [input];
      }
    }

    method Decompress(input: Bytes) returns (output: Option<Bytes>)
      modifies this`decompressed
      ensures output == codec.decompress(old(decompressed), input)
      ensures decompressed == if output.Some? then old(decompressed) + [output.value] else old(decompressed)
    {
      output := codec.decompress(decompressed, input);
      if output.Some? {
        decompressed := decompressed + [output.value];
      }
    }
  }
}
