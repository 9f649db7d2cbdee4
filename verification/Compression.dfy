/**
  Stream compressors, seen from outside. A codec is a pair of functions of the history of the
  stream, the list of frames that went through it since the last reset, and of its input. The
  library code behind them is not part of this model; the laws below say what the tunnel relies on.
 */
module Compression {
  import opened Bytes

  datatype Option<+T> = None | Some(value: T)

  type Frames = seq<Bytes>

  // None stands for a compression result of 0 and for a negative decompression result.
  datatype Codec = Codec(compress: (Frames, Bytes) -> Option<Bytes>, decompress: (Frames, Bytes) -> Option<Bytes>)

  /** Both directions are given an output buffer of `limit` octets, and success is never of size 0. */
  ghost predicate Bounded(c: Codec, limit: nat) {
    && (forall h, f :: c.compress(h, f).Some? ==> 0 < |c.compress(h, f).value| <= limit)
    && (forall h, d :: c.decompress(h, d).Some? ==> |c.decompress(h, d).value| <= limit)
  }

  /** Decompression under the history of the compression gives the frame back. */
  ghost predicate Inverse(c: Codec) {
    forall h, f :: c.compress(h, f).Some? ==> c.decompress(h, c.compress(h, f).value) == Some(f)
  }
}
