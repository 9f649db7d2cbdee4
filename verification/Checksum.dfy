/**
  The Internet checksum (RFC 1071). The code adds the words of the data up in 32 bits and folds the
  carries in at the end; the standard defines the sum with the carry added in at every step.
 */
module Checksum {
  import opened Bytes

  const TWO_TO_THE_32 := 0x1_0000_0000

  // --- The standard: one's complement arithmetic on 16-bit words, section 1 of RFC 1071 ---

  function OnesAdd(a: u16, b: u16): u16 {
    if a + b > UINT16_MAX then a + b - UINT16_MAX else a + b
  }

  /** The sum of big-endian words with end-around carry; a trailing octet counts as the code counts it, low-order. */
  function OnesSum(s: Bytes): u16 {
    if |s| == 0 then 0 else if |s| == 1 then s[0] else OnesAdd(ReadBe16(s, 0), OnesSum(s[2..]))
  }

  // --- The code ---

  /** The plain sum of the words. */
  function WordSum(s: Bytes): nat {
    if |s| == 0 then 0 else if |s| == 1 then s[0] else ReadBe16(s, 0) + WordSum(s[2..])
  }

  /** The 32-bit accumulator after the words of `s`. */
  function PartialSum(s: Bytes, sum: u32): u32 {
    (sum + WordSum(s)) % TWO_TO_THE_32
  }

  /** The number from 1 to 0xffff that is congruent to `n` modulo 0xffff; only 0 gives 0. */
  function Fold(n: nat): u16 {
    if n == 0 then 0 else (n - 1) % UINT16_MAX + 1
  }

  function Finalized(sum: u32): u16 {
    UINT16_MAX - Fold(sum)
  }

  function ChecksumOf(s: Bytes): u16 {
    Finalized(PartialSum(s, 0))
  }

  method ComputePartial(addr: array<byte>, at: nat, count: nat, sum: u32) returns (r: u32)
    requires at + count <= addr.Length
    ensures r == PartialSum(addr[at..at + count], sum)
  {
    r := sum;
    var pos, left := at, count;
    while left > 1
      invariant pos + left == at + count
      invariant PartialSum(addr[pos..pos + left], r) == PartialSum(addr[at..at + count], sum)
    {
      NextWord(addr[pos..pos + left], r);
      assert addr[pos..pos + left][2..] == addr[pos + 2..pos + left];
      r := (r + (addr[pos] as int * 0x100 + addr[pos + 1])) % TWO_TO_THE_32;
      pos, left := pos + 2, left - 2;
    }
    if left > 0 {
      r := (r + addr[pos]) % TWO_TO_THE_32;
    }
  }

  method ComputeFinalize(sum: u32) returns (r: u16)
    ensures r == Finalized(sum)
  {
    var s := sum;
    while s / 0x1_0000 != 0
      invariant 0 <= s < TWO_TO_THE_32 && Fold(s) == Fold(sum)
      decreases s
    {
      FoldStep(s);
      s := s % 0x1_0000 + s / 0x1_0000;
    }
    r := UINT16_MAX - s;
  }

  method Compute(addr: array<byte>, count: nat) returns (r: u16)
    requires count <= addr.Length
    ensures r == ChecksumOf(addr[..count])
  {
    assert addr[0..count] == addr[..count];
    var sum := ComputePartial(addr, 0, count, 0);
    r := ComputeFinalize(sum);
  }

  lemma NextWord(s: Bytes, sum: u32)
    requires |s| > 1
    ensures PartialSum(s, sum) == PartialSum(s[2..], (sum + (s[0] as int * 0x100 + s[1])) % TWO_TO_THE_32)
  {
    var w: nat := s[0] as int * 0x100 + s[1];
    assert WordSum(s) == w + WordSum(s[2..]);
    ModAdd(sum + w, WordSum(s[2..]));
  }

  lemma ModAdd(a: nat, b: nat)
    ensures (a % TWO_TO_THE_32 + b) % TWO_TO_THE_32 == (a + b) % TWO_TO_THE_32
  {
  }

  // --- Folding ---

  /** What `Fold` gives is the only number up to 0xffff congruent to its argument and 0 just when that is 0. */
  lemma FoldIs(n: nat, r: u16, k: int)
    requires n == r + k * UINT16_MAX && (r == 0 <==> n == 0)
    ensures Fold(n) == r
  {
    if n > 0 {
      ModUnique(n - 1, r - 1, k);
    }
  }

  lemma ModUnique(n: nat, r: nat, k: int)
    requires n == r + k * UINT16_MAX && r < UINT16_MAX
    ensures n % UINT16_MAX == r
  {
    var q := n / UINT16_MAX;
    assert (q - k) * UINT16_MAX == r - n % UINT16_MAX;
  }

  lemma FoldMeans(n: nat) returns (k: nat)
    ensures n == Fold(n) + k * UINT16_MAX && (Fold(n) == 0 <==> n == 0)
  {
    k := if n == 0 then 0 else (n - 1) / UINT16_MAX;
  }

  lemma FoldStep(s: u32)
    ensures Fold(s % 0x1_0000 + s / 0x1_0000) == Fold(s)
  {
    var k := FoldMeans(s);
    FoldIs(s % 0x1_0000 + s / 0x1_0000, Fold(s), k - s / 0x1_0000);
  }

  /** One's complement addition is addition modulo 0xffff, with the two zeros kept apart. */
  lemma FoldAdd(a: nat, b: nat)
    ensures Fold(a + b) == OnesAdd(Fold(a), Fold(b))
  {
    var j := FoldMeans(a);
    var k := FoldMeans(b);
    var r := OnesAdd(Fold(a), Fold(b));
    FoldIs(a + b, r, if Fold(a) + Fold(b) > UINT16_MAX then j + k + 1 else j + k);
  }

  // --- The fast form against the standard ---

  lemma {:induction false} OnesSumIsFold(s: Bytes)
    ensures OnesSum(s) == Fold(WordSum(s))
  {
    hide Fold, OnesAdd;
    if |s| <= 1 {
      FoldIs(WordSum(s), OnesSum(s), 0);
    } else {
      OnesSumIsFold(s[2..]);
      FoldIs(ReadBe16(s, 0), ReadBe16(s, 0), 0);
      FoldAdd(ReadBe16(s, 0), WordSum(s[2..]));
    }
  }

  /** The sum over at most 0x10001 words cannot overflow 32 bits. */
  lemma {:induction false} WordSumBound(s: Bytes)
    ensures WordSum(s) <= (|s| + 1) / 2 * UINT16_MAX
  {
    if |s| > 1 {
      WordSumBound(s[2..]);
      assert (|s| + 1) / 2 == (|s[2..]| + 1) / 2 + 1;
    }
  }

  /**
    The checksum is the complement of the one's complement sum if and only if what overflows the
    32-bit accumulator does no harm: nothing did, or what was lost was lost without a trace.
   */
  lemma ChecksumIsStandard(s: Bytes)
    ensures ChecksumOf(s) == UINT16_MAX - OnesSum(s) <==>
            WordSum(s) / TWO_TO_THE_32 % UINT16_MAX == 0 && (WordSum(s) == 0 || WordSum(s) % TWO_TO_THE_32 != 0)
  {
    OnesSumIsFold(s);
    var w := WordSum(s);
    var q, low := w / TWO_TO_THE_32, w % TWO_TO_THE_32;
    var j := FoldMeans(w);
    var k := FoldMeans(low);
    assert w == q * TWO_TO_THE_32 + low;
    assert TWO_TO_THE_32 == 0x1_0001 * UINT16_MAX + 1;
    assert w - low == q + q * 0x1_0001 * UINT16_MAX;
    if Fold(w) == Fold(low) {
      assert q == (j - k - q * 0x1_0001) * UINT16_MAX;
      ModUnique(q, 0, j - k - q * 0x1_0001);
    } else if q % UINT16_MAX == 0 && low != 0 {
      var m := q / UINT16_MAX;
      assert q == m * UINT16_MAX;
      FoldIs(w, Fold(low), k + m + q * 0x1_0001);
    }
  }

  /** The example of section 3 of RFC 1071, whose words add up to 0xddf2. */
  lemma ChecksumOfExample()
    ensures ChecksumOf([0x00, 0x01, 0xf2, 0x03, 0xf4, 0xf5, 0xf6, 0xf7]) == 0xffff - 0xddf2 == 0x220d
  {
    var s: Bytes := [0x00, 0x01, 0xf2, 0x03, 0xf4, 0xf5, 0xf6, 0xf7];
    assert s[2..] == [0xf2, 0x03, 0xf4, 0xf5, 0xf6, 0xf7] && s[2..][2..] == [0xf4, 0xf5, 0xf6, 0xf7];
    assert s[2..][2..][2..] == [0xf6, 0xf7] && s[2..][2..][2..][2..] == [];
    assert WordSum(s) == 0x0001 + 0xf203 + 0xf4f5 + 0xf6f7;
  }

  lemma ChecksumOfSmall(s: Bytes)
    requires |s| <= 0x2_0002
    ensures ChecksumOf(s) == UINT16_MAX - OnesSum(s)
  {
    hide WordSum, OnesSum, ChecksumOf;
    WordSumBound(s);
    ChecksumIsStandard(s);
    assert WordSum(s) <= 0x1_0001 * UINT16_MAX < TWO_TO_THE_32;
  }

  // --- Data in pieces ---

  lemma {:induction false} WordSumAppend(a: Bytes, b: Bytes)
    requires |a| % 2 == 0
    ensures WordSum(a + b) == WordSum(a) + WordSum(b)
  {
    if a == [] {
      assert a + b == b;
    } else {
      assert (a + b)[2..] == a[2..] + b;
      assert ReadBe16(a + b, 0) == ReadBe16(a, 0);
      WordSumAppend(a[2..], b);
    }
  }

  function Concat(chunks: seq<Bytes>): Bytes {
    if chunks == [] then [] else chunks[0] + Concat(chunks[1..])
  }

  /** The accumulator handed on from one chunk to the next. */
  function SumOfChunks(chunks: seq<Bytes>, sum: u32): u32 {
    if chunks == [] then sum else SumOfChunks(chunks[1..], PartialSum(chunks[0], sum))
  }

  /** An octet each of high and low order, in turn: the first less the second and so on, without the last. */
  function Alternating(c: Bytes): int {
    if |c| <= 1 then 0 else c[0] - Alternating(c[1..])
  }

  /** What comes after an odd chunk is added with high and low order exchanged. */
  lemma {:induction false} ShiftedSum(x: byte, b: Bytes)
    ensures WordSum([x] + b) == x + WordSum(b) + 0xff * Alternating([x] + b)
    decreases |b|
  {
    var c := [x] + b;
    if |b| == 1 {
      assert c[1..] == b && c[2..] == [];
    } else if |b| >= 2 {
      ShiftedSum(b[1], b[2..]);
      assert c[1..] == b && c[2..] == b[1..] == [b[1]] + b[2..];
      assert Alternating(c) == x - (b[0] - Alternating(b[1..]));
      assert WordSum(c) == x as int * 0x100 + b[0] + WordSum(b[1..]);
      assert WordSum(b) == b[0] as int * 0x100 + b[1] + WordSum(b[2..]);
    }
  }

  /** What is missing to the sum of a chunk and the rest, where the chunk is odd; nothing, where it is even. */
  function Slip(chunk: Bytes, rest: Bytes): int {
    if |chunk| % 2 == 0 then 0 else Alternating(chunk[|chunk| - 1..] + rest)
  }

  lemma OddSlips(a: Bytes, x: byte, rest: Bytes)
    requires |a| % 2 == 0
    ensures WordSum(a + ([x] + rest)) == WordSum(a + [x]) + WordSum(rest) + 0xff * Alternating([x] + rest)
  {
    hide WordSum, Alternating;
    OneOctet(x);
    WordSumAppend(a, [x]);
    WordSumAppend(a, [x] + rest);
    ShiftedSum(x, rest);
  }

  lemma OneOctet(x: byte)
    ensures WordSum([x]) == x
  {
  }

  lemma LastOctet(chunk: Bytes, rest: Bytes) returns (a: Bytes, x: byte)
    requires |chunk| % 2 == 1
    ensures |a| % 2 == 0 && chunk == a + [x] && chunk + rest == a + ([x] + rest) && chunk[|chunk| - 1..] == [x]
  {
    a, x := chunk[..|chunk| - 1], chunk[|chunk| - 1];
  }

  lemma WordSumSlips(chunk: Bytes, rest: Bytes)
    ensures WordSum(chunk + rest) == WordSum(chunk) + WordSum(rest) + 0xff * Slip(chunk, rest)
  {
    hide WordSum, Alternating;
    if |chunk| % 2 == 0 {
      WordSumAppend(chunk, rest);
    } else {
      var a, x := LastOctet(chunk, rest);
      OddSlips(a, x, rest);
    }
  }

  function Slips(chunks: seq<Bytes>): int {
    if chunks == [] then 0 else Slip(chunks[0], Concat(chunks[1..])) + Slips(chunks[1..])
  }

  lemma {:induction false} SumsSlip(chunks: seq<Bytes>, sum: u32)
    ensures (SumOfChunks(chunks, sum) + 0xff * Slips(chunks)) % TWO_TO_THE_32 == PartialSum(Concat(chunks), sum)
    decreases |chunks|
  {
    hide Slip, WordSum, SumOfChunks, Concat, Slips, PartialSum;
    if chunks == [] {
      NoChunks(sum);
    } else {
      FirstChunk(chunks, sum);
      var first, rest := chunks[0], Concat(chunks[1..]);
      WordSumSlips(first, rest);
      var a := PartialSum(first, sum);
      SumsSlip(chunks[1..], a);
      PartialSumIs(first, sum);
      PartialSumIs(rest, a);
      PartialSumIs(first + rest, sum);
      SlipStep(SumOfChunks(chunks[1..], a), Slips(chunks[1..]), Slip(first, rest), a, WordSum(rest), WordSum(first),
          sum);
    }
  }

  lemma NoChunks(sum: u32)
    ensures SumOfChunks([], sum) == PartialSum(Concat([]), sum) == sum && Slips([]) == 0
  {
  }

  lemma PartialSumIs(s: Bytes, sum: u32)
    ensures PartialSum(s, sum) == (sum + WordSum(s)) % TWO_TO_THE_32
  {
  }

  lemma FirstChunk(chunks: seq<Bytes>, sum: u32)
    requires chunks != []
    ensures SumOfChunks(chunks, sum) == SumOfChunks(chunks[1..], PartialSum(chunks[0], sum))
    ensures Slips(chunks) == Slip(chunks[0], Concat(chunks[1..])) + Slips(chunks[1..])
    ensures Concat(chunks) == chunks[0] + Concat(chunks[1..])
  {
  }

  lemma SlipStep(s: int, later: int, slip: int, a: int, w: int, first: int, sum: int)
    requires (s + 0xff * later) % TWO_TO_THE_32 == (a + w) % TWO_TO_THE_32
    requires a == (sum + first) % TWO_TO_THE_32
    ensures (s + 0xff * (slip + later)) % TWO_TO_THE_32 == (sum + (first + w + 0xff * slip)) % TWO_TO_THE_32
  {
    SameRest(s + 0xff * later, a + w, 0xff * slip);
    SameRest(a, sum + first, w + 0xff * slip);
    assert s + 0xff * (slip + later) == s + 0xff * later + 0xff * slip;
  }

  lemma SameRest(a: int, b: int, c: int)
    requires a % TWO_TO_THE_32 == b % TWO_TO_THE_32
    ensures (a + c) % TWO_TO_THE_32 == (b + c) % TWO_TO_THE_32
  {
    SameRestBy(a + c, b + c, a / TWO_TO_THE_32 - b / TWO_TO_THE_32);
  }

  /**
    Going chunk by chunk comes to the same as going over the whole if and only if what the odd chunks
    put out of place cancels out in the accumulator.
   */
  lemma ChunksComposeExactlyWhen(chunks: seq<Bytes>, sum: u32)
    ensures SumOfChunks(chunks, sum) == PartialSum(Concat(chunks), sum) <==> Slips(chunks) % TWO_TO_THE_32 == 0
  {
    hide Slips, PartialSum, SumOfChunks;
    SumsSlip(chunks, sum);
    NothingAdded(SumOfChunks(chunks, sum), Slips(chunks));
  }

  /** 0xff has an inverse modulo 2^32. */
  lemma NothingAdded(k: u32, x: int)
    ensures (k + 0xff * x) % TWO_TO_THE_32 == k <==> x % TWO_TO_THE_32 == 0
  {
    if (k + 0xff * x) % TWO_TO_THE_32 == k {
      Inverse(x, (k + 0xff * x) / TWO_TO_THE_32);
    }
    if x % TWO_TO_THE_32 == 0 {
      Multiple(k, x / TWO_TO_THE_32);
    }
  }

  lemma Inverse(x: int, m: int)
    requires 0xff * x == m * TWO_TO_THE_32
    ensures x % TWO_TO_THE_32 == 0
  {
    var y := x - 0x0101_0101 * m;
    assert x == y * TWO_TO_THE_32;
    WholeMultiple(x, y);
  }

  lemma Multiple(k: u32, m: int)
    ensures (k + 0xff * (m * TWO_TO_THE_32)) % TWO_TO_THE_32 == k
  {
    SameRestBy(k + 0xff * (m * TWO_TO_THE_32), k, 0xff * m);
  }

  lemma WholeMultiple(x: int, y: int)
    requires x == y * TWO_TO_THE_32
    ensures x % TWO_TO_THE_32 == 0
  {
    SameRestBy(x, 0, y);
  }

  lemma SameRestBy(a: int, b: int, q: int)
    requires a == b + q * TWO_TO_THE_32
    ensures a % TWO_TO_THE_32 == b % TWO_TO_THE_32
  {
    var j, k := a / TWO_TO_THE_32, b / TWO_TO_THE_32;
    assert (j - k - q) * TWO_TO_THE_32 == b % TWO_TO_THE_32 - a % TWO_TO_THE_32;
  }

  /** So it does where all chunks but the last have an even length. */
  lemma ChunksCompose(chunks: seq<Bytes>, sum: u32)
    requires forall i :: 0 <= i < |chunks| - 1 ==> |chunks[i]| % 2 == 0
    ensures SumOfChunks(chunks, sum) == PartialSum(Concat(chunks), sum)
  {
    hide SumOfChunks, PartialSum, Slips;
    EvenChunksStay(chunks);
    ChunksComposeExactlyWhen(chunks, sum);
  }

  lemma {:induction false} EvenChunksStay(chunks: seq<Bytes>)
    requires forall i :: 0 <= i < |chunks| - 1 ==> |chunks[i]| % 2 == 0
    ensures Slips(chunks) == 0
    decreases |chunks|
  {
    if |chunks| == 1 {
      assert Concat(chunks[1..]) == [] && Slips(chunks[1..]) == 0;
      assert |chunks[0]| % 2 == 1 ==> |chunks[0][|chunks[0]| - 1..] + []| == 1;
    } else if chunks != [] {
      EvenChunksStay(chunks[1..]);
    }
  }

  lemma TwoSlips(a: Bytes, b: Bytes)
    requires |a| % 2 == 1
    ensures Concat([a, b]) == a + b && Slips([a, b]) == Alternating(a[|a| - 1..] + b)
  {
    hide Alternating;
    assert [a, b][1..] == [b] && [b][1..] == [] && Concat([]) == [] && b + [] == b;
    assert Concat([b]) == b;
    LastSlips(b);
    assert Slips([b]) == Slip(b, []) + Slips([]);
  }

  lemma LastSlips(b: Bytes)
    ensures Slip(b, []) == 0
  {
    assert |b| % 2 == 1 ==> |b[|b| - 1..] + []| == 1;
  }

  /** An odd chunk and one after it compose if and only if the octets from the last of the first on cancel out. */
  lemma TwoChunks(a: Bytes, b: Bytes, sum: u32)
    requires |a| % 2 == 1
    ensures SumOfChunks([a, b], sum) == PartialSum(a + b, sum) <==>
            Alternating(a[|a| - 1..] + b) % TWO_TO_THE_32 == 0
  {
    hide *;
    TwoSlips(a, b);
    ChunksComposeExactlyWhen([a, b], sum);
  }

  /** An example of each. */
  lemma OddChunkDoesNotCompose()
    ensures SumOfChunks([[1], [0]], 0) != PartialSum([1] + [0], 0)
  {
    hide SumOfChunks, PartialSum;
    TwoChunks([1], [0], 0);
    assert [1][0..] + [0] == [1, 0] && [1, 0][1..] == [0] && Alternating([1, 0]) == 1;
  }

  lemma OddChunkComposes()
    ensures SumOfChunks([[5], [5, 7]], 0) == PartialSum([5] + [5, 7], 0)
  {
    hide SumOfChunks, PartialSum;
    TwoChunks([5], [5, 7], 0);
    assert [5][0..] + [5, 7] == [5, 5, 7] && [5, 5, 7][1..] == [5, 7] && [5, 7][1..] == [7];
    assert Alternating([5, 7]) == 5 && Alternating([5, 5, 7]) == 0;
  }

  /**
    The standard pads data of an odd length with a zero octet at the end, which makes its last octet
    a high-order one. The code agrees with that if and only if the last octet is zero.
   */
  lemma OddLength(s: Bytes)
    requires |s| % 2 == 1
    ensures OnesSum(s) == OnesSum(s + [0]) <==> s[|s| - 1] == 0
  {
    hide WordSum, OnesSum, Fold;
    var a, b := s[..|s| - 1], s[|s| - 1];
    assert s == a + [b] && s + [0] == a + [b, 0];
    WordSumAppend(a, [b]);
    WordSumAppend(a, [b, 0]);
    LastHighOrLow(b);
    OnesSumIsFold(s);
    OnesSumIsFold(s + [0]);
    FoldTells(WordSum(a), b);
  }

  lemma LastHighOrLow(b: byte)
    ensures WordSum([b]) == b && WordSum([b, 0]) == b * 0x100
  {
    assert [b, 0][2..] == [];
  }

  lemma FoldTells(n: nat, b: byte)
    ensures Fold(n + b) == Fold(n + b * 0x100) <==> b == 0
  {
    var j := FoldMeans(n + b);
    var k := FoldMeans(n + b * 0x100);
    hide Fold;
    if Fold(n + b) == Fold(n + b * 0x100) {
      assert b * 0xff == (k - j) * UINT16_MAX;
    }
  }

  // --- A checksum stored in the data ---

  /** Replacing a word at an even position changes the sum by the difference. */
  lemma {:induction false} WordSumReplace(s: Bytes, at: nat, y: u16)
    requires at % 2 == 0 && at + 2 <= |s|
    ensures WordSum(s[..at] + Be16(y) + s[at + 2..]) == WordSum(s) - ReadBe16(s, at) + y
  {
    var a, w, b := s[..at], s[at..at + 2], s[at + 2..];
    assert s == a + (w + b) && s[..at] + Be16(y) + s[at + 2..] == a + (Be16(y) + b);
    WordSumAppend(a, w + b);
    WordSumAppend(a, Be16(y) + b);
    WordSumAppend(w, b);
    WordSumAppend(Be16(y), b);
    ReadBe16Inverts(Be16(y), 0, y);
    WordSumOfWord(w);
    WordSumOfWord(Be16(y));
  }

  lemma WordSumOfWord(w: Bytes)
    requires |w| == 2
    ensures WordSum(w) == ReadBe16(w, 0)
  {
    assert WordSum(w[2..]) == 0;
  }

  lemma FoldIsFull(n: nat)
    ensures Fold(n) == UINT16_MAX <==> n != 0 && n % UINT16_MAX == 0
  {
    var k := FoldMeans(n);
    if Fold(n) == UINT16_MAX {
      ModUnique(n, 0, k + 1);
    } else {
      ModUnique(n, Fold(n), k);
    }
  }

  /** A checksum of zero says that the accumulator is a multiple of 0xffff other than zero. */
  lemma ZeroChecksum(s: Bytes)
    ensures ChecksumOf(s) == 0 <==> PartialSum(s, 0) != 0 && PartialSum(s, 0) % UINT16_MAX == 0
  {
    hide Fold, PartialSum;
    FoldIsFull(PartialSum(s, 0));
  }

  /** Data whose own checksum is stored in a field that was zero has a checksum of zero, whatever its length. */
  lemma SelfCheck(s: Bytes, at: nat)
    requires at % 2 == 0 && at + 2 <= |s| && ReadBe16(s, at) == 0
    ensures ChecksumOf(s[..at] + Be16(ChecksumOf(s)) + s[at + 2..]) == 0
  {
    hide *;
    var s' := s[..at] + Be16(ChecksumOf(s)) + s[at + 2..];
    WordSumReplace(s, at, ChecksumOf(s));
    PartialSumIs(s, 0);
    PartialSumIs(s', 0);
    FinalizedIs(s);
    ZeroChecksum(s');
    Completed(WordSum(s), PartialSum(s, 0), ChecksumOf(s), WordSum(s'), PartialSum(s', 0));
  }

  lemma FinalizedIs(s: Bytes)
    ensures ChecksumOf(s) == UINT16_MAX - Fold(PartialSum(s, 0))
  {
  }

  /** The accumulator and its checksum add up to a multiple of 0xffff that fits it. */
  lemma Completed(n: nat, low: u32, c: u16, n': nat, low': u32)
    requires low == n % TWO_TO_THE_32 && c == UINT16_MAX - Fold(low)
    requires n' == n + c && low' == n' % TWO_TO_THE_32
    ensures low' != 0 && low' % UINT16_MAX == 0
  {
    var k := FoldMeans(low);
    hide Fold;
    SameRest(low, n, c);
    assert low + c == (k + 1) * UINT16_MAX;
    assert k <= 0x1_0000;
    assert low' == low + c;
    ModUnique(low', 0, k + 1);
  }

  /**
    A word that changes on the way does not go unnoticed, unless it is one zero in place of the other;
    and that is noticed, too, where the accumulator was 0xffff and comes to 0, or was full.
   */
  lemma ChangedWord(s: Bytes, at: nat, y: u16)
    requires at % 2 == 0 && at + 2 <= |s| && ChecksumOf(s) == 0
    ensures var x, low := ReadBe16(s, at), PartialSum(s, 0);
            ChecksumOf(s[..at] + Be16(y) + s[at + 2..]) == 0 <==>
            || y == x
            || (x == 0 && y == UINT16_MAX && low != UINT32_MAX)
            || (x == UINT16_MAX && y == 0 && low != UINT16_MAX)
  {
    var s' := s[..at] + Be16(y) + s[at + 2..];
    WordSumReplace(s, at, y);
    hide WordSum, ChecksumOf, ReadBe16, Be16;
    ZeroChecksum(s);
    ZeroChecksum(s');
    var x, low := ReadBe16(s, at), PartialSum(s, 0);
    SameRest(low, WordSum(s), y - x);
    StillMultiple(low, PartialSum(s', 0), x, y);
  }

  lemma StillMultiple(n: u32, n': u32, x: u16, y: u16)
    requires n != 0 && n % UINT16_MAX == 0 && n' == (n - x + y) % TWO_TO_THE_32
    ensures n' != 0 && n' % UINT16_MAX == 0 <==>
            || y == x
            || (x == 0 && y == UINT16_MAX && n != UINT32_MAX)
            || (x == UINT16_MAX && y == 0 && n != UINT16_MAX)
  {
    var j, k := n / UINT16_MAX, n' / UINT16_MAX;
    assert n == j * UINT16_MAX && 1 <= j <= 0x1_0001;
    if n - x + y >= TWO_TO_THE_32 {
      assert n == UINT32_MAX && n' == y - x - 1 < UINT16_MAX;
    } else {
      if n' % UINT16_MAX == 0 {
        assert y - x == (k - j) * UINT16_MAX;
      }
      if x == 0 && y == UINT16_MAX {
        ModUnique(n', 0, j + 1);
      }
      if x == UINT16_MAX && y == 0 {
        ModUnique(n', 0, j - 1);
      }
    }
  }
}
