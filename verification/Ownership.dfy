/**
  Who holds which buffer. The encoder and the decoder each hold two pools, a list of buffers in
  flight, and single buffers: the one that is being filled, the one for the compressor, and the one
  that a call has in hand. Every buffer is in one place only, and none gets lost.
 */
module Ownership {
  import opened Buffers

  ghost function One(b: Buffer?): multiset<Buffer> {
    if b == null then multiset{} else var b': Buffer := b; multiset{b'}
  }

  /** The buffers in two pools, an in-flight list and three slots, each as often as it occurs. */
  ghost function AllHeld(av: seq<Buffer>, tx: seq<Buffer>, inflight: seq<Buffer>, b: Buffer, c: Buffer?, h: Buffer?):
    multiset<Buffer>
  {
    multiset(av) + multiset(tx) + multiset(inflight) + multiset{b} + One(c) + One(h)
  }

  /** No buffer is in two of these places. */
  ghost predicate AllApart(av: seq<Buffer>, tx: seq<Buffer>, inflight: seq<Buffer>, b: Buffer, c: Buffer?, h: Buffer?) {
    && b !in av && b !in tx && b !in inflight && b != c && b != h
    && (c != null ==> c !in av && c !in tx && c !in inflight)
    && (h != null ==> h !in av && h !in tx && h !in inflight && h != c)
    && (forall x :: x in inflight ==> x !in av && x !in tx)
    && (forall x :: x in av ==> x !in tx)
    && Distinct(inflight)
  }

  /** Where the held buffers changed from `h` to `h1`, they gained just what arrived meanwhile. */
  ghost predicate Conserved(h: multiset<Buffer>, a: multiset<Buffer>, h1: multiset<Buffer>, a1: multiset<Buffer>) {
    h1 + a == h + a1
  }

  lemma NothingMoved(h: multiset<Buffer>, a: multiset<Buffer>)
    ensures Conserved(h, a, h, a)
  {
  }

  lemma Carry(h: multiset<Buffer>, a: multiset<Buffer>, h1: multiset<Buffer>, a1: multiset<Buffer>,
              h2: multiset<Buffer>, a2: multiset<Buffer>)
    requires Conserved(h, a, h1, a1) && Conserved(h1, a1, h2, a2)
    ensures Conserved(h, a, h2, a2)
  {
    forall x: Buffer | x in h2 + a || x in h + a2 ensures (h2 + a)[x] == (h + a2)[x] {
      assert (h1 + a)[x] == (h + a1)[x] && (h2 + a1)[x] == (h1 + a2)[x];
    }
  }

  lemma PoolDistinct(p: BufferPool)
    requires p.Valid()
    ensures Distinct(p.pool)
  {
  }

  /** A buffer that is drawn was in the pool, or has just arrived. */
  lemma DrawnMoves(av: seq<Buffer>, arr: multiset<Buffer>, b: Buffer, av': seq<Buffer>, arr': multiset<Buffer>)
    requires Drawn(av, arr, b, av', arr')
    ensures multiset(av') + multiset{b} + arr == multiset(av) + arr'
  {
    if av != [] {
      assert av == [av[0]] + av[1..];
    }
  }

  /** A buffer that is drawn, and what is left, were in the pool, unless it has just arrived. */
  lemma DrawnFrom(av: seq<Buffer>, arr: multiset<Buffer>, b: Buffer, av': seq<Buffer>, arr': multiset<Buffer>)
    requires Drawn(av, arr, b, av', arr')
    ensures b in av || av == []
    ensures forall x :: x in av' ==> x in av
  {
  }

  lemma Exchanged(av: multiset<Buffer>, arr: multiset<Buffer>, b': multiset<Buffer>, av': multiset<Buffer>,
                  arr': multiset<Buffer>, b: multiset<Buffer>, tx: multiset<Buffer>, inflight: multiset<Buffer>,
                  c: multiset<Buffer>, h: multiset<Buffer>)
    requires av' + b' + arr == av + arr'
    ensures av' + (tx + b) + inflight + b' + c + h + arr == av + tx + inflight + b + c + h + arr'
  {
    var all, all' := av' + (tx + b) + inflight + b' + c + h + arr, av + tx + inflight + b + c + h + arr';
    forall x: Buffer | x in all || x in all' ensures all[x] == all'[x] {
      assert (av' + b' + arr)[x] == (av + arr')[x];
    }
  }

  /** A buffer goes to the end of a pool, another comes from the front of one, or from elsewhere. */
  lemma HeldMoves(av: seq<Buffer>, av': seq<Buffer>, tx: seq<Buffer>, inflight: seq<Buffer>, c: Buffer?, h: Buffer?,
                  b: Buffer, b': Buffer, arr: multiset<Buffer>, arr': multiset<Buffer>)
    requires Drawn(av, arr, b', av', arr')
    ensures AllHeld(av', tx + [b], inflight, b', c, h) + arr == AllHeld(av, tx, inflight, b, c, h) + arr'
  {
    hide One, Drawn;
    DrawnMoves(av, arr, b', av', arr');
    Exchanged(multiset(av), arr, multiset{b'}, multiset(av'), arr', multiset{b}, multiset(tx), multiset(inflight),
              One(c), One(h));
  }

  lemma ApartMoves(av: seq<Buffer>, av': seq<Buffer>, tx: seq<Buffer>, inflight: seq<Buffer>, c: Buffer?, h: Buffer?,
                   b: Buffer, b': Buffer, arr: multiset<Buffer>, arr': multiset<Buffer>)
    requires Drawn(av, arr, b', av', arr') && Distinct(av) && AllApart(av, tx, inflight, b, c, h)
    requires av == [] ==> b' !in tx && b' !in inflight && b' != c && b' != h && b' != b
    ensures AllApart(av', tx + [b], inflight, b', c, h)
  {
    if av != [] {
      assert b' in av;
      forall x | x in av' ensures x in av && x != b' {}
    }
  }

  lemma AllOfSizeSnoc(bs: seq<Buffer>, b: Buffer, size: nat)
    requires AllOfSize(bs, size) && b.Valid() && |b.content| == size
    ensures AllOfSize(bs + [b], size) && forall i :: 0 <= i < |bs| ==> bs[i].Valid()
  {
  }

  lemma DatasSnoc(bs: seq<Buffer>, b: Buffer)
    requires b.Valid() && forall i :: 0 <= i < |bs| ==> bs[i].Valid()
    ensures Datas(bs + [b]) == Datas(bs) + [b.Data()]
  {
    hide Datas;
  }

  lemma ApartNew(av: seq<Buffer>, tx: seq<Buffer>, inflight: seq<Buffer>, b: Buffer, c: Buffer?, h: Buffer)
    requires AllApart(av, tx, inflight, b, c, null)
    requires h !in av && h !in tx && h !in inflight && h != b && h != c
    ensures AllApart(av, tx, inflight, b, c, h)
  {
  }

  /** What is in hand is nowhere else. */
  lemma ApartInHand(av: seq<Buffer>, tx: seq<Buffer>, inflight: seq<Buffer>, b: Buffer, c: Buffer?, h: Buffer)
    requires AllApart(av, tx, inflight, b, c, h)
    ensures h !in av && h !in tx && h !in inflight && h != b && h != c
    ensures c != null ==> c !in av && c !in tx && c !in inflight && c != b
  {
  }

  /** The raw buffer goes in flight, the compressor's buffer comes in hand. */
  lemma HeldSwaps(av: seq<Buffer>, tx: seq<Buffer>, inflight: seq<Buffer>, b: Buffer, c: Buffer, h: Buffer)
    ensures AllHeld(av, tx, inflight + [h], b, null, c) == AllHeld(av, tx, inflight, b, c, h)
  {
  }

  lemma ApartSwaps(av: seq<Buffer>, tx: seq<Buffer>, inflight: seq<Buffer>, b: Buffer, c: Buffer, h: Buffer)
    requires AllApart(av, tx, inflight, b, c, h)
    ensures AllApart(av, tx, inflight + [h], b, null, c)
  {
  }

  /** The buffer in hand becomes the compressor's. */
  lemma HeldBack(av: seq<Buffer>, tx: seq<Buffer>, inflight: seq<Buffer>, b: Buffer, h: Buffer)
    ensures AllHeld(av, tx, inflight, b, h, null) == AllHeld(av, tx, inflight, b, null, h)
  {
  }

  lemma ApartBack(av: seq<Buffer>, tx: seq<Buffer>, inflight: seq<Buffer>, b: Buffer, h: Buffer)
    requires AllApart(av, tx, inflight, b, null, h)
    ensures AllApart(av, tx, inflight, b, h, null)
  {
  }

  /** The buffer in hand goes back to the pool. */
  lemma HeldGives(av: seq<Buffer>, tx: seq<Buffer>, inflight: seq<Buffer>, b: Buffer, c: Buffer?, h: Buffer)
    ensures AllHeld(av + [h], tx, inflight, b, c, null) == AllHeld(av, tx, inflight, b, c, h)
    ensures AllHeld(av, tx, inflight, b, c, h) == AllHeld(av, tx, inflight, b, c, null) + multiset{h}
  {
  }

  lemma ApartGives(av: seq<Buffer>, tx: seq<Buffer>, inflight: seq<Buffer>, b: Buffer, c: Buffer?, h: Buffer)
    requires AllApart(av, tx, inflight, b, c, h)
    ensures AllApart(av + [h], tx, inflight, b, c, null)
  {
  }

  /** The buffer in hand goes in flight. */
  lemma HeldJoins(av: seq<Buffer>, tx: seq<Buffer>, inflight: seq<Buffer>, b: Buffer, c: Buffer?, h: Buffer)
    ensures AllHeld(av, tx, inflight + [h], b, c, null) == AllHeld(av, tx, inflight, b, c, h)
  {
  }

  lemma ApartJoins(av: seq<Buffer>, tx: seq<Buffer>, inflight: seq<Buffer>, b: Buffer, c: Buffer?, h: Buffer)
    requires AllApart(av, tx, inflight, b, c, h)
    ensures AllApart(av, tx, inflight + [h], b, c, null)
  {
  }

  /** The two single buffers change roles. */
  lemma HeldSwapped(av: seq<Buffer>, tx: seq<Buffer>, inflight: seq<Buffer>, b: Buffer, c: Buffer, h: Buffer?)
    ensures AllHeld(av, tx, inflight, c, b, h) == AllHeld(av, tx, inflight, b, c, h)
  {
  }

  lemma ApartSwapped(av: seq<Buffer>, tx: seq<Buffer>, inflight: seq<Buffer>, b: Buffer, c: Buffer, h: Buffer?)
    requires AllApart(av, tx, inflight, b, c, h)
    ensures AllApart(av, tx, inflight, c, b, h)
  {
  }

  lemma HeldReturns(av: seq<Buffer>, tx: seq<Buffer>, inflight: seq<Buffer>, b: Buffer, c: Buffer?, h: Buffer?)
    ensures AllHeld(av + inflight, tx, [], b, c, h) == AllHeld(av, tx, inflight, b, c, h)
  {
  }

  lemma ApartReturns(av: seq<Buffer>, tx: seq<Buffer>, inflight: seq<Buffer>, b: Buffer, c: Buffer?, h: Buffer?)
    requires AllApart(av, tx, inflight, b, c, h)
    ensures AllApart(av + inflight, tx, [], b, c, h)
  {
  }

  /** The two buffers an encoder starts with. */
  lemma DrawsApart(av: seq<Buffer>, arr: multiset<Buffer>, c: Buffer, av1: seq<Buffer>, arr1: multiset<Buffer>,
                   b: Buffer, av2: seq<Buffer>, arr2: multiset<Buffer>, tx: seq<Buffer>)
    requires Drawn(av, arr, c, av1, arr1) && Drawn(av1, arr1, b, av2, arr2)
    requires Distinct(av) && forall x :: x in av ==> x !in tx
    requires av == [] ==> c !in tx
    requires av1 == [] ==> b !in tx && b != c
    ensures AllApart(av2, tx, [], b, c, null)
  {
    if av != [] {
      assert c in av;
    }
    if av1 != [] {
      assert b in av;
    }
  }

  lemma DrawsHeld(av: seq<Buffer>, arr: multiset<Buffer>, c: Buffer, av1: seq<Buffer>, arr1: multiset<Buffer>,
                  b: Buffer, av2: seq<Buffer>, arr2: multiset<Buffer>, tx: seq<Buffer>)
    requires Drawn(av, arr, c, av1, arr1) && Drawn(av1, arr1, b, av2, arr2)
    ensures AllHeld(av2, tx, [], b, c, null) + arr == multiset(av) + multiset(tx) + arr2
  {
    if av != [] {
      assert av == [av[0]] + av[1..];
    }
    if av1 != [] {
      assert av1 == [av1[0]] + av1[1..];
    }
  }
}
