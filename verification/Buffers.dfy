/** Bounded buffers, and the pools through which the threads hand them on. */
module Buffers {
  import opened Bytes
  import opened Compression

  /** A buffer of fixed size, of which the first `dataSize` octets are in use. */
  class Buffer {
    var content: Bytes
    var dataSize: nat

    ghost predicate Valid()
      reads this
    {
      dataSize <= |content|
    }

    function Data(): Bytes
      requires Valid()
      reads this
    {
      content[..dataSize]
    }

    constructor (size: nat)
      ensures Valid() && |content| == size && Data() == []
    {
      content := seq(size, _ => 0);
      dataSize := 0;
    }

    /** Adds data at the end; `ok` is false, and nothing changes, where the original throws. */
    method Append(data: Bytes) returns (ok: bool)
      requires Valid()
      modifies this
      ensures Valid() && |content| == old(|content|)
      ensures ok <==> old(dataSize) + |data| <= |content|
      ensures Data() == if ok then old(Data()) + data else old(Data())
      ensures content == if ok then old(content[..dataSize]) + data + old(content)[old(dataSize) + |data|..]
          else old(content)
    {
      if |data| > |content| - dataSize {
        return false;
      }
      content := content[..dataSize] + data + content[dataSize + |data|..];
      dataSize := dataSize + |data|;
      return true;
    }

    method SetDataSize(size: nat) returns (ok: bool)
      requires Valid()
      modifies this`dataSize
      ensures Valid()
      ensures ok <==> size <= |content|
      ensures dataSize == if ok then size else old(dataSize)
    {
      if size > |content| {
        return false;
      }
      dataSize := size;
      return true;
    }

    method Clear()
      requires Valid()
      modifies this`dataSize
      ensures Valid() && Data() == []
    {
      dataSize := 0;
    }

    /** A write through the data pointer: inside the buffer, whatever part of it is in use. */
    method Write(at: nat, data: Bytes)
      requires Valid() && at + |data| <= |content|
      modifies this`content
      ensures Valid() && |content| == old(|content|)
      ensures content == old(content)[..at] + data + old(content)[at + |data|..]
    {
      content := content[..at] + data + content[at + |data|..];
    }
  }

  /** Buffers of one size, all fit for use. */
  ghost predicate AllOfSize(bs: seq<Buffer>, size: nat)
    reads bs
  {
    forall i :: 0 <= i < |bs| ==> bs[i].Valid() && |bs[i].content| == size
  }

  ghost function Datas(bs: seq<Buffer>): (s: seq<Bytes>)
    requires forall i :: 0 <= i < |bs| ==> bs[i].Valid()
    reads bs
    ensures |s| == |bs| && forall i :: 0 <= i < |bs| ==> s[i] == bs[i].Data()
  {
    if bs == [] then [] else [bs[0].Data()] + Datas(bs[1..])
  }

  /** A buffer was taken from the front of a pool, or arrived there while it was waited for. */
  ghost predicate Drawn(av: seq<Buffer>, arr: multiset<Buffer>, b: Buffer, av': seq<Buffer>, arr': multiset<Buffer>) {
    if av != [] then b == av[0] && av' == av[1..] && arr' == arr
    else av' == [] && arr' == arr + multiset{b}
  }

  ghost predicate Distinct(bs: seq<Buffer>) {
    forall i, j :: 0 <= i < j < |bs| ==> bs[i] != bs[j]
  }

  lemma NoneDistinct()
    ensures Distinct([])
  {
  }

  lemma DistinctSnoc(bs: seq<Buffer>, b: Buffer)
    requires Distinct(bs) && b !in bs
    ensures Distinct(bs + [b])
  {
  }

  /**
    A queue of buffers shared by threads, each of whose operations runs under its lock; so any
    interleaving of threads is a sequence of calls. The logs `pushed` and `taken` record what went
    in and out, and `arrived` what another thread put in while a call of this one was waiting. A
    thread that puts a buffer in gives it up, so what `delivered` records is what the taker gets.
   */
  class BufferPool {
    var pool: seq<Buffer>
    const bufferSize: nat
    ghost var pushed: seq<Buffer>
    ghost var taken: seq<Buffer>
    ghost var arrived: multiset<Buffer>
    // What the buffers put in one by one held when they were put in.
    ghost var delivered: seq<Bytes>

    /** First in, first out: what was taken, then what is there, is what was put in, in order. */
    ghost predicate Fifo()
      reads this
    {
      pushed == taken + pool
    }

    ghost predicate Valid()
      reads this, pool
    {
      Fifo() && AllOfSize(pool, bufferSize) && Distinct(pool)
    }

    /** The buffer that is taken next, if there is one. */
    ghost function Next(): set<Buffer>
      reads this`pool
    {
      if pool == [] then {} else {pool[0]}
    }

    constructor Empty(size: nat)
      ensures Valid() && bufferSize == size && pool == [] && pushed == [] && arrived == multiset{} && delivered == []
    {
      pool, bufferSize, pushed, taken, arrived, delivered := [], size, [], [], multiset{}, [];
    }

    /** A pool with new buffers in it. */
    constructor Filled(size: nat, count: nat)
      ensures Valid() && bufferSize == size && |pool| == count && pushed == pool && arrived == multiset{}
      ensures forall b :: b in pool ==> fresh(b) && b.Data() == []
    {
      hide Distinct;
      pool, bufferSize, pushed, taken, arrived, delivered := [], size, [], [], multiset{}, [];
      new;
      NoneDistinct();
      for i := 0 to count
        invariant Valid() && |pool| == i && taken == [] && arrived == multiset{}
        invariant forall b :: b in pool ==> fresh(b) && b.dataSize == 0
      {
        var buffer := new Buffer(bufferSize);
        DistinctSnoc(pool, buffer);
        pool := pool + [buffer];
        pushed := pushed + [buffer];
      }
    }

    /** Takes up to `count` buffers, or all of them when `count` is 0; the pool gets the rest. */
    method PopCount(count: nat) returns (result: seq<Buffer>)
      requires Valid()
      modifies this`pool, this`taken
      ensures Valid()
      ensures result == old(pool)[..if count == 0 || count > |old(pool)| then |old(pool)| else count]
      ensures result + pool == old(pool)
      ensures taken == old(taken) + result
    {
      result := [];
      var i := 0;
      while (count == 0 || i < count) && i != |pool|
        invariant i <= |pool| && (count == 0 || i <= count)
        invariant result == pool[..i]
        decreases |pool| - i
      {
        result := result + [pool[i]];
        i := i + 1;
      }
      assert pool == pool[..i] + pool[i..];
      assert taken + pool == (taken + result) + pool[i..];
      pool := pool[i..];
      taken := taken + result;
    }

    /**
      Takes all buffers, waiting for some if there are none: for as long as it takes if `timeout` is
      0, else until it is over. `others` is what other threads have put in when the wait ends by a
      notification, and None when it ends by the timeout. False means that the wait timed out.
     */
    method WaitFor(timeout: nat, others: Option<seq<Buffer>>) returns (got: bool, results: seq<Buffer>)
      requires Valid()
      requires timeout == 0 && pool == [] ==> others.Some?
      requires others.Some? ==> Distinct(others.value) && AllOfSize(others.value, bufferSize)
      modifies this`pool, this`taken, this`pushed, this`arrived
      ensures Valid()
      ensures got <==> old(pool) != [] || others.Some?
      ensures !got ==> timeout != 0
      ensures pool == [] && results == if old(pool) != [] then old(pool) else if others.Some? then others.value else []
      ensures taken == old(taken) + results
      ensures pushed == old(pushed) + if old(pool) == [] then results else []
    {
      results := [];
      if pool != [] {
        results := PopCount(0);
        return true, results;
      }
      if others.None? {
        return false, [];
      }
      assert taken + others.value == (taken + []) + others.value;
      pool := others.value;
      pushed := pushed + others.value;
      arrived := arrived + multiset(others.value);
      results := PopCount(0);
      return true, results;
    }

    /** Takes the first buffer; null where the original throws because there is none. */
    method Pop() returns (buffer: Buffer?)
      requires Valid()
      modifies this`pool, this`taken
      ensures Valid()
      ensures buffer == null <==> old(pool) == []
      ensures if old(pool) == [] then pool == [] && taken == old(taken)
              else buffer == old(pool)[0] && pool == old(pool)[1..] && taken == old(taken) + [old(pool)[0]]
    {
      if pool == [] {
        return null;
      }
      buffer := pool[0];
      assert taken + pool == (taken + [pool[0]]) + pool[1..];
      taken := taken + [pool[0]];
      pool := pool[1..];
    }

    /**
      Takes the first buffer, waiting for one if there is none. The wait ends when another thread
      has put a buffer in, of which nothing is known but that it is of the pool's size and that
      none of ours holds it: it is modelled by a new one.
     */
    method PopWait() returns (buffer: Buffer)
      requires Valid()
      modifies this`pool, this`taken, this`pushed, this`arrived
      ensures Valid() && buffer.Valid() && |buffer.content| == bufferSize && buffer !in pool
      ensures taken == old(taken) + [buffer]
      ensures Drawn(old(pool), old(arrived), buffer, pool, arrived)
      ensures if old(pool) == [] then fresh(buffer) && pushed == old(pushed) + [buffer] else pushed == old(pushed)
    {
      if pool == [] {
        buffer := new Buffer(bufferSize);
        pool := [buffer];
        pushed := pushed + [buffer];
        arrived := arrived + multiset{buffer};
      }
      buffer := pool[0];
      assert taken + pool == (taken + [pool[0]]) + pool[1..];
      taken := taken + [pool[0]];
      pool := pool[1..];
    }

    /** Puts a buffer in at the end; `ok` is false where the original throws for its size. */
    method Push(buffer: Buffer) returns (ok: bool)
      requires Valid() && buffer.Valid() && buffer !in pool
      modifies this`pool, this`pushed, this`delivered
      ensures Valid()
      ensures ok <==> |buffer.content| == bufferSize
      ensures delivered == (if ok then old(delivered) + [buffer.Data()] else old(delivered))
      ensures pool == (if ok then old(pool) + [buffer] else old(pool))
      ensures pushed == (if ok then old(pushed) + [buffer] else old(pushed))
    {
      if |buffer.content| != bufferSize {
        return false;
      }
      assert taken + (pool + [buffer]) == taken + pool + [buffer];
      pool := pool + [buffer];
      pushed := pushed + [buffer];
      delivered := delivered + [buffer.Data()];
      return true;
    }

    /** Puts a list of buffers in, all or, when one is of the wrong size, none. */
    method PushAll(buffers: seq<Buffer>) returns (ok: bool)
      requires Valid() && Distinct(buffers) && (forall b :: b in buffers ==> b.Valid() && b !in pool)
      modifies this`pool, this`pushed
      ensures Valid()
      ensures ok <==> forall i :: 0 <= i < |buffers| ==> |buffers[i].content| == bufferSize
      ensures pool == (if ok then old(pool) + buffers else old(pool))
      ensures pushed == (if ok then old(pushed) + buffers else old(pushed))
    {
      for i := 0 to |buffers|
        invariant forall j :: 0 <= j < i ==> |buffers[j].content| == bufferSize
      {
        if |buffers[i].content| != bufferSize {
          return false;
        }
      }
      assert taken + (pool + buffers) == taken + pool + buffers;
      pool := pool + buffers;
      pushed := pushed + buffers;
      return true;
    }
  }
}
