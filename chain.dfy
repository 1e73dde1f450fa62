/**
 * How a file's bytes are laid out over its block chain: block k of the chain
 * holds bytes [k * BlockSize, k * BlockSize + BlockSize) of the file, the last
 * block only as many as remain.
 */
module ByteChain {
  import opened Layout

  /** Bytes of a `size`-byte file that land in chain block k. */
  function ChunkLen(size: int, k: int): (n: int)
    requires 0 <= size && 0 <= k < BlocksNeeded(size)
    ensures 0 < n <= BlockSize
    ensures k * BlockSize + n <= size
    ensures n < BlockSize ==> k * BlockSize + n == size
  {
    Min(BlockSize, size - k * BlockSize)
  }

  /** The part of `bytes` that chain block k holds. */
  function Chunk(bytes: seq<bv8>, k: int): (c: seq<bv8>)
    requires 0 <= k < BlocksNeeded(|bytes|)
    ensures |c| == ChunkLen(|bytes|, k)
    ensures forall j :: 0 <= j < |c| ==> c[j] == bytes[k * BlockSize + j]
  {
    bytes[k * BlockSize .. k * BlockSize + ChunkLen(|bytes|, k)]
  }

  /** Every chain entry names a full-sized block of the arena. */
  predicate ChainInArena(arena: seq<seq<bv8>>, chain: seq<int>)
  {
    forall p :: 0 <= p < |chain| ==> 0 <= chain[p] < |arena| && |arena[chain[p]]| == BlockSize
  }

  /**
   * The bytes read back from a chain while `remaining` bytes are still
   * wanted: the first min(BlockSize, remaining) bytes of each block in order.
   */
  function ReadChain(arena: seq<seq<bv8>>, chain: seq<int>, remaining: int): seq<bv8>
    requires ChainInArena(arena, chain)
    decreases |chain|
  {
    if remaining <= 0 || chain == [] then []
    else arena[chain[0]][..Min(BlockSize, remaining)] + ReadChain(arena, chain[1..], remaining - BlockSize)
  }

  /** Block k of the chain begins with the k-th chunk of `bytes`. */
  predicate HoldsChunks(arena: seq<seq<bv8>>, chain: seq<int>, bytes: seq<bv8>)
    requires ChainInArena(arena, chain)
    requires |chain| == BlocksNeeded(|bytes|)
  {
    forall k :: 0 <= k < |chain| ==>
      arena[chain[k]][..ChunkLen(|bytes|, k)] == Chunk(bytes, k)
  }

  /** Round trip: reading back a chain that holds the chunks of `bytes` yields `bytes`. */
  lemma {:induction false} ReadChainRoundTrip(arena: seq<seq<bv8>>, chain: seq<int>, bytes: seq<bv8>)
    requires ChainInArena(arena, chain)
    requires |chain| == BlocksNeeded(|bytes|)
    requires HoldsChunks(arena, chain, bytes)
    ensures ReadChain(arena, chain, |bytes|) == bytes
    decreases |chain|
  {
    if bytes != [] {
      var m := Min(BlockSize, |bytes|);
      assert arena[chain[0]][..m] == Chunk(bytes, 0);
      if |bytes| <= BlockSize {
        assert chain[1..] == [];
        assert bytes == Chunk(bytes, 0);
      } else {
        var rest := bytes[BlockSize..];
        HoldsChunksTail(arena, chain, bytes);
        ReadChainRoundTrip(arena, chain[1..], rest);
        assert bytes == Chunk(bytes, 0) + rest;
      }
    }
  }

  /** The blocks after the first hold the chunks of the bytes after the first block. */
  lemma HoldsChunksTail(arena: seq<seq<bv8>>, chain: seq<int>, bytes: seq<bv8>)
    requires ChainInArena(arena, chain)
    requires |chain| == BlocksNeeded(|bytes|) && |bytes| > BlockSize
    requires HoldsChunks(arena, chain, bytes)
    ensures ChainInArena(arena, chain[1..])
    ensures |chain[1..]| == BlocksNeeded(|bytes| - BlockSize)
    ensures HoldsChunks(arena, chain[1..], bytes[BlockSize..])
  {
    var rest := bytes[BlockSize..];
    var tail := chain[1..];
    forall k | 0 <= k < |tail|
      ensures arena[tail[k]][..ChunkLen(|rest|, k)] == Chunk(rest, k)
    {
      assert ChunkLen(|rest|, k) == ChunkLen(|bytes|, k + 1);
      assert arena[chain[k + 1]][..ChunkLen(|bytes|, k + 1)] == Chunk(bytes, k + 1);
      assert Chunk(rest, k) == Chunk(bytes, k + 1);
    }
  }

  /** Reading from chain slot k on takes block k's first min(BlockSize, remaining) bytes, then reads on from slot k + 1. */
  lemma ReadChainFrom(arena: seq<seq<bv8>>, chain: seq<int>, k: int, remaining: int)
    requires ChainInArena(arena, chain)
    requires 0 <= k < |chain| && remaining > 0
    ensures ChainInArena(arena, chain[k..]) && ChainInArena(arena, chain[k + 1..])
    ensures ReadChain(arena, chain[k..], remaining) ==
            arena[chain[k]][..Min(BlockSize, remaining)] + ReadChain(arena, chain[k + 1..], remaining - BlockSize)
  {
    assert chain[k..][0] == chain[k];
    assert chain[k..][1..] == chain[k + 1..];
  }

  /** Reading a chain depends only on the blocks in the chain. */
  lemma {:induction false} ReadChainFrame(a1: seq<seq<bv8>>, a2: seq<seq<bv8>>, chain: seq<int>, remaining: int)
    requires ChainInArena(a1, chain) && ChainInArena(a2, chain)
    requires forall p :: 0 <= p < |chain| ==> a1[chain[p]] == a2[chain[p]]
    ensures ReadChain(a1, chain, remaining) == ReadChain(a2, chain, remaining)
    decreases |chain|
  {
    if remaining > 0 && chain != [] {
      ReadChainFrame(a1, a2, chain[1..], remaining - BlockSize);
    }
  }

  /** Reading back a chain of exactly BlocksNeeded(remaining) blocks yields exactly `remaining` bytes. */
  lemma {:induction false} ReadChainLength(arena: seq<seq<bv8>>, chain: seq<int>, remaining: int)
    requires ChainInArena(arena, chain)
    requires 0 <= remaining
    requires |chain| == BlocksNeeded(remaining)
    ensures |ReadChain(arena, chain, remaining)| == remaining
    decreases |chain|
  {
    if remaining > 0 {
      if remaining > BlockSize {
        ReadChainLength(arena, chain[1..], remaining - BlockSize);
      } else {
        assert chain[1..] == [];
      }
    }
  }
}
