/** Cutting a byte string into chunks of a fixed size, and putting the chunks back together. */
module Chunking {
  import opened Arith
  import opened Wire

  /** Chunks of `size` bytes, the last one possibly shorter; an empty string is one empty chunk. */
  function Chunks(data: seq<byte>, size: nat): (chunks: seq<seq<byte>>)
    requires size > 0
    ensures |chunks| > 0
    decreases |data|
  {
    if |data| <= size then [data] else [data[..size]] + Chunks(data[size..], size)
  }

  function Flatten(chunks: seq<seq<byte>>): seq<byte> {
    if chunks == [] then [] else chunks[0] + Flatten(chunks[1..])
  }

  /** Nothing is lost or reordered by chunking. */
  lemma {:induction false} FlattenChunks(data: seq<byte>, size: nat)
    requires size > 0
    ensures Flatten(Chunks(data, size)) == data
    decreases |data|
  {
    var chunks := Chunks(data, size);
    if |data| <= size {
      assert chunks[1..] == [];
    } else {
      FlattenChunks(data[size..], size);
      assert chunks[1..] == Chunks(data[size..], size);
      assert data == data[..size] + data[size..];
    }
  }

  lemma {:induction false} ChunkCount(data: seq<byte>, size: nat)
    requires size > 0
    ensures |Chunks(data, size)| == if data == [] then 1 else DivCeil(|data|, size)
    decreases |data|
  {
    if |data| > size {
      ChunkCount(data[size..], size);
      DivCeilStep(|data|, size);
    } else if data != [] {
      assert |data| + size - 1 == size * 1 + (|data| - 1);
      QuotientUnique(size, 1, |data| - 1);
    }
  }

  lemma SliceOfRest(data: seq<byte>, size: nat, lo: nat, hi: nat)
    requires size <= lo <= hi <= |data|
    ensures data[size..][lo - size..hi - size] == data[lo..hi]
  {
  }

  /** The `i`-th chunk is the slice that starts `i * size` bytes in. */
  lemma {:induction false} ChunkAt(data: seq<byte>, size: nat, i: nat)
    requires size > 0 && i < |Chunks(data, size)|
    ensures 0 <= i * size <= Min((i + 1) * size, |data|)
    ensures Chunks(data, size)[i] == data[i * size..Min((i + 1) * size, |data|)]
    ensures |Chunks(data, size)[i]| <= Min(size, |data|)
    decreases i
  {
    if i > 0 {
      ChunkAt(data[size..], size, i - 1);
      assert Chunks(data, size)[i] == Chunks(data[size..], size)[i - 1];
      assert (i - 1) * size == i * size - size && (i + 1) * size == i * size + size;
      var lo, hi := i * size, Min((i + 1) * size, |data|);
      SliceOfRest(data, size, lo, hi);
    } else {
      assert i * size == 0 && (i + 1) * size == size;
    }
  }

  /** Every chunk but the last is full. */
  lemma {:induction false} ChunkLengths(data: seq<byte>, size: nat, i: nat)
    requires size > 0 && i < |Chunks(data, size)|
    ensures |Chunks(data, size)[i]| <= size
    ensures i + 1 < |Chunks(data, size)| ==> |Chunks(data, size)[i]| == size
    decreases i
  {
    if i > 0 {
      ChunkLengths(data[size..], size, i - 1);
    }
  }
}
