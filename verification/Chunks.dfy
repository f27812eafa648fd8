/** Data cut into pieces. */
module Chunks {
  import opened AesGcm

  /** A piece of data that is not empty. */
  type Chunk = c: bytes | c != [] witness [0]

  function Concat(chunks: seq<bytes>): bytes {
    if chunks == [] then [] else Concat(chunks[..|chunks| - 1]) + chunks[|chunks| - 1]
  }

  lemma ConcatPush(prefix: bytes, chunks: seq<bytes>, chunk: bytes)
    ensures prefix + Concat(chunks + [chunk]) == prefix + Concat(chunks) + chunk
  {
    assert (chunks + [chunk])[..|chunks|] == chunks;
    assert prefix + (Concat(chunks) + chunk) == prefix + Concat(chunks) + chunk;
  }

  lemma {:induction false} ConcatFront(first: bytes, rest: seq<bytes>)
    ensures Concat([first] + rest) == first + Concat(rest)
  {
    if rest == [] {
      assert [first] + rest == [first];
      assert Concat([first]) == Concat([]) + first;
    } else {
      var n := |rest| - 1;
      assert ([first] + rest)[..n + 1] == [first] + rest[..n];
      ConcatFront(first, rest[..n]);
    }
  }

  predicate AllWithin(chunks: seq<bytes>, limit: nat) {
    forall i :: 0 <= i < |chunks| ==> |chunks[i]| <= limit
  }

  predicate AllOf(chunks: seq<bytes>, size: nat) {
    forall i :: 0 <= i < |chunks| ==> |chunks[i]| == size
  }

  function ButLast(chunks: seq<bytes>): seq<bytes> {
    if chunks == [] then [] else chunks[..|chunks| - 1]
  }

  lemma PushSizes(chunks: seq<bytes>, chunk: bytes, limit: nat, size: nat)
    ensures AllWithin(chunks, limit) && |chunk| <= limit ==> AllWithin(chunks + [chunk], limit)
    ensures AllOf(chunks, size) && |chunk| == size ==> AllOf(chunks + [chunk], size)
    ensures ButLast(chunks + [chunk]) == chunks
    ensures AllOf(chunks, size) ==> AllOf(ButLast(chunks), size)
  {
  }

  /** Where piece `k` starts in the whole. */
  function Offset(chunks: seq<bytes>, k: nat): nat
    requires k <= |chunks|
  {
    |Concat(chunks[..k])|
  }

  lemma OffsetStep(chunks: seq<bytes>, k: nat)
    requires k < |chunks|
    ensures Concat(chunks[..k + 1]) == Concat(chunks[..k]) + chunks[k]
    ensures Offset(chunks, k + 1) == Offset(chunks, k) + |chunks[k]|
  {
    assert chunks[..k + 1][..k] == chunks[..k];
  }

  lemma {:induction false} OffsetsIncrease(chunks: seq<bytes>, i: nat, j: nat)
    requires i < j <= |chunks|
    ensures Offset(chunks, i) + |chunks[i]| <= Offset(chunks, j)
    decreases j
  {
    OffsetStep(chunks, j - 1);
    if i < j - 1 {
      OffsetsIncrease(chunks, i, j - 1);
    }
  }
}
