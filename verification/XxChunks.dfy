/** Input cut into chunks. */
module XxChunks {
  import opened Lz4Block

  /** The bytes of a list of chunks. */
  function Concat(chunks: seq<seq<byte>>): seq<byte> {
    if chunks == [] then [] else Concat(chunks[..|chunks| - 1]) + chunks[|chunks| - 1]
  }

  lemma ConcatSteps(chunks: seq<seq<byte>>, i: nat)
    ensures Concat([]) == []
    ensures i < |chunks| ==> Concat(chunks[..i + 1]) == Concat(chunks[..i]) + chunks[i]
  {
    if i < |chunks| { assert chunks[..i + 1][..i] == chunks[..i]; }
  }
}
