/**
 A byte string in pieces: the blocks of successive calls, the chunks of successive reads.
 */
module Blocks {
  import opened Alphabet

  function Flatten(blocks: seq<Bytes>): Bytes {
    if blocks == [] then [] else blocks[0] + Flatten(blocks[1..])
  }

  lemma FlattenNothing()
    ensures Flatten([]) == []
  {
  }

  lemma FlattenOne(b: Bytes)
    ensures Flatten([b]) == b
  {
    assert [b][1..] == [];
  }

  lemma FlattenStep(blocks: seq<Bytes>)
    requires blocks != []
    ensures Flatten(blocks) == blocks[0] + Flatten(blocks[1..])
  {
  }

  lemma {:induction false} FlattenConcat(blocks: seq<Bytes>, more: seq<Bytes>)
    ensures Flatten(blocks + more) == Flatten(blocks) + Flatten(more)
  {
    hide *;
    if blocks == [] {
      FlattenNothing();
      assert blocks + more == more;
    } else {
      FlattenConcat(blocks[1..], more);
      assert (blocks + more)[1..] == blocks[1..] + more;
      FlattenStep(blocks + more);
      FlattenStep(blocks);
    }
  }
}
