// The answer blocks the post-synthesis steps rewrite, and the few things every step asks of them.
module Blocks {

  datatype Option<+T> = None | Some(value: T)

  datatype Kind =
    | PolicyFact
    | Recommendation
    | Escalation
    | Record
    | Performed
    | OtherKind(name: string)

  // `id` is what the `_block_id` key holds, `policyClaim` whether `_policy_claim` is set.
  datatype Block = Block(kind: Kind, text: string, citations: seq<string>, id: Option<int>, policyClaim: bool)

  // Every citation some block carries.
  function CitationsOf(blocks: seq<Block>): set<string> {
    set b, c | b in blocks && c in b.citations :: c
  }

  lemma LastBlock(blocks: seq<Block>)
    requires blocks != []
    ensures blocks == blocks[..|blocks| - 1] + [blocks[|blocks| - 1]]
  {
  }

  // Two blocks say the same thing, in whichever sense a step merges blocks by.
  type Sameness = (Block, Block) -> bool

  // Every citation of `from` is in `to`, on a block that says the same thing.
  ghost predicate Housed(same: Sameness, from: seq<Block>, to: seq<Block>) {
    forall i, c :: 0 <= i < |from| && c in from[i].citations ==>
      exists j :: 0 <= j < |to| && c in to[j].citations && same(from[i], to[j])
  }

  lemma HousedAt(same: Sameness, from: seq<Block>, to: seq<Block>, i: nat, c: string) returns (j: nat)
    requires Housed(same, from, to) && i < |from| && c in from[i].citations
    ensures j < |to| && c in to[j].citations && same(from[i], to[j])
  {
    j :| j < |to| && c in to[j].citations && same(from[i], to[j]);
  }

  lemma HousedCitations(same: Sameness, from: seq<Block>, to: seq<Block>)
    requires Housed(same, from, to)
    ensures CitationsOf(from) <= CitationsOf(to)
  {
    forall c | c in CitationsOf(from) ensures c in CitationsOf(to) {
      var i :| 0 <= i < |from| && c in from[i].citations;
      var j := HousedAt(same, from, to, i, c);
    }
  }
}
