/** A fork: an ordered sequence of blocks. `blockchain.rs` is not part of this
    model; `is_notarized` is taken as "every block is notarized" (a notarized
    chain in Streamlet) and `add_block` as a push at the tail. */
module Blockchains {
  import opened Blocks

  datatype Blockchain = Blockchain(blocks: seq<Block>) {

    /** Every block of the chain is notarized. */
    predicate IsNotarized() {
      AllNotarized(blocks)
    }

    /** The chain with `b` pushed at its tail. */
    function AddBlock(b: Block): Blockchain {
      Blockchain(blocks + [b])
    }

    function Last(): Block
      requires |blocks| > 0
    {
      blocks[|blocks| - 1]
    }
  }

  /** Scans the blocks from the head and stops at the first one that is not
      notarized. */
  predicate AllNotarized(blocks: seq<Block>): (r: bool)
    ensures r <==> forall i :: 0 <= i < |blocks| ==> blocks[i].metadata.notarized
  {
    blocks == [] || (blocks[0].metadata.notarized && AllNotarized(blocks[1..]))
  }
}
