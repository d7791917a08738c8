/** Blocks and block proposals (`src/consensus/block.rs`), together with the
    vote and metadata records they carry. A block is identified by its parent
    hash `st`, its slot `sl` and its transactions `txs`; its metadata (votes,
    notarization and finalization flags, participants) never takes part in
    equality or hashing. */
module Blocks {
  import opened Externals

  /** The identifying part of a block: what `Block`'s equality compares and
      what its `Hash` implementation feeds to a hasher. */
  datatype BlockKey = BlockKey(st: string, sl: nat, txs: seq<Tx>)

  /** The wire form of a block, signed by its proposer. Its equality is the
      derived one, over all six fields. */
  datatype BlockProposal = BlockProposal(
    publicKey: PublicKey,
    signature: Signature,
    id: nat,
    st: string,
    sl: nat,
    txs: seq<Tx>)

  /** A vote of node `id` for the proposal `block`, with the voter's signature
      over the encoded proposal. */
  datatype Vote = Vote(nodePublicKey: PublicKey, vote: Signature, block: BlockProposal, id: nat)

  /** Block metadata: the placeholders `proof`, `r`, `s`, the participants
      snapshot, and the Streamlet part (votes, notarized, finalized). */
  datatype Metadata = Metadata(
    proof: string,
    r: string,
    s: string,
    participants: seq<Participant>,
    votes: seq<Vote>,
    notarized: bool,
    finalized: bool)

  datatype Block = Block(st: string, sl: nat, txs: seq<Tx>, metadata: Metadata)

  /** A hasher, abstractly: the value `finish()` returns (as a decimal string)
      after the keys in the sequence were fed into one fresh `DefaultHasher`. */
  type Hasher = seq<BlockKey> -> string

  /** Metadata as created with a new block: no votes, neither notarized nor
      finalized. */
  function NewMetadata(proof: string, r: string, s: string, participants: seq<Participant>): (m: Metadata)
    ensures m.votes == [] && !m.notarized && !m.finalized
    ensures m.participants == participants
  {
    Metadata(proof, r, s, participants, [], false, false)
  }

  /** `Block::new`: the identifying fields are stored verbatim. */
  function NewBlock(st: string, sl: nat, txs: seq<Tx>, proof: string, r: string, s: string,
                    participants: seq<Participant>): (b: Block)
    ensures Key(b) == BlockKey(st, sl, txs)
    ensures b.metadata.votes == [] && !b.metadata.notarized && !b.metadata.finalized
  {
    Block(st, sl, txs, NewMetadata(proof, r, s, participants))
  }

  function Key(b: Block): BlockKey {
    BlockKey(b.st, b.sl, b.txs)
  }

  function ProposalKey(p: BlockProposal): BlockKey {
    BlockKey(p.st, p.sl, p.txs)
  }

  /** `PartialEq for Block`: two blocks are equal exactly when their
      identifying keys are. */
  predicate BlockEq(a: Block, b: Block): (r: bool)
    ensures r <==> Key(a) == Key(b)
  {
    a.st == b.st && a.sl == b.sl && a.txs == b.txs
  }

  /** `proposal_eq_block`: the proposal and the block agree on `st`, `sl` and
      `txs`. */
  predicate ProposalEqBlock(p: BlockProposal, b: Block): (r: bool)
    ensures r <==> ProposalKey(p) == Key(b)
  {
    p.st == b.st && p.sl == b.sl && p.txs == b.txs
  }

  /** `Hash for Block`, fed into a fresh hasher: the parent hash, slot and
      transactions go in, and nothing of the metadata. */
  function BlockHash(hash: Hasher, b: Block): (r: string)
    ensures r == hash([BlockKey(b.st, b.sl, b.txs)])
    ensures forall c: Block :: Key(c) == Key(b) ==> hash([Key(c)]) == r
  {
    hash([Key(b)])
  }

  /** Block equality ignores metadata. */
  lemma MetadataIgnoredByEq(b: Block, m: Metadata)
    ensures BlockEq(b, b.(metadata := m))
  {
  }

  /** Equal blocks hash equal, whatever the hasher. */
  lemma EqualBlocksHashEqual(hash: Hasher, a: Block, b: Block)
    requires BlockEq(a, b)
    ensures BlockHash(hash, a) == BlockHash(hash, b)
  {
  }

  /** A block built from a proposal's fields matches that proposal. */
  lemma NewBlockMatchesProposal(p: BlockProposal, proof: string, r: string, s: string, ps: seq<Participant>)
    ensures ProposalEqBlock(p, NewBlock(p.st, p.sl, p.txs, proof, r, s, ps))
  {
  }

  /** Matching a proposal is preserved by block equality. */
  lemma ProposalEqBlockRespectsEq(p: BlockProposal, b: Block, b2: Block)
    requires ProposalEqBlock(p, b) && BlockEq(b, b2)
    ensures ProposalEqBlock(p, b2)
  {
  }

  /** Two proposals with the same key from different proposers are unequal,
      yet both match every block that either matches. */
  lemma DistinctProposersMatchSameBlock(p1: BlockProposal, p2: BlockProposal, b: Block)
    requires ProposalKey(p1) == ProposalKey(p2) && p1.publicKey != p2.publicKey
    requires ProposalEqBlock(p1, b)
    ensures p1 != p2 && ProposalEqBlock(p2, b)
  {
  }
}
