/** The read-only computations of the consensus `State` (`src/consensus/state.rs`)
    as functions over the values of its fields: which transactions are still
    unproposed, the longest notarized fork, whether a fork is notarized up to
    its new tail, which fork a block extends, where a voted block lives, the
    quorum, and what finalization turns the forks, the canonical chain, the
    transaction pool and the orphan votes into. */
module StateQueries {
  import opened Seqs
  import opened Externals
  import opened Blocks
  import opened Blockchains

  /** The parts of `State` that finalization rewrites. */
  datatype Ledger = Ledger(
    canonical: Blockchain,
    forks: seq<Blockchain>,
    unconfirmedTxs: seq<Tx>,
    orphanVotes: seq<Vote>)

  /** Every fork holds at least one block. */
  predicate NonEmptyForks(forks: seq<Blockchain>) {
    forall i :: 0 <= i < |forks| ==> |forks[i].blocks| > 0
  }

  // ---------------------------------------------------------------------------
  // Unproposed transactions

  /** The transactions of `blocks`, block by block. */
  function ChainTxs(blocks: seq<Block>): seq<Tx>
    decreases |blocks|
  {
    if blocks == [] then [] else ChainTxs(blocks[..|blocks| - 1]) + blocks[|blocks| - 1].txs
  }

  /** The transactions of every block of every fork, fork by fork. */
  function ForkTxs(forks: seq<Blockchain>): seq<Tx>
    decreases |forks|
  {
    if forks == [] then [] else ForkTxs(forks[..|forks| - 1]) + ChainTxs(forks[|forks| - 1].blocks)
  }

  /** A transaction occurs in `ChainTxs(blocks)` exactly when some block
      holds it. */
  lemma {:induction false} ChainTxsHolds(blocks: seq<Block>)
    ensures forall tx :: tx in ChainTxs(blocks) <==> exists j :: 0 <= j < |blocks| && tx in blocks[j].txs
    decreases |blocks|
  {
    if blocks != [] {
      var init := blocks[..|blocks| - 1];
      ChainTxsHolds(init);
      assert forall j :: 0 <= j < |init| ==> init[j] == blocks[j];
    }
  }

  /** A transaction occurs in `ForkTxs(forks)` exactly when some block of
      some fork holds it. */
  lemma {:induction false} ForkTxsHolds(forks: seq<Blockchain>)
    ensures forall tx :: tx in ForkTxs(forks) <==>
      exists i, j :: 0 <= i < |forks| && 0 <= j < |forks[i].blocks| && tx in forks[i].blocks[j].txs
    decreases |forks|
  {
    if forks != [] {
      var init := forks[..|forks| - 1];
      ForkTxsHolds(init);
      ChainTxsHolds(forks[|forks| - 1].blocks);
      assert forall i :: 0 <= i < |init| ==> init[i] == forks[i];
    }
  }

  lemma ChainTxsStep(blocks: seq<Block>, j: nat)
    requires j < |blocks|
    ensures ChainTxs(blocks[..j + 1]) == ChainTxs(blocks[..j]) + blocks[j].txs
  {
    assert blocks[..j + 1][..j] == blocks[..j];
  }

  /** One block's step of removing a chain's transactions from a pool. */
  lemma RemoveChainTxsStep(pool: seq<Tx>, blocks: seq<Block>, j: nat)
    requires j < |blocks|
    ensures RemoveAll(RemoveAll(pool, ChainTxs(blocks[..j])), blocks[j].txs)
         == RemoveAll(pool, ChainTxs(blocks[..j + 1]))
  {
    ChainTxsStep(blocks, j);
    RemoveAllConcat(pool, ChainTxs(blocks[..j]), blocks[j].txs);
  }

  lemma ForkTxsStep(forks: seq<Blockchain>, i: nat)
    requires i < |forks|
    ensures ForkTxs(forks[..i + 1]) == ForkTxs(forks[..i]) + ChainTxs(forks[i].blocks)
  {
    assert forks[..i + 1][..i] == forks[..i];
  }

  /** `get_unproposed_txs`: the pool with one occurrence of each transaction
      found in a fork's block removed. The canonical chain is not consulted. */
  function GetUnproposedTxs(unconfirmedTxs: seq<Tx>, forks: seq<Blockchain>): (r: seq<Tx>)
    ensures multiset(r) <= multiset(unconfirmedTxs)
    ensures forall tx :: tx in unconfirmedTxs && tx !in ForkTxs(forks) ==> tx in r
  {
    var r := RemoveAll(unconfirmedTxs, ForkTxs(forks));
    assert forall tx :: tx in unconfirmedTxs && tx !in ForkTxs(forks) ==> multiset(r)[tx] > 0;
    r
  }

  /** The unproposed transactions keep the pool's order, and each occurrence
      of a transaction in a fork block cancels one occurrence in the pool. */
  lemma UnproposedTxsSubseq(unconfirmedTxs: seq<Tx>, forks: seq<Blockchain>)
    ensures IsSubseq(GetUnproposedTxs(unconfirmedTxs, forks), unconfirmedTxs)
    ensures multiset(GetUnproposedTxs(unconfirmedTxs, forks)) == multiset(unconfirmedTxs) - multiset(ForkTxs(forks))
  {
    RemoveAllSubseq(unconfirmedTxs, ForkTxs(forks));
  }

  /** When the pool has no duplicates, the unproposed transactions are
      exactly the pool's transactions that occur in no block of any fork, in
      pool order. */
  lemma UnproposedTxsNoDup(unconfirmedTxs: seq<Tx>, forks: seq<Blockchain>)
    requires NoDup(unconfirmedTxs)
    ensures GetUnproposedTxs(unconfirmedTxs, forks) == Filter(unconfirmedTxs, NotIn(ForkTxs(forks)))
    ensures forall tx :: tx in GetUnproposedTxs(unconfirmedTxs, forks) <==>
      tx in unconfirmedTxs && tx !in ForkTxs(forks)
  {
    var ts := ForkTxs(forks);
    RemoveAllNoDup(unconfirmedTxs, ts);
    FilterMembers(unconfirmedTxs, NotIn(ts));
    var r := GetUnproposedTxs(unconfirmedTxs, forks);
    forall tx ensures tx in r <==> tx in unconfirmedTxs && tx !in ts {
      assert NotIn(ts)(tx) == (tx !in ts);
    }
  }

  // ---------------------------------------------------------------------------
  // Longest notarized fork

  /** A fork that `find_longest_notarized_chain` may pick: notarized and
      longer than the initial length 0. */
  predicate Qualifies(f: Blockchain) {
    f.IsNotarized() && |f.blocks| > 0
  }

  /** Fork `i` is the first qualifying fork of maximal length. */
  ghost predicate FirstLongest(forks: seq<Blockchain>, i: int) {
    && 0 <= i < |forks|
    && Qualifies(forks[i])
    && (forall k :: 0 <= k < |forks| && Qualifies(forks[k]) ==> |forks[k].blocks| <= |forks[i].blocks|)
    && (forall k :: 0 <= k < i && Qualifies(forks[k]) ==> |forks[k].blocks| < |forks[i].blocks|)
  }

  /** The loop of `find_longest_notarized_chain` after the first `n` forks:
      the index of the chain picked so far (-1 for the canonical chain) and
      the length it recorded. */
  function LongestScan(forks: seq<Blockchain>, n: nat): (r: (int, nat))
    requires n <= |forks|
    ensures -1 <= r.0 < n
    ensures r.0 == -1 <==> forall k :: 0 <= k < n ==> !Qualifies(forks[k])
    ensures r.0 == -1 ==> r.1 == 0
    ensures r.0 >= 0 ==> Qualifies(forks[r.0]) && r.1 == |forks[r.0].blocks|
    ensures r.0 >= 0 ==> forall k :: 0 <= k < n && Qualifies(forks[k]) ==> |forks[k].blocks| <= r.1
    ensures r.0 >= 0 ==> forall k :: 0 <= k < r.0 && Qualifies(forks[k]) ==> |forks[k].blocks| < r.1
  {
    if n == 0 then (-1, 0)
    else
      var (i, length) := LongestScan(forks, n - 1);
      var f := forks[n - 1];
      if f.IsNotarized() && |f.blocks| > length then (n - 1, |f.blocks|) else (i, length)
  }

  /** `find_longest_notarized_chain`: the canonical chain when no fork
      qualifies, otherwise the first qualifying fork of maximal length (ties
      keep the earlier fork). */
  function FindLongestNotarizedChain(canonical: Blockchain, forks: seq<Blockchain>): (c: Blockchain)
    ensures |canonical.blocks| > 0 ==> |c.blocks| > 0
    ensures (forall k :: 0 <= k < |forks| ==> !Qualifies(forks[k])) ==> c == canonical
    ensures (exists k :: 0 <= k < |forks| && Qualifies(forks[k])) ==>
      exists i :: FirstLongest(forks, i) && c == forks[i]
  {
    var (i, _) := LongestScan(forks, |forks|);
    if i == -1 then canonical else forks[i]
  }

  // ---------------------------------------------------------------------------
  // Voting rule

  /** `extends_notarized_blockchain`: every block but the last is notarized. */
  predicate ExtendsNotarizedBlockchain(chain: Blockchain): (r: bool)
    requires |chain.blocks| > 0
    ensures r <==> forall i :: 0 <= i < |chain.blocks| - 1 ==> chain.blocks[i].metadata.notarized
  {
    AllNotarized(chain.blocks[..|chain.blocks| - 1])
  }

  // ---------------------------------------------------------------------------
  // Which fork a block extends

  /** The keys of the tails of the first `n` forks, in order: what the one
      hasher of `find_extended_blockchain_index` has been fed after `n`
      iterations. */
  function TailKeys(forks: seq<Blockchain>, n: nat): (r: seq<BlockKey>)
    requires n <= |forks| && NonEmptyForks(forks)
    ensures |r| == n
    ensures forall k :: 0 <= k < n ==> r[k] == Key(forks[k].Last())
  {
    if n == 0 then [] else TailKeys(forks, n - 1) + [Key(forks[n - 1].Last())]
  }

  /** The test of iteration `i`: the block's parent hash equals the hasher's
      value after the tails of forks 0..i, and its slot is past the tail's
      (or equal to it, for the leader). */
  predicate ForkExtends(hash: Hasher, forks: seq<Blockchain>, i: nat, block: Block, leader: bool)
    requires i < |forks| && NonEmptyForks(forks)
  {
    var h := hash(TailKeys(forks, i + 1));
    var last := forks[i].Last();
    (leader && block.st == h && block.sl >= last.sl) || (!leader && block.st == h && block.sl > last.sl)
  }

  /** The hasher's value in the canonical test: the tails of all forks, then
      the canonical tail. */
  function CanonicalTailHash(hash: Hasher, canonical: Blockchain, forks: seq<Blockchain>): string
    requires |canonical.blocks| > 0 && NonEmptyForks(forks)
  {
    hash(TailKeys(forks, |forks|) + [Key(canonical.Last())])
  }

  /** The canonical test as written: `&&` binds tighter than `||`. */
  predicate CanonicalRejects(hash: Hasher, canonical: Blockchain, forks: seq<Blockchain>, block: Block, leader: bool)
    requires |canonical.blocks| > 0 && NonEmptyForks(forks)
  {
    var h := CanonicalTailHash(hash, canonical, forks);
    var last := canonical.Last();
    ((leader && block.st != h) || block.sl < last.sl) || ((!leader && block.st != h) || block.sl <= last.sl)
  }

  /** The loop of `find_extended_blockchain_index` from iteration `i` on. */
  function ExtendedIndexFrom(hash: Hasher, canonical: Blockchain, forks: seq<Blockchain>, block: Block,
                             leader: bool, i: nat): (r: int)
    requires i <= |forks| && |canonical.blocks| > 0 && NonEmptyForks(forks)
    ensures r == -2 || r == -1 || i <= r < |forks|
    ensures r >= 0 ==> ForkExtends(hash, forks, r, block, leader)
    ensures r >= 0 ==> forall k :: i <= k < r ==> !ForkExtends(hash, forks, k, block, leader)
    ensures r < 0 ==> forall k :: i <= k < |forks| ==> !ForkExtends(hash, forks, k, block, leader)
    ensures r < 0 ==> (r == -2 <==> CanonicalRejects(hash, canonical, forks, block, leader))
    decreases |forks| - i
  {
    if i == |forks| then
      if CanonicalRejects(hash, canonical, forks, block, leader) then -2 else -1
    else if ForkExtends(hash, forks, i, block, leader) then i
    else ExtendedIndexFrom(hash, canonical, forks, block, leader, i + 1)
  }

  /** `find_extended_blockchain_index`: the first fork whose test passes;
      otherwise -1 exactly when the block's parent hash is the canonical
      test's hash and its slot is past the canonical tail's, whatever
      `leader` is; otherwise -2. */
  function FindExtendedBlockchainIndex(hash: Hasher, canonical: Blockchain, forks: seq<Blockchain>,
                                       block: Block, leader: bool): (r: int)
    requires |canonical.blocks| > 0 && NonEmptyForks(forks)
    ensures -2 <= r < |forks|
    ensures r >= 0 ==> ForkExtends(hash, forks, r, block, leader)
    ensures r >= 0 ==> forall k :: 0 <= k < r ==> !ForkExtends(hash, forks, k, block, leader)
    ensures r == -1 <==>
      (forall k :: 0 <= k < |forks| ==> !ForkExtends(hash, forks, k, block, leader))
      && block.st == CanonicalTailHash(hash, canonical, forks) && block.sl > canonical.Last().sl
    ensures r == -2 <==>
      (forall k :: 0 <= k < |forks| ==> !ForkExtends(hash, forks, k, block, leader))
      && !(block.st == CanonicalTailHash(hash, canonical, forks) && block.sl > canonical.Last().sl)
  {
    ExtendedIndexFrom(hash, canonical, forks, block, leader, 0)
  }

  /** The index is the first fork whose test passes. */
  lemma ExtendedIndexIsFirst(hash: Hasher, canonical: Blockchain, forks: seq<Blockchain>, block: Block,
                             leader: bool, i: nat)
    requires |canonical.blocks| > 0 && NonEmptyForks(forks) && i < |forks|
    requires ForkExtends(hash, forks, i, block, leader)
    requires forall k :: 0 <= k < i ==> !ForkExtends(hash, forks, k, block, leader)
    ensures FindExtendedBlockchainIndex(hash, canonical, forks, block, leader) == i
  {
  }

  /** The leader flag only relaxes the fork tests: when no fork test passes
      for either flag, the result does not depend on it. */
  lemma CanonicalTestIgnoresLeader(hash: Hasher, canonical: Blockchain, forks: seq<Blockchain>, block: Block)
    requires |canonical.blocks| > 0 && NonEmptyForks(forks)
    requires FindExtendedBlockchainIndex(hash, canonical, forks, block, true) < 0
    ensures FindExtendedBlockchainIndex(hash, canonical, forks, block, false)
         == FindExtendedBlockchainIndex(hash, canonical, forks, block, true)
  {
    forall k | 0 <= k < |forks|
      ensures !ForkExtends(hash, forks, k, block, false)
    {
      assert !ForkExtends(hash, forks, k, block, true);
    }
  }

  /** For fork 0 the shared hasher has seen only that fork's tail, so its
      test compares against the tail block's own hash. */
  lemma FirstForkUsesTailHash(hash: Hasher, forks: seq<Blockchain>, block: Block, leader: bool)
    requires 0 < |forks| && NonEmptyForks(forks)
    ensures ForkExtends(hash, forks, 0, block, leader) <==>
      block.st == BlockHash(hash, forks[0].Last()) &&
      (if leader then block.sl >= forks[0].Last().sl else block.sl > forks[0].Last().sl)
  {
    assert TailKeys(forks, 1) == [Key(forks[0].Last())];
  }

  // ---------------------------------------------------------------------------
  // Voting on a proposal

  /** The test of the orphan vote loop of `vote_block`: the vote is for the
      block with key `k`. */
  function MatchesKey(k: BlockKey): Vote -> bool {
    (v: Vote) => ProposalKey(v.block) == k
  }

  /** The block `vote_block` builds from a proposal: the proposal's fields,
      the participants snapshot, and the orphan votes cast for it, in their
      order. */
  function ProposedBlock(proposal: BlockProposal, participants: seq<Participant>, orphanVotes: seq<Vote>): (b: Block)
    ensures ProposalEqBlock(proposal, b)
    ensures b.metadata.participants == participants
    ensures !b.metadata.notarized && !b.metadata.finalized
  {
    var b := NewBlock(proposal.st, proposal.sl, proposal.txs, "proof", "r", "s", participants);
    b.(metadata := b.metadata.(votes := Filter(orphanVotes, MatchesKey(ProposalKey(proposal)))))
  }

  /** The proposed block carries exactly the orphan votes cast for it, in
      the order they arrived. */
  lemma ProposedBlockVotes(proposal: BlockProposal, participants: seq<Participant>, orphanVotes: seq<Vote>)
    ensures var votes := ProposedBlock(proposal, participants, orphanVotes).metadata.votes;
      && IsSubseq(votes, orphanVotes)
      && forall vote :: vote in votes <==> vote in orphanVotes && ProposalKey(vote.block) == ProposalKey(proposal)
  {
    FilterSubseq(orphanVotes, MatchesKey(ProposalKey(proposal)));
    FilterMembers(orphanVotes, MatchesKey(ProposalKey(proposal)));
  }

  /** The forks after `vote_block` placed `block` by the index it found:
      untouched for -2, a new one-block fork for -1, the block pushed onto
      fork `idx` otherwise. */
  function PlaceBlock(forks: seq<Blockchain>, idx: int, block: Block): (r: seq<Blockchain>)
    requires -2 <= idx < |forks|
    ensures idx == -2 ==> r == forks
    ensures idx == -1 ==> r == forks + [Blockchain([block])]
    ensures idx >= 0 ==> |r| == |forks| && r[idx].blocks == forks[idx].blocks + [block]
    ensures idx >= 0 ==> forall k :: 0 <= k < |forks| && k != idx ==> r[k] == forks[k]
    ensures NonEmptyForks(forks) ==> NonEmptyForks(r)
  {
    if idx == -2 then forks
    else if idx == -1 then forks + [Blockchain([block])]
    else forks[idx := forks[idx].AddBlock(block)]
  }

  /** The fork that received the block, whose notarization decides the vote. */
  function PlacedChain(forks: seq<Blockchain>, idx: int, block: Block): (c: Blockchain)
    requires -1 <= idx < |forks|
    ensures |c.blocks| > 0 && c.Last() == block
  {
    if idx == -1 then Blockchain([block]) else forks[idx].AddBlock(block)
  }

  /** `after` is `forks` once `vote_block` placed `block` by the fork index
      found for it, and `voted` says whether a vote was cast: exactly when a
      place was found and the chain holding the block is notarized below
      it. */
  predicate Placed(hash: Hasher, canonical: Blockchain, forks: seq<Blockchain>, block: Block, leader: bool,
                   after: seq<Blockchain>, voted: bool)
    requires |canonical.blocks| > 0 && NonEmptyForks(forks)
  {
    var idx := FindExtendedBlockchainIndex(hash, canonical, forks, block, leader);
    && after == PlaceBlock(forks, idx, block)
    && (voted <==> idx != -2 && ExtendsNotarizedBlockchain(PlacedChain(forks, idx, block)))
  }

  /** `after` is the ledger `l` once `vote_block` handled `proposal` with
      the participant snapshot `snapshot`: the orphan votes for the block
      moved onto it, the block placed, nothing else changed; `voted` says
      whether a vote was cast. */
  ghost predicate Applied(hash: Hasher, l: Ledger, snapshot: seq<Participant>, proposal: BlockProposal, leader: bool,
                          after: Ledger, voted: bool)
    requires LedgerInvariant(l)
  {
    var matching := IndicesWhere(l.orphanVotes, MatchesKey(ProposalKey(proposal)));
    && after.canonical == l.canonical
    && after.unconfirmedTxs == l.unconfirmedTxs
    && RemovalsInBounds(|l.orphanVotes|, matching)
    && after.orphanVotes == RemoveEach(l.orphanVotes, matching)
    && Placed(hash, l.canonical, l.forks, ProposedBlock(proposal, snapshot, l.orphanVotes), leader, after.forks, voted)
  }

  /** A node votes for a block it placed exactly when the fork the block
      extends is notarized throughout; a block that starts a new fork off
      the canonical chain is always voted for. */
  lemma VoteNeedsNotarizedParent(forks: seq<Blockchain>, idx: int, block: Block)
    requires -1 <= idx < |forks|
    ensures idx == -1 ==> ExtendsNotarizedBlockchain(PlacedChain(forks, idx, block))
    ensures idx >= 0 ==> (ExtendsNotarizedBlockchain(PlacedChain(forks, idx, block)) <==> forks[idx].IsNotarized())
  {
    var c := PlacedChain(forks, idx, block);
    if idx >= 0 {
      assert c.blocks[..|c.blocks| - 1] == forks[idx].blocks;
    }
  }

  // ---------------------------------------------------------------------------
  // Counting a vote

  /** The block after `receive_vote` recorded a new vote, with `nodesCount`
      participants counted before the vote arrived: notarized once more than
      two thirds of them voted, and never un-notarized. */
  function CountVote(b: Block, vote: Vote, nodesCount: nat): (r: Block)
    ensures Key(r) == Key(b)
    ensures r.metadata.votes == b.metadata.votes + [vote]
    ensures r.metadata.notarized <==> b.metadata.notarized || 3 * |r.metadata.votes| > 2 * nodesCount
    ensures r.metadata.finalized == b.metadata.finalized
  {
    var votes := b.metadata.votes + [vote];
    QuorumIsTwoThirds(|votes|, nodesCount);
    b.(metadata := b.metadata.(votes := votes, notarized := b.metadata.notarized || |votes| > Quorum(nodesCount)))
  }

  /** Counting `vote` notarizes `b` now, which triggers the finalization
      check. */
  predicate NewlyNotarized(b: Block, vote: Vote, nodesCount: nat) {
    !b.metadata.notarized && |b.metadata.votes| + 1 > Quorum(nodesCount)
  }

  // ---------------------------------------------------------------------------
  // Locating a voted block

  /** Where `find_block` found a block: fork index (-1 for the canonical
      chain) and position in it. */
  datatype Location = Location(fork: int, pos: nat)

  /** Some block of `blocks` matches the proposal. */
  predicate ChainHas(blocks: seq<Block>, p: BlockProposal) {
    exists j :: 0 <= j < |blocks| && ProposalEqBlock(p, blocks[j])
  }

  /** The reverse scan of one chain: the last position that matches. */
  function LastMatch(blocks: seq<Block>, p: BlockProposal): (r: Option<nat>)
    ensures r.Some? ==> r.value < |blocks| && ProposalEqBlock(p, blocks[r.value])
    ensures r.Some? ==> forall k :: r.value < k < |blocks| ==> !ProposalEqBlock(p, blocks[k])
    ensures r.None? <==> !ChainHas(blocks, p)
    decreases |blocks|
  {
    if blocks == [] then None
    else if ProposalEqBlock(p, blocks[|blocks| - 1]) then Some(|blocks| - 1)
    else
      var init := blocks[..|blocks| - 1];
      assert forall k :: 0 <= k < |init| ==> init[k] == blocks[k];
      LastMatch(init, p)
  }

  /** The fork loop of `find_block` from fork `i` on, then the canonical
      chain. */
  function FindBlockFrom(canonical: Blockchain, forks: seq<Blockchain>, p: BlockProposal, i: nat): (r: Option<Location>)
    requires i <= |forks|
    ensures r.Some? && r.value.fork >= 0 ==>
      && i <= r.value.fork < |forks|
      && LastMatch(forks[r.value.fork].blocks, p) == Some(r.value.pos)
      && forall k :: i <= k < r.value.fork ==> !ChainHas(forks[k].blocks, p)
    ensures r.Some? && r.value.fork < 0 ==>
      && r.value.fork == -1
      && LastMatch(canonical.blocks, p) == Some(r.value.pos)
      && forall k :: i <= k < |forks| ==> !ChainHas(forks[k].blocks, p)
    ensures r.None? ==>
      !ChainHas(canonical.blocks, p) && forall k :: i <= k < |forks| ==> !ChainHas(forks[k].blocks, p)
    decreases |forks| - i
  {
    if i == |forks| then
      match LastMatch(canonical.blocks, p)
      case Some(j) => Some(Location(-1, j))
      case None => None
    else
      match LastMatch(forks[i].blocks, p)
      case Some(j) => Some(Location(i, j))
      case None => FindBlockFrom(canonical, forks, p, i + 1)
  }

  /** `find_block`: the first fork holding a block that matches the proposal,
      and in it the last such block; failing that, the last matching block of
      the canonical chain; `None` when no block matches anywhere. */
  function FindBlock(canonical: Blockchain, forks: seq<Blockchain>, p: BlockProposal): (r: Option<Location>)
    ensures r.Some? ==> LocationValid(canonical, forks, r.value) && ProposalEqBlock(p, BlockAt(canonical, forks, r.value))
    ensures r.Some? && r.value.fork >= 0 ==>
      && (forall k :: 0 <= k < r.value.fork ==> !ChainHas(forks[k].blocks, p))
      && forall j :: r.value.pos < j < |forks[r.value.fork].blocks| ==> !ProposalEqBlock(p, forks[r.value.fork].blocks[j])
    ensures r.Some? && r.value.fork < 0 ==>
      && (forall k :: 0 <= k < |forks| ==> !ChainHas(forks[k].blocks, p))
      && forall j :: r.value.pos < j < |canonical.blocks| ==> !ProposalEqBlock(p, canonical.blocks[j])
    ensures r.None? <==>
      !ChainHas(canonical.blocks, p) && forall k :: 0 <= k < |forks| ==> !ChainHas(forks[k].blocks, p)
  {
    FindBlockFrom(canonical, forks, p, 0)
  }

  /** The location names a block: a fork index with a position in it, or -1
      with a position in the canonical chain. */
  predicate LocationValid(canonical: Blockchain, forks: seq<Blockchain>, loc: Location) {
    if loc.fork >= 0 then loc.fork < |forks| && loc.pos < |forks[loc.fork].blocks|
    else loc.fork == -1 && loc.pos < |canonical.blocks|
  }

  function BlockAt(canonical: Blockchain, forks: seq<Blockchain>, loc: Location): Block
    requires LocationValid(canonical, forks, loc)
  {
    if loc.fork >= 0 then forks[loc.fork].blocks[loc.pos] else canonical.blocks[loc.pos]
  }

  /** The ledger with the block at `loc` replaced by `b`. */
  function WithBlock(l: Ledger, loc: Location, b: Block): (r: Ledger)
    requires LocationValid(l.canonical, l.forks, loc)
    ensures LocationValid(r.canonical, r.forks, loc) && BlockAt(r.canonical, r.forks, loc) == b
    ensures r.unconfirmedTxs == l.unconfirmedTxs && r.orphanVotes == l.orphanVotes
    ensures |r.forks| == |l.forks|
    ensures forall k :: 0 <= k < |l.forks| ==> |r.forks[k].blocks| == |l.forks[k].blocks|
    ensures |r.canonical.blocks| == |l.canonical.blocks|
    ensures forall q :: LocationValid(l.canonical, l.forks, q) && q != loc ==>
      BlockAt(r.canonical, r.forks, q) == BlockAt(l.canonical, l.forks, q)
  {
    if loc.fork >= 0 then
      var f := l.forks[loc.fork];
      l.(forks := l.forks[loc.fork := Blockchain(f.blocks[loc.pos := b])])
    else
      l.(canonical := Blockchain(l.canonical.blocks[loc.pos := b]))
  }

  // ---------------------------------------------------------------------------
  // Quorum

  /** The vote count a block must exceed to be notarized among `n`
      participants: `2 * n / 3` in integer division. */
  function Quorum(n: nat): (q: nat)
    ensures 3 * q <= 2 * n < 3 * q + 3
  {
    2 * n / 3
  }

  /** Exceeding the quorum is having more than two thirds of the votes:
      `v > 2n/3` (rounded down) exactly when `3v > 2n`. */
  lemma QuorumIsTwoThirds(v: nat, n: nat)
    ensures v > Quorum(n) <==> 3 * v > 2 * n
  {
  }

  // ---------------------------------------------------------------------------
  // Finalization

  /** The number of consecutive notarized blocks from the head of `blocks`. */
  function LeadingNotarized(blocks: seq<Block>): (c: nat)
    ensures c <= |blocks|
    ensures forall i :: 0 <= i < c ==> blocks[i].metadata.notarized
    ensures c < |blocks| ==> !blocks[c].metadata.notarized
  {
    if blocks == [] || !blocks[0].metadata.notarized then 0
    else 1 + LeadingNotarized(blocks[1..])
  }

  /** The fork is long enough and its notarized run from the head is longer
      than 2, so finalization commits something. */
  predicate Finalizes(blocks: seq<Block>) {
    |blocks| > 2 && LeadingNotarized(blocks) > 2
  }

  /** `blocks` with every block marked finalized in place; nothing else
      about any block changes. */
  function MarkFinalized(blocks: seq<Block>): (r: seq<Block>)
    ensures |r| == |blocks|
    ensures forall i :: 0 <= i < |blocks| ==>
      r[i] == blocks[i].(metadata := blocks[i].metadata.(finalized := true))
  {
    if blocks == [] then []
    else [blocks[0].(metadata := blocks[0].metadata.(finalized := true))] + MarkFinalized(blocks[1..])
  }

  lemma MarkFinalizedStep(blocks: seq<Block>, k: nat)
    requires k < |blocks|
    ensures MarkFinalized(blocks[..k + 1]) ==
      MarkFinalized(blocks[..k]) + [blocks[k].(metadata := blocks[k].metadata.(finalized := true))]
  {
  }

  /** The chain that `check_blockchain_finalization` inspects: fork `idx`,
      or the canonical chain for -1. */
  function ChainAt(l: Ledger, idx: int): seq<Block>
    requires -1 <= idx < |l.forks|
  {
    if idx == -1 then l.canonical.blocks else l.forks[idx].blocks
  }

  /** The blocks that finalization commits: all but the last of the notarized
      run, marked finalized. */
  function Committed(blocks: seq<Block>): (r: seq<Block>)
    requires Finalizes(blocks)
    ensures |r| == LeadingNotarized(blocks) - 1 >= 2
  {
    MarkFinalized(blocks[..LeadingNotarized(blocks) - 1])
  }

  /** The last committed block, which becomes the canonical tail. */
  function LastFinalized(blocks: seq<Block>): Block
    requires Finalizes(blocks)
  {
    Committed(blocks)[LeadingNotarized(blocks) - 2]
  }

  /** The test of the fork pruning loop: the fork's first block does not
      chain from the block with hash `h` and slot `sl`. (An empty fork would
      panic there; forks are never empty.) */
  function StaleFork(h: string, sl: nat): Blockchain -> bool {
    (f: Blockchain) => f.blocks == [] || f.blocks[0].st != h || f.blocks[0].sl <= sl
  }

  /** The test of the orphan pruning loop: the vote's block is at or below
      slot `sl`. */
  function Expired(sl: nat): Vote -> bool {
    (v: Vote) => v.block.sl <= sl
  }

  /** The ledger after the committed blocks were drained from the chain and
      pushed onto the canonical chain, before any pruning. For the canonical
      chain itself this moves its committed prefix to its end. */
  function Drained(l: Ledger, idx: int): (r: Ledger)
    requires -1 <= idx < |l.forks| && Finalizes(ChainAt(l, idx))
    ensures |r.forks| == |l.forks|
    ensures r.unconfirmedTxs == l.unconfirmedTxs && r.orphanVotes == l.orphanVotes
    ensures idx == -1 ==> r.forks == l.forks && |r.canonical.blocks| == |l.canonical.blocks|
    ensures idx >= 0 ==> l.canonical.blocks <= r.canonical.blocks
    ensures idx >= 0 ==>
      |r.canonical.blocks| + |r.forks[idx].blocks| == |l.canonical.blocks| + |l.forks[idx].blocks|
    ensures forall k :: 0 <= k < |l.forks| && k != idx ==> r.forks[k] == l.forks[k]
  {
    var blocks := ChainAt(l, idx);
    var rest := blocks[LeadingNotarized(blocks) - 1..];
    if idx == -1 then l.(canonical := Blockchain(rest + Committed(blocks)))
    else l.(canonical := Blockchain(l.canonical.blocks + Committed(blocks)),
            forks := l.forks[idx := Blockchain(rest)])
  }

  /** The fork indices that the fork pruning loop collects. */
  function StaleIndices(hash: Hasher, l: Ledger, idx: int): seq<nat>
    requires -1 <= idx < |l.forks| && Finalizes(ChainAt(l, idx))
  {
    var tail := LastFinalized(ChainAt(l, idx));
    IndicesWhere(Drained(l, idx).forks, StaleFork(BlockHash(hash, tail), tail.sl))
  }

  /** The orphan vote indices that the orphan pruning loop collects. */
  function ExpiredIndices(l: Ledger, idx: int): seq<nat>
    requires -1 <= idx < |l.forks| && Finalizes(ChainAt(l, idx))
  {
    IndicesWhere(l.orphanVotes, Expired(LastFinalized(ChainAt(l, idx)).sl))
  }

  /** Finalizing chain `idx` does not panic in either pruning loop. */
  predicate FinalizeInBounds(hash: Hasher, l: Ledger, idx: int)
    requires -1 <= idx < |l.forks|
  {
    Finalizes(ChainAt(l, idx)) ==>
      && RemovalsInBounds(|l.forks|, StaleIndices(hash, l, idx))
      && RemovalsInBounds(|l.orphanVotes|, ExpiredIndices(l, idx))
  }

  /** `check_blockchain_finalization` on chain `idx`, as a function of the
      ledger: commit, then prune the forks, the transaction pool and the
      orphan votes against the new canonical tail. */
  function Finalize(hash: Hasher, l: Ledger, idx: int): (r: Ledger)
    requires -1 <= idx < |l.forks| && FinalizeInBounds(hash, l, idx)
    ensures !Finalizes(ChainAt(l, idx)) ==> r == l
    ensures |r.canonical.blocks| ==
      |l.canonical.blocks| + if idx >= 0 && Finalizes(ChainAt(l, idx)) then LeadingNotarized(ChainAt(l, idx)) - 1 else 0
    ensures |r.forks| <= |l.forks|
    ensures multiset(r.unconfirmedTxs) <= multiset(l.unconfirmedTxs)
    ensures multiset(r.orphanVotes) <= multiset(l.orphanVotes)
  {
    var blocks := ChainAt(l, idx);
    if !Finalizes(blocks) then l
    else
      var d := Drained(l, idx);
      Ledger(
        d.canonical,
        RemoveEach(d.forks, StaleIndices(hash, l, idx)),
        RemoveAll(l.unconfirmedTxs, ChainTxs(Committed(blocks))),
        RemoveEach(l.orphanVotes, ExpiredIndices(l, idx)))
  }

  /** The committed blocks are the head of the notarized run, in order,
      notarized and now finalized, with their keys unchanged. */
  lemma CommittedBlocks(blocks: seq<Block>)
    requires Finalizes(blocks)
    ensures forall k :: 0 <= k < |Committed(blocks)| ==>
      Key(Committed(blocks)[k]) == Key(blocks[k]) &&
      Committed(blocks)[k].metadata.notarized && Committed(blocks)[k].metadata.finalized
    ensures Key(LastFinalized(blocks)) == Key(blocks[LeadingNotarized(blocks) - 2])
  {
  }

  /** Marking blocks finalized does not change their transactions. */
  lemma {:induction false} MarkFinalizedTxs(blocks: seq<Block>)
    ensures ChainTxs(MarkFinalized(blocks)) == ChainTxs(blocks)
    decreases |blocks|
  {
    if blocks != [] {
      var init := blocks[..|blocks| - 1];
      MarkFinalizedTxs(init);
      assert MarkFinalized(blocks)[..|blocks| - 1] == MarkFinalized(init);
    }
  }

  /** Finalizing fork `idx` moves exactly the committed prefix of the fork to
      the end of the canonical chain and leaves the rest of the fork in
      place; when the fork does not finalize, nothing changes. */
  lemma FinalizeCommitsFork(hash: Hasher, l: Ledger, idx: nat)
    requires idx < |l.forks| && FinalizeInBounds(hash, l, idx)
    ensures !Finalizes(l.forks[idx].blocks) ==> Finalize(hash, l, idx) == l
    ensures Finalizes(l.forks[idx].blocks) ==>
      Finalize(hash, l, idx).canonical.blocks == l.canonical.blocks + Committed(l.forks[idx].blocks)
    ensures Finalizes(l.forks[idx].blocks) ==>
      Drained(l, idx).forks[idx].blocks == l.forks[idx].blocks[|Committed(l.forks[idx].blocks)|..]
  {
    if Finalizes(l.forks[idx].blocks) {
      assert Finalize(hash, l, idx).canonical == Drained(l, idx).canonical;
    }
  }

  /** Finalizing removes one pool occurrence per transaction of the committed
      blocks and keeps the rest of the pool in order. */
  lemma FinalizeTxs(hash: Hasher, l: Ledger, idx: int)
    requires -1 <= idx < |l.forks| && FinalizeInBounds(hash, l, idx)
    requires Finalizes(ChainAt(l, idx))
    ensures IsSubseq(Finalize(hash, l, idx).unconfirmedTxs, l.unconfirmedTxs)
    ensures multiset(Finalize(hash, l, idx).unconfirmedTxs) ==
      multiset(l.unconfirmedTxs) - multiset(ChainTxs(ChainAt(l, idx)[..LeadingNotarized(ChainAt(l, idx)) - 1]))
  {
    var blocks := ChainAt(l, idx);
    MarkFinalizedTxs(blocks[..LeadingNotarized(blocks) - 1]);
    RemoveAllSubseq(l.unconfirmedTxs, ChainTxs(Committed(blocks)));
  }

  /** The forks that are not stale for the block with hash `h` and slot
      `sl` all start with a block chaining from it. */
  lemma FreshForksRemain(forks: seq<Blockchain>, h: string, sl: nat)
    ensures forall f :: f in Filter(forks, Not(StaleFork(h, sl))) ==>
      f.blocks != [] && f.blocks[0].st == h && f.blocks[0].sl > sl
  {
    FilterMembers(forks, Not(StaleFork(h, sl)));
    forall f | f in Filter(forks, Not(StaleFork(h, sl)))
      ensures f.blocks != [] && f.blocks[0].st == h && f.blocks[0].sl > sl
    {
      assert Not(StaleFork(h, sl))(f);
    }
  }

  /** When at most one fork is stale, pruning removes exactly the stale forks
      and keeps every other fork, in order. */
  lemma FinalizePrunesForks(hash: Hasher, l: Ledger, idx: int)
    requires -1 <= idx < |l.forks| && Finalizes(ChainAt(l, idx))
    requires |StaleIndices(hash, l, idx)| <= 1
    ensures FinalizeInBounds(hash, l, idx) ==>
      var tail := LastFinalized(ChainAt(l, idx));
      Finalize(hash, l, idx).forks == Filter(Drained(l, idx).forks, Not(StaleFork(BlockHash(hash, tail), tail.sl)))
  {
    var tail := LastFinalized(ChainAt(l, idx));
    RemoveSingleMatch(Drained(l, idx).forks, StaleFork(BlockHash(hash, tail), tail.sl));
  }

  /** When at most one fork is stale, every fork left after finalization
      starts with a block whose parent hash is the new canonical tail's hash
      and whose slot is past the tail's. */
  lemma FinalizeLeavesFreshForks(hash: Hasher, l: Ledger, idx: int)
    requires -1 <= idx < |l.forks| && Finalizes(ChainAt(l, idx))
    requires |StaleIndices(hash, l, idx)| <= 1 && FinalizeInBounds(hash, l, idx)
    ensures forall k :: 0 <= k < |Finalize(hash, l, idx).forks| ==>
      var f := Finalize(hash, l, idx).forks[k];
      var tail := LastFinalized(ChainAt(l, idx));
      f.blocks != [] && f.blocks[0].st == BlockHash(hash, tail) && f.blocks[0].sl > tail.sl
  {
    var tail := LastFinalized(ChainAt(l, idx));
    var forks := Drained(l, idx).forks;
    var r := Finalize(hash, l, idx).forks;
    FinalizePrunesForks(hash, l, idx);
    FreshForksRemain(forks, BlockHash(hash, tail), tail.sl);
    forall k | 0 <= k < |r|
      ensures r[k].blocks != [] && r[k].blocks[0].st == BlockHash(hash, tail) && r[k].blocks[0].sl > tail.sl
    {
      assert r[k] in r;
    }
  }

  /** When at most one orphan vote has expired, pruning removes exactly the
      orphan votes at or below the new canonical tail's slot. */
  lemma FinalizePrunesOrphans(hash: Hasher, l: Ledger, idx: int)
    requires -1 <= idx < |l.forks| && Finalizes(ChainAt(l, idx))
    requires |ExpiredIndices(l, idx)| <= 1
    ensures FinalizeInBounds(hash, l, idx) ==>
      Finalize(hash, l, idx).orphanVotes == Filter(l.orphanVotes, Not(Expired(LastFinalized(ChainAt(l, idx)).sl)))
  {
    RemoveSingleMatch(l.orphanVotes, Expired(LastFinalized(ChainAt(l, idx)).sl));
  }

  /** The canonical chain is fully notarized and no fork is empty: the
      invariant that finalization keeps. */
  predicate LedgerInvariant(l: Ledger) {
    l.canonical.IsNotarized() && |l.canonical.blocks| > 0 && NonEmptyForks(l.forks)
  }

  lemma FinalizeKeepsInvariant(hash: Hasher, l: Ledger, idx: int)
    requires -1 <= idx < |l.forks| && FinalizeInBounds(hash, l, idx)
    requires LedgerInvariant(l)
    ensures LedgerInvariant(Finalize(hash, l, idx))
  {
    var blocks := ChainAt(l, idx);
    if Finalizes(blocks) {
      DrainedKeepsInvariant(l, idx);
      PrunedForksNonEmpty(Drained(l, idx).forks, StaleIndices(hash, l, idx));
    }
  }

  lemma DrainedKeepsInvariant(l: Ledger, idx: int)
    requires -1 <= idx < |l.forks| && Finalizes(ChainAt(l, idx))
    requires LedgerInvariant(l)
    ensures LedgerInvariant(Drained(l, idx))
  {
    var blocks := ChainAt(l, idx);
    var c := LeadingNotarized(blocks);
    var committed := Committed(blocks);
    assert forall k :: 0 <= k < |committed| ==> committed[k].metadata.notarized;
  }

  lemma PrunedForksNonEmpty(forks: seq<Blockchain>, idxs: seq<nat>)
    requires NonEmptyForks(forks) && RemovalsInBounds(|forks|, idxs)
    ensures NonEmptyForks(RemoveEach(forks, idxs))
  {
    var r := RemoveEach(forks, idxs);
    forall k | 0 <= k < |r| ensures |r[k].blocks| > 0 {
      assert r[k] in multiset(r);
      assert r[k] in forks;
    }
  }

  /** Finalizing the canonical chain itself (index -1) when it has more than
      two blocks moves its committed prefix behind its tail: the old tail
      becomes the head, ahead of the genesis block. */
  lemma CanonicalFinalizationRotates(hash: Hasher, l: Ledger)
    requires LedgerInvariant(l) && |l.canonical.blocks| > 2 && FinalizeInBounds(hash, l, -1)
    ensures |Finalize(hash, l, -1).canonical.blocks| == |l.canonical.blocks|
    ensures Finalize(hash, l, -1).canonical.blocks[0] == l.canonical.Last()
    ensures Key(Finalize(hash, l, -1).canonical.blocks[1]) == Key(l.canonical.blocks[0])
  {
    var blocks := l.canonical.blocks;
    assert LeadingNotarized(blocks) == |blocks|;
  }

  /** Updating a fork block, or a canonical block with a notarized one, keeps
      the invariant. */
  lemma WithBlockKeepsInvariant(l: Ledger, loc: Location, b: Block)
    requires LedgerInvariant(l) && LocationValid(l.canonical, l.forks, loc)
    requires loc.fork == -1 ==> b.metadata.notarized
    ensures LedgerInvariant(WithBlock(l, loc, b))
  {
    if loc.fork == -1 {
      var r := WithBlock(l, loc, b);
      assert forall k :: 0 <= k < |r.canonical.blocks| && k != loc.pos ==> r.canonical.blocks[k] == l.canonical.blocks[k];
    }
  }

  /** A vote for a canonical block never notarizes it anew, so `receive_vote`
      never finalizes the canonical chain. */
  lemma CanonicalVoteNeverNotarizes(l: Ledger, loc: Location, vote: Vote, nodesCount: nat)
    requires LedgerInvariant(l) && LocationValid(l.canonical, l.forks, loc) && loc.fork == -1
    ensures !NewlyNotarized(BlockAt(l.canonical, l.forks, loc), vote, nodesCount)
  {
  }

  /** The length of the notarized run is the one position where the run
      stops. */
  lemma LeadingNotarizedAt(blocks: seq<Block>, c: nat)
    requires c <= |blocks|
    requires forall k :: 0 <= k < c ==> blocks[k].metadata.notarized
    requires c < |blocks| ==> !blocks[c].metadata.notarized
    ensures LeadingNotarized(blocks) == c
  {
  }
}
