/** The consensus state of a node (`State` in `src/consensus/state.rs`): its
    keys, the canonical chain, the forks it holds, the transaction pool, the
    orphan votes and the participant registry, and the Streamlet operations
    that update them in place. The wall clock is the parameter `now`; the
    hash, key derivation and signature primitives are the `prim` field. */
module Consensus {
  import opened Seqs
  import opened Externals
  import opened Blocks
  import opened Blockchains
  import opened Crypto
  import opened Epochs
  import opened Participants
  import opened StateQueries

  /** The genesis block that `reset` creates: parent "⊥", slot 0, no
      transactions, no participants, notarized and finalized. */
  function GenesisBlock(): (b: Block)
    ensures b.st == "⊥" && b.sl == 0 && b.txs == []
    ensures b.metadata.notarized && b.metadata.finalized
    ensures b.metadata.votes == [] && b.metadata.participants == []
  {
    var b := NewBlock("⊥", 0, [], "proof", "r", "s", []);
    b.(metadata := b.metadata.(notarized := true, finalized := true))
  }

  /** The participants map after the pending participants were inserted one
      by one under their ids (the insertion loop of `zero_participants_check`
      and `refresh_participants`). */
  method InsertPending(m: map<nat, Participant>, pending: seq<Participant>) returns (r: map<nat, Participant>)
    ensures r == InsertAll(m, pending)
  {
    r := m;
    for i := 0 to |pending|
      invariant r == InsertAll(m, pending[..i])
    {
      var p := pending[i];
      TakeSnoc(pending, i);
      InsertAllSnoc(m, pending[..i], p);
      r := r[p.id := p];
    }
    assert pending[..|pending|] == pending;
  }

  /** The safety conditions `receive_vote` needs of a state to not panic,
      once the participants are `admitted` and `nodesCount` were counted
      before: the voter must be a participant once the vote is counted, and
      a finalization it triggers must stay in bounds. */
  ghost predicate Countable(hash: Hasher, l: Ledger, admitted: map<nat, Participant>, nodesCount: nat, vote: Vote) {
    match FindBlock(l.canonical, l.forks, vote.block)
    case None => true
    case Some(at) =>
      var blk := BlockAt(l.canonical, l.forks, at);
      vote !in blk.metadata.votes ==>
        && vote.id in admitted
        && (NewlyNotarized(blk, vote, nodesCount) ==>
              FinalizeInBounds(hash, WithBlock(l, at, CountVote(blk, vote, nodesCount)), at.fork))
  }

  /** `Countable` for the participants `ps` and pending participants
      `pending` before `receive_vote` admits them. */
  ghost predicate VoteSafe(hash: Hasher, l: Ledger, ps: map<nat, Participant>, pending: seq<Participant>, vote: Vote) {
    Countable(hash, l, Admitted(ps, pending), |ps|, vote)
  }

  /** The ledger after `receive_vote` counted a vote for the block at `at`. */
  function Counted(hash: Hasher, l: Ledger, at: Location, vote: Vote, nodesCount: nat): Ledger
    requires LocationValid(l.canonical, l.forks, at)
    requires var blk := BlockAt(l.canonical, l.forks, at);
      NewlyNotarized(blk, vote, nodesCount) ==>
        FinalizeInBounds(hash, WithBlock(l, at, CountVote(blk, vote, nodesCount)), at.fork)
  {
    var blk := BlockAt(l.canonical, l.forks, at);
    var l1 := WithBlock(l, at, CountVote(blk, vote, nodesCount));
    if NewlyNotarized(blk, vote, nodesCount) then Finalize(hash, l1, at.fork) else l1
  }

  class State {
    const id: nat
    const genesisTime: int
    const secretKey: SecretKey
    const publicKey: PublicKey
    const prim: Primitives
    var canonicalBlockchain: Blockchain
    var nodeBlockchains: seq<Blockchain>
    var unconfirmedTxs: seq<Tx>
    var orphanVotes: seq<Vote>
    var participants: map<nat, Participant>
    var pendingParticipants: seq<Participant>

    /** The chain-related fields as one value. */
    function AsLedger(): Ledger
      reads this
    {
      Ledger(canonicalBlockchain, nodeBlockchains, unconfirmedTxs, orphanVotes)
    }

    /** The invariant every operation keeps: the canonical chain is non-empty
        and notarized, no fork is empty, the pools hold no duplicates, each
        participant sits under its own id, and the public key belongs to the
        secret key. */
    ghost predicate Valid()
      reads this
    {
      && LedgerInvariant(AsLedger())
      && NoDup(unconfirmedTxs)
      && NoDup(pendingParticipants)
      && KeyedById(participants)
      && publicKey == prim.publicOf(secretKey)
    }

    /** `State::new`, with the randomly drawn secret key as a parameter. */
    constructor (id: nat, genesisTime: int, secretKey: SecretKey, initBlock: Block, prim: Primitives)
      ensures this.id == id && this.genesisTime == genesisTime && this.prim == prim
      ensures this.secretKey == secretKey && publicKey == prim.publicOf(secretKey)
      ensures canonicalBlockchain == Blockchain([initBlock])
      ensures nodeBlockchains == [] && unconfirmedTxs == [] && orphanVotes == []
      ensures participants == map[] && pendingParticipants == []
      ensures initBlock.metadata.notarized ==> Valid()
    {
      this.id := id;
      this.genesisTime := genesisTime;
      this.secretKey := secretKey;
      this.publicKey := prim.publicOf(secretKey);
      this.prim := prim;
      canonicalBlockchain := Blockchain([initBlock]);
      nodeBlockchains := [];
      unconfirmedTxs := [];
      orphanVotes := [];
      participants := map[];
      pendingParticipants := [];
    }

    /** `reset`: a fresh state whose canonical chain is the genesis block. */
    constructor Reset(genesis: int, id: nat, secretKey: SecretKey, prim: Primitives)
      ensures this.id == id && genesisTime == genesis && this.prim == prim && this.secretKey == secretKey
      ensures canonicalBlockchain == Blockchain([GenesisBlock()])
      ensures nodeBlockchains == [] && unconfirmedTxs == [] && orphanVotes == []
      ensures participants == map[] && pendingParticipants == []
      ensures Valid()
    {
      this.id := id;
      this.genesisTime := genesis;
      this.secretKey := secretKey;
      this.publicKey := prim.publicOf(secretKey);
      this.prim := prim;
      canonicalBlockchain := Blockchain([GenesisBlock()]);
      nodeBlockchains := [];
      unconfirmedTxs := [];
      orphanVotes := [];
      participants := map[];
      pendingParticipants := [];
    }

    /** `append_tx`: the transaction joins the pool unless it is already
        there. */
    method AppendTx(tx: Tx) returns (added: bool)
      requires Valid()
      modifies this`unconfirmedTxs
      ensures Valid()
      ensures added <==> tx !in old(unconfirmedTxs)
      ensures unconfirmedTxs == if added then old(unconfirmedTxs) + [tx] else old(unconfirmedTxs)
    {
      if tx in unconfirmedTxs {
        return false;
      }
      unconfirmedTxs := unconfirmedTxs + [tx];
      return true;
    }

    /** `append_participant`: the participant joins the pending list unless it
        is already there. */
    method AppendParticipant(participant: Participant) returns (added: bool)
      requires Valid()
      modifies this`pendingParticipants
      ensures Valid()
      ensures added <==> participant !in old(pendingParticipants)
      ensures pendingParticipants ==
        if added then old(pendingParticipants) + [participant] else old(pendingParticipants)
    {
      if participant in pendingParticipants {
        return false;
      }
      pendingParticipants := pendingParticipants + [participant];
      return true;
    }

    /** `zero_participants_check`: an empty participant map admits every
        pending participant and clears the pending list; otherwise nothing
        changes. */
    method ZeroParticipantsCheck()
      requires Valid()
      modifies this`participants, this`pendingParticipants
      ensures Valid()
      ensures participants == Admitted(old(participants), old(pendingParticipants))
      ensures pendingParticipants == if |old(participants)| == 0 then [] else old(pendingParticipants)
    {
      if |participants| == 0 {
        participants := InsertPending(participants, pendingParticipants);
        pendingParticipants := [];
      }
    }

    /** `refresh_participants`: admits every pending participant, then keeps
        only those active in the previous epoch. */
    method RefreshParticipants(now: int)
      requires Valid() && genesisTime <= now && GetCurrentEpoch(genesisTime, now) >= 1
      modifies this`participants, this`pendingParticipants
      ensures Valid()
      ensures participants ==
        RetainActive(InsertAll(old(participants), old(pendingParticipants)), GetCurrentEpoch(genesisTime, now) - 1)
      ensures pendingParticipants == []
    {
      var previousEpoch := GetCurrentEpoch(genesisTime, now) - 1;
      participants := Refreshed(participants, pendingParticipants, previousEpoch);
      pendingParticipants := [];
    }

    /** The participant map that `refresh_participants` leaves: the pending
        participants are inserted, the inactive ids collected, then removed. */
    static method Refreshed(m: map<nat, Participant>, pending: seq<Participant>, previousEpoch: nat)
      returns (r: map<nat, Participant>)
      requires KeyedById(m)
      ensures r == RetainActive(InsertAll(m, pending), previousEpoch)
      ensures KeyedById(r)
    {
      var admitted := InsertPending(m, pending);
      var inactive := InactiveIds(admitted, previousEpoch);
      RemovingInactive(admitted, inactive, previousEpoch);
      r := RemoveIds(admitted, inactive);
    }

    /** The removal loop of `refresh_participants`. */
    static method RemoveIds(m: map<nat, Participant>, ids: seq<nat>) returns (r: map<nat, Participant>)
      ensures r == m - Elems(ids)
    {
      r := m;
      for j := 0 to |ids|
        invariant r == m - Elems(ids[..j])
      {
        ElemsStep(ids, j);
        r := r - {ids[j]};
      }
      assert ids[..|ids|] == ids;
    }

    /** The ids of the participants that `refresh_participants` finds
        inactive, collected in id order. */
    static method InactiveIds(m: map<nat, Participant>, previousEpoch: nat) returns (inactive: seq<nat>)
      ensures forall k :: k in inactive ==> k in m && !IsActive(m[k], previousEpoch)
      ensures forall k :: k in m && !IsActive(m[k], previousEpoch) ==> k in inactive
    {
      inactive := [];
      var ids := SortedKeys(m.Keys);
      for i := 0 to |ids|
        invariant forall k :: k in inactive ==> k in m && !IsActive(m[k], previousEpoch)
        invariant forall j :: 0 <= j < i && !IsActive(m[ids[j]], previousEpoch) ==> ids[j] in inactive
      {
        var participant := m[ids[i]];
        match participant.voted {
          case Some(epoch) =>
            if epoch < previousEpoch {
              inactive := inactive + [ids[i]];
            }
          case None =>
            if participant.joined < previousEpoch {
              inactive := inactive + [ids[i]];
            }
        }
      }
      forall k | k in m && !IsActive(m[k], previousEpoch)
        ensures k in inactive
      {
        var j :| 0 <= j < |ids| && ids[j] == k;
      }
    }

    /** `get_epoch_leader`: after the zero-participants check, the participant
        at position `hash(epoch) % n` of the ordered map leads the epoch. */
    method GetEpochLeader(now: int) returns (leader: nat)
      requires Valid() && genesisTime <= now
      requires |Admitted(participants, pendingParticipants)| > 0
      modifies this`participants, this`pendingParticipants
      ensures Valid()
      ensures participants == Admitted(old(participants), old(pendingParticipants))
      ensures pendingParticipants == if |old(participants)| == 0 then [] else old(pendingParticipants)
      ensures leader == EpochLeader(participants, prim.epochHash(GetCurrentEpoch(genesisTime, now)))
    {
      var epoch := GetCurrentEpoch(genesisTime, now);
      var h := prim.epochHash(epoch);
      ZeroParticipantsCheck();
      var pos := h % |participants|;
      var ids := SortedKeys(participants.Keys);
      leader := participants[ids[pos]].id;
    }

    /** `check_if_epoch_leader`. */
    method CheckIfEpochLeader(now: int) returns (isLeader: bool)
      requires Valid() && genesisTime <= now
      requires |Admitted(participants, pendingParticipants)| > 0
      modifies this`participants, this`pendingParticipants
      ensures Valid()
      ensures participants == Admitted(old(participants), old(pendingParticipants))
      ensures pendingParticipants == if |old(participants)| == 0 then [] else old(pendingParticipants)
      ensures isLeader <==> id == EpochLeader(participants, prim.epochHash(GetCurrentEpoch(genesisTime, now)))
    {
      var leader := GetEpochLeader(now);
      isLeader := id == leader;
    }

    /** `get_unproposed_txs`. */
    method GetUnproposedTxs() returns (txs: seq<Tx>)
      ensures txs == StateQueries.GetUnproposedTxs(unconfirmedTxs, nodeBlockchains)
    {
      var forks := nodeBlockchains;
      txs := unconfirmedTxs;
      for i := 0 to |forks|
        invariant txs == RemoveAll(unconfirmedTxs, ForkTxs(forks[..i]))
      {
        ForkTxsStep(forks, i);
        RemoveAllConcat(unconfirmedTxs, ForkTxs(forks[..i]), ChainTxs(forks[i].blocks));
        txs := RemoveChainTxs(txs, forks[i].blocks);
      }
      assert forks[..|forks|] == forks;
    }

    /** The two inner loops of `get_unproposed_txs`: for each block of one
        fork, for each of its transactions, remove its first occurrence. */
    static method RemoveChainTxs(txs: seq<Tx>, blocks: seq<Block>) returns (r: seq<Tx>)
      ensures r == RemoveAll(txs, ChainTxs(blocks))
    {
      r := txs;
      assert blocks[..0] == [];
      for j := 0 to |blocks|
        invariant r == RemoveAll(txs, ChainTxs(blocks[..j]))
      {
        RemoveChainTxsStep(txs, blocks, j);
        r := RemoveOccurrences(r, blocks[j].txs);
      }
      assert blocks[..|blocks|] == blocks;
    }

    /** `find_longest_notarized_chain`. */
    method FindLongestNotarizedChain() returns (longest: Blockchain)
      ensures longest == StateQueries.FindLongestNotarizedChain(canonicalBlockchain, nodeBlockchains)
    {
      var forks := nodeBlockchains;
      longest := canonicalBlockchain;
      var length := 0;
      ghost var picked := -1;
      for i := 0 to |forks|
        invariant (picked, length) == LongestScan(forks, i)
        invariant longest == if picked == -1 then canonicalBlockchain else forks[picked]
      {
        assert LongestScan(forks, i + 1) ==
          if forks[i].IsNotarized() && |forks[i].blocks| > length then (i, |forks[i].blocks|) else (picked, length);
        if forks[i].IsNotarized() && |forks[i].blocks| > length {
          length := |forks[i].blocks|;
          longest := forks[i];
          picked := i;
        }
      }
    }

    /** `propose_block`: a proposal for the current epoch that extends the
        tail of the longest notarized chain with the unproposed
        transactions, signed by this node. */
    method ProposeBlock(now: int) returns (proposal: BlockProposal)
      requires genesisTime <= now && |canonicalBlockchain.blocks| > 0
      ensures proposal.publicKey == publicKey && proposal.id == id
      ensures proposal.sl == GetCurrentEpoch(genesisTime, now)
      ensures proposal.st ==
        BlockHash(prim.hash, StateQueries.FindLongestNotarizedChain(canonicalBlockchain, nodeBlockchains).Last())
      ensures proposal.txs == StateQueries.GetUnproposedTxs(unconfirmedTxs, nodeBlockchains)
      ensures proposal.signature == prim.sign(secretKey, BlockBody(proposal.st, proposal.sl, proposal.txs))
    {
      var epoch := GetCurrentEpoch(genesisTime, now);
      var longest := FindLongestNotarizedChain();
      var hash := prim.hash([Key(longest.Last())]);
      var unproposedTxs := GetUnproposedTxs();
      var signed := prim.sign(secretKey, BlockBody(hash, epoch, unproposedTxs));
      proposal := BlockProposal(publicKey, signed, id, hash, epoch, unproposedTxs);
    }

    /** A proposal or a vote that this node signs passes the signature checks
        of `receive_proposed_block` and `receive_vote` on every node, when
        the primitives make signatures verify. */
    lemma OwnSignaturesVerify(payload: Payload)
      requires Valid() && prim.SignaturesVerify()
      ensures prim.verify(publicKey, payload, prim.sign(secretKey, payload))
    {
    }

    /** With a duplicate-free pool, a proposal carries exactly the pool's
        transactions that no fork block holds yet. */
    lemma ProposalCarriesUnproposedTxs(txs: seq<Tx>)
      requires Valid() && txs == StateQueries.GetUnproposedTxs(unconfirmedTxs, nodeBlockchains)
      ensures forall tx :: tx in txs <==> tx in unconfirmedTxs && tx !in ForkTxs(nodeBlockchains)
    {
      UnproposedTxsNoDup(unconfirmedTxs, nodeBlockchains);
    }

    /** `extends_notarized_blockchain`. */
    static method ExtendsNotarizedBlockchain(blockchain: Blockchain) returns (result: bool)
      requires |blockchain.blocks| > 0
      ensures result == StateQueries.ExtendsNotarizedBlockchain(blockchain)
    {
      var prefix := blockchain.blocks[..|blockchain.blocks| - 1];
      for i := 0 to |prefix|
        invariant forall k :: 0 <= k < i ==> prefix[k].metadata.notarized
      {
        if !prefix[i].metadata.notarized {
          return false;
        }
      }
      return true;
    }

    /** `find_extended_blockchain_index`, feeding each fork's tail into one
        shared hasher. */
    static method FindExtendedBlockchainIndex(hash: Hasher, canonicalBlockchain: Blockchain, forks: seq<Blockchain>,
                                              block: Block, leader: bool) returns (index: int)
      requires |canonicalBlockchain.blocks| > 0 && NonEmptyForks(forks)
      ensures index == StateQueries.FindExtendedBlockchainIndex(hash, canonicalBlockchain, forks, block, leader)
    {
      var hasher: seq<BlockKey> := [];
      for i := 0 to |forks|
        invariant hasher == TailKeys(forks, i)
        invariant forall k :: 0 <= k < i ==> !ForkExtends(hash, forks, k, block, leader)
      {
        var lastBlock := forks[i].Last();
        hasher := hasher + [Key(lastBlock)];
        var h := hash(hasher);
        if (leader && block.st == h && block.sl >= lastBlock.sl) || (!leader && block.st == h && block.sl > lastBlock.sl) {
          ExtendedIndexIsFirst(hash, canonicalBlockchain, forks, block, leader, i);
          return i;
        }
      }
      var lastBlock := canonicalBlockchain.Last();
      hasher := hasher + [Key(lastBlock)];
      var h := hash(hasher);
      if ((leader && block.st != h) || block.sl < lastBlock.sl) || ((!leader && block.st != h) || block.sl <= lastBlock.sl) {
        return -2;
      }
      return -1;
    }

    /** `find_block`: the forks in order, each from its tail, then the
        canonical chain from its tail. */
    method FindBlock(voteBlock: BlockProposal) returns (found: Option<Location>)
      ensures found == StateQueries.FindBlock(canonicalBlockchain, nodeBlockchains, voteBlock)
    {
      var forks := nodeBlockchains;
      for i := 0 to |forks|
        invariant FindBlockFrom(canonicalBlockchain, forks, voteBlock, 0) == FindBlockFrom(canonicalBlockchain, forks, voteBlock, i)
      {
        var pos := LastMatchOf(forks[i].blocks, voteBlock);
        if pos.Some? {
          return Some(Location(i, pos.value));
        }
      }
      var pos := LastMatchOf(canonicalBlockchain.blocks, voteBlock);
      if pos.Some? {
        return Some(Location(-1, pos.value));
      }
      return None;
    }

    /** The reverse scan of one chain in `find_block`. */
    static method LastMatchOf(blocks: seq<Block>, voteBlock: BlockProposal) returns (pos: Option<nat>)
      ensures pos == LastMatch(blocks, voteBlock)
    {
      var j := |blocks|;
      while j > 0
        invariant 0 <= j <= |blocks|
        invariant LastMatch(blocks, voteBlock) == LastMatch(blocks[..j], voteBlock)
      {
        j := j - 1;
        assert blocks[..j + 1][..j] == blocks[..j];
        if ProposalEqBlock(voteBlock, blocks[j]) {
          return Some(j);
        }
      }
      assert blocks[..0] == [];
      return None;
    }

    /** The ledger after `vote_block` handled `proposal` against the ledger
        `l`, with the current participants: the orphan votes for the block are
        moved onto it, the block is placed by the fork index found for it, and
        a vote is cast exactly when that index is not -2 and the fork is
        notarized below the new block. */
    ghost predicate ProposalApplied(l: Ledger, proposal: BlockProposal, leader: bool, v: Option<Vote>)
      reads this
      requires LedgerInvariant(l)
    {
      && Applied(prim.hash, l, ParticipantValues(participants), proposal, leader, AsLedger(), v.Some?)
      && (v.Some? ==> v.value == Vote(publicKey, prim.sign(secretKey, ProposalBody(proposal)), proposal, id))
    }

    /** The state after `vote_block` from the ledger `l`, participants `ps`
        and pending participants `pending`: the pending participants are
        admitted when there were none, then the proposal is applied. */
    ghost predicate VotedOn(l: Ledger, ps: map<nat, Participant>, pending: seq<Participant>,
                            proposal: BlockProposal, leader: bool, v: Option<Vote>)
      reads this
      requires LedgerInvariant(l)
    {
      && participants == Admitted(ps, pending)
      && pendingParticipants == (if |ps| == 0 then [] else pending)
      && ProposalApplied(l, proposal, leader, v)
    }

    /** `vote_block`: admits the pending participants when there are none,
        builds the block from the proposal, attaches and drops the orphan
        votes for it, places it on the fork it extends (or a new fork off the
        canonical chain), and votes when that fork is notarized up to the new
        block. */
    method VoteBlock(proposal: BlockProposal, leader: bool) returns (v: Option<Vote>)
      requires Valid()
      requires RemovalsInBounds(|orphanVotes|, IndicesWhere(orphanVotes, MatchesKey(ProposalKey(proposal))))
      modifies this`participants, this`pendingParticipants, this`orphanVotes, this`nodeBlockchains
      ensures Valid()
      ensures VotedOn(old(AsLedger()), old(participants), old(pendingParticipants), proposal, leader, v)
    {
      ZeroParticipantsCheck();
      v := ApplyProposal(proposal, leader);
    }

    /** `vote_block` after the participant check. */
    method ApplyProposal(proposal: BlockProposal, leader: bool) returns (v: Option<Vote>)
      requires LedgerInvariant(AsLedger())
      requires RemovalsInBounds(|orphanVotes|, IndicesWhere(orphanVotes, MatchesKey(ProposalKey(proposal))))
      modifies this`orphanVotes, this`nodeBlockchains
      ensures LedgerInvariant(AsLedger())
      ensures ProposalApplied(old(AsLedger()), proposal, leader, v)
    {
      var after, voted := VoteOnLedger(prim.hash, AsLedger(), ParticipantValues(participants), proposal, leader);
      orphanVotes, nodeBlockchains := after.orphanVotes, after.forks;
      if voted {
        var signed := prim.sign(secretKey, ProposalBody(proposal));
        return Some(Vote(publicKey, signed, proposal, id));
      }
      return None;
    }

    /** The ledger steps of `vote_block`: the orphan votes for the block move
        onto it, then the block is placed by the fork index found for it. */
    static method VoteOnLedger(hash: Hasher, l: Ledger, snapshot: seq<Participant>, proposal: BlockProposal, leader: bool)
      returns (after: Ledger, voted: bool)
      requires LedgerInvariant(l)
      requires RemovalsInBounds(|l.orphanVotes|, IndicesWhere(l.orphanVotes, MatchesKey(ProposalKey(proposal))))
      ensures LedgerInvariant(after)
      ensures Applied(hash, l, snapshot, proposal, leader, after, voted)
    {
      var block, rest := TakeOrphanVotes(proposal, snapshot, l.orphanVotes);
      var index := FindExtendedBlockchainIndex(hash, l.canonical, l.forks, block, leader);
      var forks;
      forks, voted := PlaceOnFork(l.forks, index, block);
      after := l.(forks := forks, orphanVotes := rest);
    }

    /** The orphan votes for the proposed block move onto it. */
    static method TakeOrphanVotes(proposal: BlockProposal, snapshot: seq<Participant>, orphanVotes: seq<Vote>)
      returns (block: Block, rest: seq<Vote>)
      requires RemovalsInBounds(|orphanVotes|, IndicesWhere(orphanVotes, MatchesKey(ProposalKey(proposal))))
      ensures block == ProposedBlock(proposal, snapshot, orphanVotes)
      ensures rest == RemoveEach(orphanVotes, IndicesWhere(orphanVotes, MatchesKey(ProposalKey(proposal))))
    {
      var orphans;
      block, orphans := AttachOrphanVotes(proposal, snapshot, orphanVotes);
      rest := RemoveIndices(orphanVotes, orphans);
    }

    /** The placement step of `vote_block`: no place (-2) leaves the forks
        alone and casts no vote; otherwise the block starts a new fork (-1)
        or is pushed onto fork `index`, and a vote is cast when that fork is
        notarized below the block. */
    static method PlaceOnFork(forks: seq<Blockchain>, index: int, block: Block) returns (placed: seq<Blockchain>, voted: bool)
      requires -2 <= index < |forks|
      ensures placed == PlaceBlock(forks, index, block)
      ensures voted <==> index != -2 && StateQueries.ExtendsNotarizedBlockchain(PlacedChain(forks, index, block))
    {
      if index == -2 {
        return forks, false;
      }
      var blockchain;
      if index == -1 {
        placed := forks + [Blockchain([block])];
        blockchain := placed[|placed| - 1];
      } else {
        placed := forks[index := forks[index].AddBlock(block)];
        blockchain := placed[index];
      }
      voted := ExtendsNotarizedBlockchain(blockchain);
    }

    /** The orphan vote loop of `vote_block`: every orphan vote for the
        block is pushed onto its votes and its index collected. */
    static method AttachOrphanVotes(proposal: BlockProposal, snapshot: seq<Participant>, orphanVotes: seq<Vote>)
      returns (withVotes: Block, orphans: seq<nat>)
      ensures withVotes == ProposedBlock(proposal, snapshot, orphanVotes)
      ensures orphans == IndicesWhere(orphanVotes, MatchesKey(ProposalKey(proposal)))
    {
      var key := ProposalKey(proposal);
      withVotes := NewBlock(proposal.st, proposal.sl, proposal.txs, "proof", "r", "s", snapshot);
      orphans := [];
      for index := 0 to |orphanVotes|
        invariant orphans == IndicesWhere(orphanVotes[..index], MatchesKey(key))
        invariant withVotes == ProposedBlock(proposal, snapshot, orphanVotes[..index])
      {
        var vote := orphanVotes[index];
        assert orphanVotes[..index + 1] == orphanVotes[..index] + [vote];
        assert orphanVotes[..index + 1][..index] == orphanVotes[..index];
        FilterSnoc(orphanVotes[..index], vote, MatchesKey(key));
        if ProposalEqBlock(vote.block, withVotes) {
          withVotes := withVotes.(metadata := withVotes.metadata.(votes := withVotes.metadata.votes + [vote]));
          orphans := orphans + [index];
        }
      }
      assert orphanVotes[..|orphanVotes|] == orphanVotes;
    }

    /** `receive_proposed_block`: the proposer must be the epoch leader and
        the proposal's signature must verify (both are assertions in the
        source, so preconditions here); then the node votes on it. */
    method ReceiveProposedBlock(proposal: BlockProposal, leader: bool, now: int) returns (v: Option<Vote>)
      requires Valid() && genesisTime <= now
      requires |Admitted(participants, pendingParticipants)| > 0
      requires EpochLeader(Admitted(participants, pendingParticipants),
                           prim.epochHash(GetCurrentEpoch(genesisTime, now))) == proposal.id
      requires prim.verify(proposal.publicKey, BlockBody(proposal.st, proposal.sl, proposal.txs), proposal.signature)
      requires RemovalsInBounds(|orphanVotes|, IndicesWhere(orphanVotes, MatchesKey(ProposalKey(proposal))))
      modifies this`participants, this`pendingParticipants, this`orphanVotes, this`nodeBlockchains
      ensures Valid()
      ensures VotedOn(old(AsLedger()), old(participants), old(pendingParticipants), proposal, leader, v)
    {
      ghost var l, ps, pending := AsLedger(), participants, pendingParticipants;
      var epochLeader := GetEpochLeader(now);
      assert epochLeader == proposal.id;
      assert AsLedger() == l;
      ghost var admitted, left := participants, pendingParticipants;
      assert |admitted| > 0;
      var verified := prim.verify(proposal.publicKey, BlockBody(proposal.st, proposal.sl, proposal.txs), proposal.signature);
      assert verified;
      v := VoteBlock(proposal, leader);
      assert participants == admitted && pendingParticipants == left;
      assert ProposalApplied(l, proposal, leader, v);
    }

    /** The ledger and participants after `receive_vote` handled `vote`
        against the ledger `l`, with the participants `admitted` and
        `nodesCount` participants counted before admission. */
    ghost predicate Recorded(l: Ledger, admitted: map<nat, Participant>, nodesCount: nat, vote: Vote, counted: bool)
      reads this
      requires Countable(prim.hash, l, admitted, nodesCount, vote)
    {
      match StateQueries.FindBlock(l.canonical, l.forks, vote.block)
      case None =>
        && !counted
        && participants == admitted
        && AsLedger() == l.(orphanVotes := if vote in l.orphanVotes then l.orphanVotes else l.orphanVotes + [vote])
      case Some(at) =>
        if vote in BlockAt(l.canonical, l.forks, at).metadata.votes then
          !counted && participants == admitted && AsLedger() == l
        else
          && counted
          && AsLedger() == Counted(prim.hash, l, at, vote, nodesCount)
          && participants == admitted[vote.id := admitted[vote.id].(voted := Some(vote.block.sl))]
    }

    /** The state after `receive_vote` from the ledger `l`, participants `ps`
        and pending participants `pending`. */
    ghost predicate VoteReceived(l: Ledger, ps: map<nat, Participant>, pending: seq<Participant>,
                                 vote: Vote, counted: bool)
      reads this
      requires VoteSafe(prim.hash, l, ps, pending, vote)
    {
      && pendingParticipants == (if |ps| == 0 then [] else pending)
      && Recorded(l, Admitted(ps, pending), |ps|, vote, counted)
    }

    /** `receive_vote`: the vote's signature must verify (an assertion in the
        source). A vote for an unknown block is kept as an orphan; a new vote
        for a known block is recorded, may notarize it and trigger
        finalization, and marks the voter as having voted in the block's
        slot. */
    method ReceiveVote(vote: Vote) returns (counted: bool)
      requires Valid()
      requires prim.verify(vote.nodePublicKey, ProposalBody(vote.block), vote.vote)
      requires VoteSafe(prim.hash, AsLedger(), participants, pendingParticipants, vote)
      modifies this`participants, this`pendingParticipants, this`canonicalBlockchain, this`nodeBlockchains,
               this`unconfirmedTxs, this`orphanVotes
      ensures Valid()
      ensures VoteReceived(old(AsLedger()), old(participants), old(pendingParticipants), vote, counted)
    {
      var verified := prim.verify(vote.nodePublicKey, ProposalBody(vote.block), vote.vote);
      assert verified;

      var nodesCount := |participants|;
      ZeroParticipantsCheck();
      counted := RecordVote(vote, nodesCount);
    }

    /** `receive_vote` after the participant check. */
    method RecordVote(vote: Vote, nodesCount: nat) returns (counted: bool)
      requires Valid()
      requires Countable(prim.hash, AsLedger(), participants, nodesCount, vote)
      modifies this`participants, this`canonicalBlockchain, this`nodeBlockchains, this`unconfirmedTxs, this`orphanVotes
      ensures Valid()
      ensures Recorded(old(AsLedger()), old(participants), nodesCount, vote, counted)
    {
      ghost var l, ps := AsLedger(), participants;
      var found := FindBlock(vote.block);
      if found.None? {
        if vote !in orphanVotes {
          orphanVotes := orphanVotes + [vote];
        }
        assert AsLedger() == l.(orphanVotes := orphanVotes);
        return false;
      }
      var at := found.value;
      var blk := if at.fork >= 0 then nodeBlockchains[at.fork].blocks[at.pos] else canonicalBlockchain.blocks[at.pos];
      assert blk == BlockAt(l.canonical, l.forks, at);
      if vote in blk.metadata.votes {
        return false;
      }
      CountNewVote(at, vote, nodesCount);
      return true;
    }

    /** The new-vote branch of `receive_vote`: the vote is counted at `at`,
        then the voter is recorded as having voted in the block's slot. */
    method CountNewVote(at: Location, vote: Vote, nodesCount: nat)
      requires Valid() && vote.id in participants
      requires LocationValid(canonicalBlockchain, nodeBlockchains, at)
      requires var blk := BlockAt(canonicalBlockchain, nodeBlockchains, at);
        NewlyNotarized(blk, vote, nodesCount) ==>
          FinalizeInBounds(prim.hash, WithBlock(AsLedger(), at, CountVote(blk, vote, nodesCount)), at.fork)
      modifies this`participants, this`canonicalBlockchain, this`nodeBlockchains, this`unconfirmedTxs, this`orphanVotes
      ensures Valid()
      ensures AsLedger() == Counted(prim.hash, old(AsLedger()), at, vote, nodesCount)
      ensures participants == old(participants)[vote.id := old(participants)[vote.id].(voted := Some(vote.block.sl))]
    {
      CountAt(at, vote, nodesCount);
      ghost var after := AsLedger();
      MarkVoted(vote.id, vote.block.sl);
      assert AsLedger() == after;
    }

    /** The participant update of `receive_vote`: the voter is recorded as
        having voted in slot `sl`, and every other participant is kept. */
    method MarkVoted(voter: nat, sl: nat)
      requires KeyedById(participants) && voter in participants
      modifies this`participants
      ensures KeyedById(participants)
      ensures participants == old(participants)[voter := old(participants)[voter].(voted := Some(sl))]
    {
      var participant := participants[voter];
      participant := participant.(voted := Some(sl));
      participants := participants[participant.id := participant];
    }

    /** Counts a new vote for the block at `at`: the vote is pushed onto the
        block's votes, the block is notarized when the votes pass two thirds
        of `nodesCount`, and a newly notarized block's chain is checked for
        finalization. */
    method CountAt(at: Location, vote: Vote, nodesCount: nat)
      requires LedgerInvariant(AsLedger()) && NoDup(unconfirmedTxs)
      requires LocationValid(canonicalBlockchain, nodeBlockchains, at)
      requires var blk := BlockAt(canonicalBlockchain, nodeBlockchains, at);
        NewlyNotarized(blk, vote, nodesCount) ==>
          FinalizeInBounds(prim.hash, WithBlock(AsLedger(), at, CountVote(blk, vote, nodesCount)), at.fork)
      modifies this`canonicalBlockchain, this`nodeBlockchains, this`unconfirmedTxs, this`orphanVotes
      ensures LedgerInvariant(AsLedger()) && NoDup(unconfirmedTxs)
      ensures AsLedger() == Counted(prim.hash, old(AsLedger()), at, vote, nodesCount)
    {
      ghost var l := AsLedger();
      var blk := if at.fork >= 0 then nodeBlockchains[at.fork].blocks[at.pos] else canonicalBlockchain.blocks[at.pos];
      ghost var recorded := CountVote(blk, vote, nodesCount);
      ghost var newly := NewlyNotarized(blk, vote, nodesCount);
      blk := blk.(metadata := blk.metadata.(votes := blk.metadata.votes + [vote]));
      var notarize := !blk.metadata.notarized && |blk.metadata.votes| > 2 * nodesCount / 3;
      if notarize {
        blk := blk.(metadata := blk.metadata.(notarized := true));
      }
      assert blk == recorded && notarize == newly;
      if at.fork >= 0 {
        var f := nodeBlockchains[at.fork];
        nodeBlockchains := nodeBlockchains[at.fork := Blockchain(f.blocks[at.pos := blk])];
      } else {
        canonicalBlockchain := Blockchain(canonicalBlockchain.blocks[at.pos := blk]);
      }
      assert AsLedger() == WithBlock(l, at, blk);
      if at.fork == -1 {
        CanonicalVoteNeverNotarizes(l, at, vote, nodesCount);
      }
      WithBlockKeepsInvariant(l, at, blk);
      if notarize {
        CheckBlockchainFinalization(at.fork);
      }
    }

    /** `check_blockchain_finalization`: when the chain's notarized run from
        its head is longer than 2, all but its last block are marked
        finalized, their transactions leave the pool, they move to the
        canonical chain, and the forks and orphan votes that do not follow
        the new canonical tail are dropped. */
    method CheckBlockchainFinalization(blockchainIndex: int)
      requires LedgerInvariant(AsLedger()) && NoDup(unconfirmedTxs)
      requires -1 <= blockchainIndex < |nodeBlockchains|
      requires FinalizeInBounds(prim.hash, AsLedger(), blockchainIndex)
      modifies this`canonicalBlockchain, this`nodeBlockchains, this`unconfirmedTxs, this`orphanVotes
      ensures LedgerInvariant(AsLedger()) && NoDup(unconfirmedTxs)
      ensures AsLedger() == Finalize(prim.hash, old(AsLedger()), blockchainIndex)
    {
      ghost var l := AsLedger();
      FinalizeLedger(blockchainIndex);
      FinalizeKeepsInvariant(prim.hash, l, blockchainIndex);
      if Finalizes(ChainAt(l, blockchainIndex)) {
        RemoveAllNoDup(l.unconfirmedTxs, ChainTxs(Committed(ChainAt(l, blockchainIndex))));
      }
    }

    /** The steps of `check_blockchain_finalization`, on the four ledger
        fields. */
    method FinalizeLedger(blockchainIndex: int)
      requires -1 <= blockchainIndex < |nodeBlockchains|
      requires FinalizeInBounds(prim.hash, AsLedger(), blockchainIndex)
      modifies this`canonicalBlockchain, this`nodeBlockchains, this`unconfirmedTxs, this`orphanVotes
      ensures AsLedger() == Finalize(prim.hash, old(AsLedger()), blockchainIndex)
    {
      var r := FinalizeValues(prim.hash, AsLedger(), blockchainIndex);
      canonicalBlockchain, nodeBlockchains, unconfirmedTxs, orphanVotes := r.canonical, r.forks, r.unconfirmedTxs, r.orphanVotes;
    }

    /** `check_blockchain_finalization` on the ledger `l`, with `hash` the
        node's hasher. */
    static method FinalizeValues(hash: Hasher, l: Ledger, blockchainIndex: int) returns (r: Ledger)
      requires -1 <= blockchainIndex < |l.forks| && FinalizeInBounds(hash, l, blockchainIndex)
      ensures r == Finalize(hash, l, blockchainIndex)
    {
      var blocks := if blockchainIndex == -1 then l.canonical.blocks else l.forks[blockchainIndex].blocks;
      if |blocks| <= 2 {
        return l;
      }
      var consecutive := CountNotarized(blocks);
      if consecutive <= 2 {
        return l;
      }
      var finalized, pool := CommitBlocks(blocks, l.unconfirmedTxs);
      var drained := Drain(l, blockchainIndex, finalized);
      r := Prune(hash, l, blockchainIndex, drained);
      r := r.(unconfirmedTxs := pool);
    }

    /** The committed blocks leave the chain `blockchainIndex` (all but the
        last block of its notarized run) and are pushed onto the canonical
        chain. */
    static method Drain(l: Ledger, blockchainIndex: int, finalized: seq<Block>) returns (d: Ledger)
      requires -1 <= blockchainIndex < |l.forks| && Finalizes(ChainAt(l, blockchainIndex))
      requires finalized == Committed(ChainAt(l, blockchainIndex))
      ensures d == Drained(l, blockchainIndex)
    {
      var blocks := if blockchainIndex == -1 then l.canonical.blocks else l.forks[blockchainIndex].blocks;
      var rest := blocks[|finalized|..];
      if blockchainIndex == -1 {
        d := l.(canonical := Blockchain(rest));
      } else {
        d := l.(forks := l.forks[blockchainIndex := Blockchain(rest)]);
      }
      var extended := PushBlocks(d.canonical.blocks, finalized);
      d := d.(canonical := Blockchain(extended));
    }

    /** The two pruning loops: the forks that do not chain from the new
        canonical tail and the orphan votes at or below its slot are
        removed. */
    static method Prune(hash: Hasher, l: Ledger, blockchainIndex: int, drained: Ledger) returns (r: Ledger)
      requires -1 <= blockchainIndex < |l.forks| && Finalizes(ChainAt(l, blockchainIndex))
      requires FinalizeInBounds(hash, l, blockchainIndex)
      requires drained == Drained(l, blockchainIndex)
      ensures r == drained.(forks := RemoveEach(drained.forks, StaleIndices(hash, l, blockchainIndex)),
                            orphanVotes := RemoveEach(l.orphanVotes, ExpiredIndices(l, blockchainIndex)))
    {
      var lastFinalized := drained.canonical.Last();
      assert lastFinalized == LastFinalized(ChainAt(l, blockchainIndex));
      var lastFinalizedHash := hash([Key(lastFinalized)]);
      var forks := RemoveWhere(drained.forks, StaleFork(lastFinalizedHash, lastFinalized.sl));
      var orphanVotes := RemoveWhere(drained.orphanVotes, Expired(lastFinalized.sl));
      r := drained.(forks := forks, orphanVotes := orphanVotes);
    }

    /** The consecutive-notarized count of `check_blockchain_finalization`. */
    static method CountNotarized(blocks: seq<Block>) returns (consecutive: nat)
      ensures consecutive == LeadingNotarized(blocks)
    {
      consecutive := 0;
      while consecutive < |blocks| && blocks[consecutive].metadata.notarized
        invariant consecutive <= |blocks|
        invariant forall k :: 0 <= k < consecutive ==> blocks[k].metadata.notarized
      {
        consecutive := consecutive + 1;
      }
      LeadingNotarizedAt(blocks, consecutive);
    }

    /** The finalize loop of `check_blockchain_finalization`: each committed
        block is marked finalized and its transactions leave the pool. */
    static method CommitBlocks(blocks: seq<Block>, pool: seq<Tx>) returns (finalized: seq<Block>, left: seq<Tx>)
      requires Finalizes(blocks)
      ensures finalized == Committed(blocks)
      ensures left == RemoveAll(pool, ChainTxs(finalized))
    {
      var consecutive := LeadingNotarized(blocks);
      finalized := [];
      left := pool;
      for k := 0 to consecutive - 1
        invariant finalized == MarkFinalized(blocks[..k])
        invariant left == RemoveAll(pool, ChainTxs(blocks[..k]))
      {
        finalized, left := CommitBlock(blocks, k, pool, finalized, left);
      }
      MarkFinalizedTxs(blocks[..consecutive - 1]);
    }

    /** One turn of the finalize loop: block `k` is marked finalized and
        pushed, and its transactions leave the pool. */
    static method CommitBlock(blocks: seq<Block>, k: nat, pool: seq<Tx>, finalized: seq<Block>, left: seq<Tx>)
      returns (finalized': seq<Block>, left': seq<Tx>)
      requires k < |blocks|
      requires finalized == MarkFinalized(blocks[..k])
      requires left == RemoveAll(pool, ChainTxs(blocks[..k]))
      ensures finalized' == MarkFinalized(blocks[..k + 1])
      ensures left' == RemoveAll(pool, ChainTxs(blocks[..k + 1]))
    {
      MarkFinalizedStep(blocks, k);
      RemoveChainTxsStep(pool, blocks, k);
      finalized' := finalized + [blocks[k].(metadata := blocks[k].metadata.(finalized := true))];
      left' := RemoveOccurrences(left, blocks[k].txs);
    }

    /** Pushes `blocks` one by one onto the chain `chain`. */
    static method PushBlocks(chain: seq<Block>, blocks: seq<Block>) returns (r: seq<Block>)
      ensures r == chain + blocks
    {
      r := chain;
      for k := 0 to |blocks|
        invariant r == chain + blocks[..k]
      {
        assert blocks[..k + 1] == blocks[..k] + [blocks[k]];
        r := r + [blocks[k]];
      }
      assert blocks[..|blocks|] == blocks;
    }
  }
}
