# Streamlet consensus state, modelled in Dafny

This project models the consensus core of a node: the `State` of
`src/consensus/state.rs` and the block identity rules of
`src/consensus/block.rs`. Each node keeps the following:

- Its keys.
- A canonical chain of finalized blocks.
- A list of forks that hang off the canonical chain.
- A pool of unconfirmed transactions.
- The orphan votes, which are votes for blocks it has not seen yet.
- An ordered registry of participants, plus a queue of pending participants.

The operations are these:

- Admitting and evicting participants.
- Electing the epoch leader.
- Proposing a block on the longest notarized fork.
- Placing a proposed block on the fork it extends, and voting for it.
- Counting votes until a block is notarized (more than two thirds of the participants).
- Finalizing: the first `c - 1` blocks of a run of `c > 2` notarized blocks are committed to the canonical chain. Then the forks and orphan votes that no longer follow the new canonical tail are pruned.

Layout, one module per file:

- `externals.dfy` (`Externals`): minimal stand-ins for the types the core uses but does not define (transactions, keys, signatures, participants, `Option`).
- `blocks.dfy` (`Blocks`): `Block`, `BlockProposal`, their constructors, block equality, block hashing and `proposal_eq_block`. A block is identified by (`st`, `sl`, `txs`), its `BlockKey`. Its metadata never takes part in equality or hashing.
- `crypto.dfy` (`Crypto`): the primitives the core uses without looking inside them.
  - The hasher, as a function of the sequence of block keys fed into one `DefaultHasher`.
  - The epoch hash, public-key derivation, signing and verification.
  - They are fields of a `Primitives` value, so every result holds for every choice of them.
- `blockchain.dfy` (`Blockchains`): a fork as a sequence of blocks.
- `epochs.dfy` (`Epochs`): the epoch clock. The wall clock is the parameter `now`.
- `participants.dfy` (`Participants`): the participant map as a value.
  - Ascending key order, which is `BTreeMap` iteration.
  - Admission of pending participants.
  - The activity test.
  - The leader choice.
- `seqs.dfy` (`Seqs`): the vector operations the state performs, and the loops that perform them.
  - `Vec::remove` by position, including several removals in a row whose indices shift.
  - Removing the first occurrence of a value.
  - Collecting the indices that pass a test.
- `queries.dfy` (`StateQueries`): everything `State` computes from its fields, as functions and lemmas. This covers the unproposed transactions, the longest notarized fork, fork choice for a block, where a voted block lives, the quorum and finalization. Finalization is a function `Finalize` of a `Ledger`, which holds the canonical chain, the forks, the pool and the orphan votes.
- `state.dfy` (`Consensus`): the class `State`, with the source's fields and its methods.
  - Each method that changes state says its whole new state as a function of the old one, and keeps the invariant `Valid()`.
  - The loops of the source are methods with loop invariants, proved against the functions of `StateQueries`.

The model keeps two behaviours of the code as written and proves them:

- **The leader flag is ignored in the canonical test of `find_extended_blockchain_index`.** `&&` binds tighter than `||`, so the flag has no effect there. `StateQueries.FindExtendedBlockchainIndex` states the resulting rule, and `StateQueries.CanonicalTestIgnoresLeader` proves it.
- **The removal loops remove positions collected beforehand, in ascending order.** Each removal shifts the later elements. With two or more matches the wrong elements go (`Seqs.ShiftingRemovalMissesSecondMatch`), or the loop panics, which is the precondition `Seqs.RemovalsInBounds`. The pruning properties are therefore proved for at most one match (`Seqs.RemoveSingleMatch`).

The model follows the code in two places where it departs from Streamlet's notarization rule, which asks for votes from more than 2N/3 distinct participants, with N the number of participants when the count is checked:

- A vote is counted once per distinct vote value, not once per voter.
- The participant count `n` of the quorum is read before the pending participants are admitted.

## Model

| member | source | states |
|---|---|---|
| Blocks.NewBlock | src/consensus/block.rs:31-41 | `Block::new` stores `st`, `sl` and `txs` verbatim (the key is `(st, sl, txs)`); the new metadata has no votes and is neither notarized nor finalized |
| Blocks.BlockEq | src/consensus/block.rs:44-48 | two blocks are equal exactly when their keys `(st, sl, txs)` are equal |
| Blocks.MetadataIgnoredByEq | src/consensus/block.rs:44-48 | a block equals itself with any other metadata |
| Blocks.BlockHash | src/consensus/block.rs:50-54 | a block's hash is the hasher applied to its parent hash, slot and transactions alone, so every block with the same key hashes alike, whatever its metadata |
| Blocks.EqualBlocksHashEqual | src/consensus/block.rs:50-54 | equal blocks hash equal under every hasher, because only the key is fed in |
| Blocks.ProposalEqBlock | src/consensus/block.rs:91-93 | a proposal matches a block exactly when they agree on `st`, `sl` and `txs`; the proposer key, signature and id are ignored |
| Blocks.NewBlockMatchesProposal | src/consensus/block.rs:31-41 | a block built from a proposal's `st`, `sl` and `txs` always matches that proposal |
| Blocks.ProposalEqBlockRespectsEq | src/consensus/block.rs:91-93 | a proposal that matches a block matches every block equal to it |
| Blocks.DistinctProposersMatchSameBlock | src/consensus/block.rs:56-70 | two proposals with the same key from different proposers are unequal (derived equality), yet both match the same block |
| Epochs.GetCurrentEpoch | src/consensus/state.rs:97-99 | the epoch `e` is the one whose window `[genesis + e * 2Δ, genesis + (e + 1) * 2Δ)` contains `now`, with Δ = 60 |
| Epochs.GetSecondsUntilNextEpochStart | src/consensus/state.rs:83-93 | the wait lies in `1 .. 2Δ`; after it the epoch number has gone up by one, and one second earlier it has not |
| Participants.SortedKeys | src/consensus/state.rs:109 | the iteration order of the participant map: every key exactly once, in ascending order |
| Participants.ValuesAt | src/consensus/state.rs:199 | the participants under the given keys, in key order |
| Participants.ParticipantValuesInIdOrder | src/consensus/state.rs:199 | `participants.values()` of a map keyed by id lists every participant exactly once, and only participants of the map, in strictly ascending id order |
| Participants.LeaderKey | src/consensus/state.rs:108-109 | the key at position `hash % n` of the ordered map is a key with exactly `hash % n` smaller keys |
| Participants.EpochLeader | src/consensus/state.rs:103-110 | the leader is a participant whose id has exactly `hash(epoch) % n` smaller ids in the map, so every node with the same map elects the same leader |
| Participants.InsertAll | src/consensus/state.rs:428-430 | inserting pending participants by id: the keys become the old keys plus the pending ids; each pending id holds a pending participant with that id, and the last pending participant is the one stored under its id; other keys keep their values; ids stay keys of their own participants |
| Participants.InsertAllLastWins | src/consensus/state.rs:428-430 | for every pending id, the map holds the last pending participant inserted with that id |
| Participants.Admitted | src/consensus/state.rs:426-433 | after the zero-participants check: a non-empty map is unchanged; an empty map becomes exactly the pending ids |
| Participants.ActiveForEarlierEpochs | src/consensus/state.rs:447-458 | the activity test: a participant active against an epoch is active against every earlier one, and a participant that has voted is active exactly when its vote is in that epoch or later, whatever it joined |
| Participants.RetainActive | src/consensus/state.rs:446-462 | a participant stays exactly when it voted in the previous epoch or later, or never voted and joined in the previous epoch or later; kept entries are unchanged |
| Participants.RemovingInactive | src/consensus/state.rs:444-462 | removing exactly the ids found inactive leaves exactly the active participants |
| Seqs.RemoveAt | src/consensus/state.rs:211 | `Vec::remove(i)`: one element shorter, the element at `i` gone from the multiset, elements before `i` in place and later ones shifted down by one |
| Seqs.RemoveEach | src/consensus/state.rs:210-211 | removing the collected indices one after another, each against the shortened vector: `|idxs|` elements gone, and no element gained |
| Seqs.IndicesWhere | src/consensus/state.rs:403-407 | the collected indices are ascending, each is in range and passes the test, and every index that passes is collected |
| Seqs.FilterMembers | src/consensus/state.rs:403-409 | the intended pruning (keep the elements that fail the test) keeps exactly those elements |
| Seqs.RemoveSingleMatch | src/consensus/state.rs:408-409 | with at most one match, the removal loop cannot panic and removes exactly the matching elements, keeping the rest in order |
| Seqs.ShiftingRemovalMissesSecondMatch | src/consensus/state.rs:210-211 | with two adjacent matches at 0 and 1, the shifted second removal keeps the second match and removes the element after it: `[1, 1, 2]` becomes `[1]` |
| Seqs.RemoveFirst | src/consensus/state.rs:149-151 | `position` then `remove`: one occurrence of the value leaves the multiset, and an absent value leaves the vector unchanged |
| Seqs.FirstIndex | src/consensus/state.rs:149 | `position`: an index holding the value, with no occurrence of the value before it |
| Seqs.RemoveFirstAt | src/consensus/state.rs:149-151 | the occurrence removed is the first one: the result is the elements before `position`'s index followed by the elements after it |
| Seqs.RemoveAll | src/consensus/state.rs:146-154 | removing one occurrence for each value in turn is multiset difference |
| Seqs.RemoveAllSubseq | src/consensus/state.rs:146-154 | removing occurrences keeps the remaining elements in their original order |
| Seqs.RemoveAllNoDup | src/consensus/state.rs:146-154 | on a vector without duplicates, removing one occurrence per value is keeping the elements that occur in none of the values, and stays duplicate-free |
| Seqs.CollectIndices | src/consensus/state.rs:403-407 | the index-collecting loop returns exactly `IndicesWhere` |
| Seqs.RemoveIndices | src/consensus/state.rs:408-409 | the removal loop over collected indices returns exactly `RemoveEach` |
| Seqs.RemoveOccurrences | src/consensus/state.rs:373-377 | the `position`/`remove` loop over a list of values returns exactly `RemoveAll` |
| Seqs.RemoveWhere | src/consensus/state.rs:402-410 | collecting then removing returns `RemoveEach` of the collected indices |
| StateQueries.GetUnproposedTxs | src/consensus/state.rs:144-156 | the unproposed transactions come from the pool (no occurrence added), and every pool transaction that no fork block holds is among them |
| StateQueries.ForkTxsHolds | src/consensus/state.rs:146-148 | a transaction is among the fork transactions exactly when some block of some fork holds it |
| StateQueries.UnproposedTxsSubseq | src/consensus/state.rs:144-156 | the unproposed transactions are a subsequence of the pool, in pool order, and each fork-block occurrence cancels one pool occurrence |
| StateQueries.UnproposedTxsNoDup | src/consensus/state.rs:144-156 | with a duplicate-free pool, the unproposed transactions are exactly the pool's transactions that occur in no fork block, in pool order; the canonical chain is not consulted |
| StateQueries.LongestScan | src/consensus/state.rs:160-167 | after `n` forks the loop holds the canonical chain (length 0) when none qualified, otherwise the first qualifying fork of maximal length so far |
| StateQueries.FindLongestNotarizedChain | src/consensus/state.rs:159-169 | the canonical chain when no non-empty fork is notarized; otherwise the earliest notarized fork of maximal length (strict `>` keeps the first on ties) |
| StateQueries.ExtendsNotarizedBlockchain | src/consensus/state.rs:241-248 | true exactly when every block except the last is notarized |
| StateQueries.TailKeys | src/consensus/state.rs:253-255 | what the shared hasher has been fed after `n` iterations: the keys of the first `n` fork tails, in order |
| StateQueries.FindExtendedBlockchainIndex | src/consensus/state.rs:251-272 | the first fork whose test passes (the parent hash is the shared hasher's value and the slot is past the tail's, or equal to it for the leader); otherwise -1 exactly when the parent hash is the canonical test's hash and the slot is past the canonical tail's, whatever `leader` is; otherwise -2 |
| StateQueries.CanonicalTestIgnoresLeader | src/consensus/state.rs:265-267 | when no fork test passes for a leader, the result is the same for a non-leader |
| StateQueries.FirstForkUsesTailHash | src/consensus/state.rs:252-257 | fork 0 is compared against its tail block's own hash; later forks see a hasher that has been fed the earlier tails as well |
| StateQueries.ProposedBlock | src/consensus/state.rs:192-209 | the block built for a proposal matches it, carries the participant snapshot, and is neither notarized nor finalized |
| StateQueries.ProposedBlockVotes | src/consensus/state.rs:203-209 | the block carries exactly the orphan votes cast for its key, in arrival order |
| StateQueries.PlaceBlock | src/consensus/state.rs:216-229 | index -2 leaves the forks unchanged; -1 appends exactly one single-block fork; otherwise the block is pushed onto that fork and the other forks are unchanged; forks stay non-empty |
| StateQueries.VoteNeedsNotarizedParent | src/consensus/state.rs:231-236 | a block starting a new fork is always voted for; a block pushed onto a fork is voted for exactly when the whole fork was notarized |
| StateQueries.CountVote | src/consensus/state.rs:308-316 | the block keeps its key, gains the vote at the end, and is notarized exactly when it was already notarized or three times its votes exceed twice the participant count; it is never un-notarized |
| StateQueries.Quorum | src/consensus/state.rs:312 | the threshold `2 * n / 3` is two thirds of `n` rounded down: `3q <= 2n < 3q + 3` |
| StateQueries.WithBlock | src/consensus/state.rs:309-315 | writing the counted block back: the block at the location becomes the new block, every other block keeps its place and value, and the chains, the pool and the orphan votes keep their sizes and contents otherwise |
| StateQueries.QuorumIsTwoThirds | src/consensus/state.rs:312 | `votes > 2 * n / 3` in integer division holds exactly when `3 * votes > 2 * n` |
| StateQueries.CanonicalVoteNeverNotarizes | src/consensus/state.rs:311-315 | a vote for a canonical block never newly notarizes it, since canonical blocks are notarized |
| StateQueries.LastMatch | src/consensus/state.rs:331-335 | the reverse scan finds the last matching position of a chain, and `None` exactly when nothing matches |
| StateQueries.FindBlock | src/consensus/state.rs:329-344 | the first fork holding a matching block, and in it the last match; otherwise the last canonical match; `None` exactly when no block anywhere matches |
| StateQueries.LeadingNotarized | src/consensus/state.rs:359-366 | the count of consecutive notarized blocks from the head: all blocks before it are notarized, and the block at it is not |
| StateQueries.Committed | src/consensus/state.rs:369-372 | finalization commits `c - 1` blocks, at least two |
| StateQueries.MarkFinalized | src/consensus/state.rs:370-372 | each committed block is marked finalized in place, and nothing else about it changes |
| StateQueries.CommittedBlocks | src/consensus/state.rs:369-385 | the committed blocks are the head of the run, in order, with their keys unchanged, notarized and finalized; the last of them becomes the canonical tail |
| StateQueries.FinalizeCommitsFork | src/consensus/state.rs:350-383 | finalizing a fork appends exactly its committed prefix to the canonical chain and leaves the rest of the fork; without a run longer than 2 nothing changes |
| StateQueries.Drained | src/consensus/state.rs:379-382 | the drain and push lose no block: for a fork, the canonical chain only grows at its end and the two lengths keep their sum; every other fork, the pool and the orphan votes are untouched; for the canonical chain itself its length stays the same |
| StateQueries.Finalize | src/consensus/state.rs:350-413 | `check_blockchain_finalization` as a function: nothing changes unless the chain has a notarized run longer than 2; the canonical chain grows by exactly the committed count for a fork and keeps its length for index -1; forks, pool transactions and orphan votes are only ever removed |
| StateQueries.FinalizeTxs | src/consensus/state.rs:373-377 | one pool occurrence is removed per transaction of the committed blocks, and the rest of the pool keeps its order |
| StateQueries.FinalizePrunesForks | src/consensus/state.rs:384-399 | with at most one stale fork, the forks after finalization are exactly the drained forks that are not stale, in their order |
| StateQueries.FinalizeLeavesFreshForks | src/consensus/state.rs:384-399 | with at most one stale fork, every fork left starts with a block whose parent hash is the new canonical tail's hash and whose slot is past the tail's |
| StateQueries.FinalizePrunesOrphans | src/consensus/state.rs:401-410 | with at most one expired orphan vote, pruning removes exactly the orphan votes at or below the new tail's slot |
| StateQueries.DrainedKeepsInvariant | src/consensus/state.rs:379-382 | after the drain the fork keeps at least one block and the canonical chain stays fully notarized |
| StateQueries.PrunedForksNonEmpty | src/consensus/state.rs:397-398 | removing forks never leaves an empty fork behind |
| StateQueries.FinalizeKeepsInvariant | src/consensus/state.rs:350-413 | finalization keeps the canonical chain non-empty and fully notarized, and every fork non-empty |
| StateQueries.CanonicalFinalizationRotates | src/consensus/state.rs:351-382 | finalizing the canonical chain itself (index -1) drains its committed prefix and pushes it back behind its old tail, so the old tail becomes the head |
| Consensus.GenesisBlock | src/consensus/state.rs:495-505 | the genesis block has parent "⊥", slot 0, no transactions, no votes and no participants, and is notarized and finalized |
| Consensus.InsertPending | src/consensus/state.rs:428-430 | the insertion loop yields `InsertAll` of the pending participants |
| Consensus.State.constructor | src/consensus/state.rs:54-69 | the new state holds the given id, genesis time and key pair, a one-block canonical chain and empty collections; it is valid when the initial block is notarized |
| Consensus.State.Reset | src/consensus/state.rs:493-512 | the reset state's canonical chain is the genesis block alone, and the state is valid |
| Consensus.State.AppendTx | src/consensus/state.rs:73-79 | returns false and leaves the pool unchanged when the transaction is present; otherwise appends it and returns true; the pool stays duplicate-free |
| Consensus.State.AppendParticipant | src/consensus/state.rs:416-422 | the same for the pending participants |
| Consensus.State.ZeroParticipantsCheck | src/consensus/state.rs:426-433 | a non-empty participant map is unchanged; an empty one receives every pending participant, and the pending list is emptied |
| Consensus.State.RefreshParticipants | src/consensus/state.rs:437-463 | admits every pending participant, empties the pending list, then keeps exactly the participants active since the previous epoch |
| Consensus.State.Refreshed | src/consensus/state.rs:439-462 | the insert, collect and remove steps of `refresh_participants` leave exactly the active participants of the admitted map, each still under its own id |
| Consensus.State.InactiveIds | src/consensus/state.rs:444-459 | the collected ids are exactly the inactive participants |
| Consensus.State.RemoveIds | src/consensus/state.rs:460-462 | the removal loop removes exactly the collected ids |
| Consensus.State.GetEpochLeader | src/consensus/state.rs:103-110 | runs the zero-participants check, then returns `EpochLeader` of the participant map for the current epoch's hash |
| Consensus.State.CheckIfEpochLeader | src/consensus/state.rs:113-116 | true exactly when this node's id is the epoch leader |
| Consensus.State.GetUnproposedTxs | src/consensus/state.rs:144-156 | the three nested loops return exactly the pool minus one occurrence per fork transaction |
| Consensus.State.RemoveChainTxs | src/consensus/state.rs:147-153 | the inner loops for one fork remove one occurrence per transaction of its blocks |
| Consensus.State.FindLongestNotarizedChain | src/consensus/state.rs:159-169 | the loop returns exactly the longest-notarized-chain rule |
| Consensus.State.ProposeBlock | src/consensus/state.rs:121-141 | the proposal carries this node's key and id and the current epoch; its parent hash is the hash of the longest notarized chain's tail; it carries the unproposed transactions and this node's signature over `(st, sl, txs)` |
| Consensus.State.ProposalCarriesUnproposedTxs | src/consensus/state.rs:127-139 | in a valid state, a proposal carries exactly the pool's transactions that no fork block holds |
| Consensus.State.OwnSignaturesVerify | src/consensus/state.rs:179-183 | when signatures verify under their keys, this node's own proposals and votes pass the signature checks |
| Consensus.State.ExtendsNotarizedBlockchain | src/consensus/state.rs:241-248 | the loop returns exactly the rule "every block but the last is notarized" |
| Consensus.State.FindExtendedBlockchainIndex | src/consensus/state.rs:251-272 | the loop with one shared hasher returns exactly `StateQueries.FindExtendedBlockchainIndex` |
| Consensus.State.FindBlock | src/consensus/state.rs:329-344 | the nested reverse scans return exactly `StateQueries.FindBlock` |
| Consensus.State.LastMatchOf | src/consensus/state.rs:331-335 | the reverse scan of one chain returns its last matching position |
| Consensus.State.VoteBlock | src/consensus/state.rs:190-238 | runs the zero-participants check; moves the orphan votes for the block onto it; places it by the fork index found; votes exactly when that index is not -2 and the fork is notarized below the block; the vote is signed by this node over the proposal and carries its id; the canonical chain and the pool are unchanged |
| Consensus.State.ApplyProposal | src/consensus/state.rs:192-237 | `vote_block` after the participant check, with the current participants as the block's snapshot |
| Consensus.State.VoteOnLedger | src/consensus/state.rs:192-229 | the ledger steps of `vote_block`: the orphan votes move onto the block, and the block is placed; the ledger invariant is kept |
| Consensus.State.TakeOrphanVotes | src/consensus/state.rs:202-212 | returns the block with its orphan votes, and the orphan votes with the collected positions removed in turn |
| Consensus.State.AttachOrphanVotes | src/consensus/state.rs:203-209 | the loop pushes onto the block exactly the orphan votes for it, in order, and collects exactly their positions |
| Consensus.State.PlaceOnFork | src/consensus/state.rs:216-231 | places the block by the index, and votes exactly when the index is not -2 and the receiving fork is notarized below the block |
| Consensus.State.ReceiveProposedBlock | src/consensus/state.rs:173-185 | with the proposer the epoch leader and the signature valid, the state after is that of `vote_block` on the state before |
| Consensus.State.ReceiveVote | src/consensus/state.rs:283-326 | unknown block: the vote is appended to the orphans only if absent, and the result is false; a vote already on the block: nothing changes, false; otherwise the vote is counted with `n` read before the participant check, the voter's `voted` becomes the block's slot, and the result is true |
| Consensus.State.RecordVote | src/consensus/state.rs:298-325 | the three cases of `receive_vote` after the participant check |
| Consensus.State.CountNewVote | src/consensus/state.rs:308-321 | a new vote for a known block: the ledger becomes `Counted` of the old ledger (vote pushed, notarized at quorum, then finalization of a newly notarized chain), and only the voter's `voted` changes among the participants; the invariant is kept |
| Consensus.State.MarkVoted | src/consensus/state.rs:319-321 | the voter's `voted` becomes the block's slot, every other participant is kept, and each participant still sits under its own id |
| Consensus.State.CountAt | src/consensus/state.rs:308-316 | the vote is pushed onto the block; a newly notarized block triggers finalization of its chain; the ledger invariant and the duplicate-free pool are kept |
| Consensus.State.CheckBlockchainFinalization | src/consensus/state.rs:350-413 | the ledger after is `Finalize` of the ledger before; the invariant and the duplicate-free pool are kept |
| Consensus.State.FinalizeLedger | src/consensus/state.rs:351-411 | the four ledger fields become `Finalize` of their old values |
| Consensus.State.FinalizeValues | src/consensus/state.rs:357-411 | the steps of finalization on a ledger value return exactly `Finalize` |
| Consensus.State.CountNotarized | src/consensus/state.rs:359-366 | the counting loop returns exactly the length of the notarized run from the head |
| Consensus.State.CommitBlocks | src/consensus/state.rs:369-378 | the finalize loop returns exactly the committed blocks, and the pool minus one occurrence per transaction of theirs |
| Consensus.State.CommitBlock | src/consensus/state.rs:370-377 | one turn of the finalize loop extends both results by block `k` |
| Consensus.State.Drain | src/consensus/state.rs:379-382 | drains the committed blocks from the chain and pushes them onto the canonical chain |
| Consensus.State.Prune | src/consensus/state.rs:384-410 | the fork and orphan pruning loops remove the collected stale forks and expired orphan votes, each against the shortened vector |
| Consensus.State.PushBlocks | src/consensus/state.rs:380-382 | pushing the blocks one by one appends them in order |

## Left out

- Persistence: `save`, `load_or_create`, `load_current_state` and the `save` call in `reset` are sled I/O with serialization. `Reset` builds the state without storing it.
- `StatePtr`: a concurrency wrapper with no logic.
- Key generation: `SecretKey::random(&mut OsRng)` is randomness, so the secret key is a constructor parameter. `PublicKey::from_secret`, Schnorr signing and verification are the opaque `publicOf`, `sign` and `verify` of `Primitives`.
- Encoding: the byte encoding that is signed or verified is the `Payload` datatype. Encoding into a vector cannot fail, so these paths are left out: the `?` error paths of `propose_block`, `receive_proposed_block` and `vote_block`, and the encoding-failure branch of `receive_vote`. `Consensus.State.ProposeBlock` returns the proposal that the source wraps in `Ok(Some(..))`.
- The clock and `chrono`: `now` is a parameter with `genesisTime <= now`. `Timestamp::elapsed`, clocks behind genesis and the `i64`/`u64` conversions are not modelled.
- Fixed-width integers: ids, slots, epochs and lengths are unbounded naturals. No overflow of the `u64` arithmetic is modelled.
- `DefaultHasher`: an opaque function of the sequence of block keys fed in, and `epochHash` for an epoch. Two different keys whose `{:?}` renderings coincide would hash alike in the source; the model treats the key itself as the input.
- Files that are not part of this model: `blockchain.rs`, `vote.rs`, `participant.rs`, `metadata.rs` and `tx.rs`. Their types are minimal stand-ins:
  - `Blockchain::new` is a one-block chain.
  - `add_block` is a push at the tail.
  - `is_notarized` means every block is notarized.
  - `Metadata::new` has no votes and is neither notarized nor finalized.
  - Votes, proposals and participants use derived equality.
- Logging (`debug!`, `error!`): no logic.
- Consensus.State.RefreshParticipants: requires that the current epoch is at least 1. In the source, `get_current_epoch() - 1` underflows in epoch 0, which panics in debug builds and wraps in release builds.
- Consensus.State.GetEpochLeader: requires a non-empty participant map after admission. The source panics there on a division by zero.
- Consensus.State.ReceiveProposedBlock: the leader check and the signature check are `assert!`s in the source, so they are preconditions here.
- Consensus.State.ReceiveVote: the signature check is an `assert!` in the source, and is a precondition here. So are two panics, through `VoteSafe`: the voter must be a participant when its vote is counted, and a finalization the vote triggers must not panic in its removal loops.
- Consensus.State.VoteBlock: requires that the orphan-vote removal loop does not panic (`Seqs.RemovalsInBounds`). With two or more matching orphan votes the removals shift, and the model keeps that behaviour rather than a clean removal.
- Consensus.State.CheckBlockchainFinalization: requires that neither pruning loop panics (`StateQueries.FinalizeInBounds`). The index -1 (the canonical chain itself) is modelled literally, as a drain followed by an append (`StateQueries.CanonicalFinalizationRotates`).
- StateQueries.FinalizePrunesForks: stated only when at most one fork is stale (and so is StateQueries.FinalizeLeavesFreshForks). With more, the shifting removals of the source do not remove exactly the stale forks.
- StateQueries.FinalizePrunesOrphans: stated only when at most one orphan vote has expired, for the same reason.
- Consensus.State.Valid: the state methods require the invariant `Valid()`. The invariant says the following:
  - The canonical chain is non-empty and fully notarized.
  - No fork is empty.
  - The pool and the pending list hold no duplicates.
  - Each participant sits under its own id.

  Every method keeps it, and `Reset` establishes it. A state built by `State::new` from an initial block that is not notarized is not covered.
- `find_extended_blockchain_index`, `extends_notarized_blockchain` and the finalization steps read the fields directly in the source. Here they are static methods over the field values, so the proof of each stays local.
