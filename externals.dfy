/** Minimal stand-ins for the types that the consensus state uses but that are
    defined outside `state.rs` and `block.rs` (transactions, keys, signatures,
    participants). Only their equality matters to the consensus core. */
module Externals {

  datatype Option<T> = None | Some(value: T)

  /** A transaction; the core only compares transactions for equality. */
  datatype Tx = Tx(payload: seq<nat>)

  datatype SecretKey = SecretKey(scalar: nat)

  datatype PublicKey = PublicKey(point: nat)

  datatype Signature = Signature(bytes: seq<nat>)

  /** A consensus participant: its node id, its key, the epoch it joined in and
      the slot of the last block it voted for (`None` before its first vote). */
  datatype Participant = Participant(id: nat, publicKey: PublicKey, joined: nat, voted: Option<nat>)
}
