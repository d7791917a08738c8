/** The primitives the consensus core uses without looking inside them: the
    non-cryptographic `DefaultHasher` (for chain linkage and leader election),
    deriving a public key, Schnorr signing and verification. Each is a field of
    `Primitives`, so the model holds for every choice of them. */
module Crypto {
  import opened Externals
  import opened Blocks

  /** What a signature covers: the encoded (`st`, `sl`, `txs`) of a proposed
      block, or a whole encoded proposal (what a vote signs). The byte
      encoding itself is abstracted into these constructors. */
  datatype Payload =
    | BlockBody(st: string, sl: nat, txs: seq<Tx>)
    | ProposalBody(proposal: BlockProposal)

  datatype Primitives = Primitives(
    hash: Hasher,
    epochHash: nat -> nat,
    publicOf: SecretKey -> PublicKey,
    sign: (SecretKey, Payload) -> Signature,
    verify: (PublicKey, Payload, Signature) -> bool)
  {
    /** A signature made with a secret key verifies under its public key. */
    ghost predicate SignaturesVerify() {
      forall sk, m {:trigger sign(sk, m)} :: verify(publicOf(sk), m, sign(sk, m))
    }
  }
}
