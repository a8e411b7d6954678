/** The foreign primitives the key exchange orchestrates: the curve engine's
    scalar multiplication, `numbertheory.inverse_mod`, HKDF (RFC 5869) and
    Ed25519 (RFC 8032). Their internals are not modelled: each is an
    arbitrary function, and what the model needs to know about one is a
    predicate a caller states as a hypothesis. */
module Primitives {
  import opened Results
  import opened Bytes
  import opened Secp256k1

  type SigningKey = seq<byte>
  type VerificationKey = seq<byte>
  type Signature = seq<byte>

  datatype HashAlgorithm = Sha256

  /** The arguments of an `HKDF(...)` object. */
  datatype HkdfParams = HkdfParams(algorithm: HashAlgorithm, length: nat, salt: Option<seq<byte>>, info: seq<byte>)

  /** What the verification primitive does: return normally, raise
      `InvalidSignature`, or raise anything else. */
  datatype VerifyOutcome = Accepted | InvalidSignature | OtherException(name: string)

  datatype Crypto = Crypto(
    /** `k * Q` on the curve engine's points. */
    scalarMul: (int, Point) -> Point,
    /** `numbertheory.inverse_mod(a, m)`; `None` when it raises. */
    inverseMod: (int, int) -> Option<int>,
    /** `HKDF(...).derive(ikm)`. */
    hkdf: (HkdfParams, seq<byte>) -> seq<byte>,
    /** `signing_key.public_key()` for an Ed25519 private key. */
    publicKey: SigningKey -> VerificationKey,
    /** `signing_key.sign(message)`. */
    sign: (SigningKey, seq<byte>) -> Signature,
    /** `verification_key.verify(signature, message)`. */
    verify: (VerificationKey, Signature, seq<byte>) -> VerifyOutcome)

  /** HKDF returns as many bytes as it is asked for. */
  ghost predicate HkdfLengthHonoured(c: Crypto)
  {
    forall params, ikm :: |c.hkdf(params, ikm)| == params.length
  }

  /** v is an inverse of a modulo the group order. */
  predicate IsInverseModN(a: int, v: int)
  {
    a * v % N == 1
  }

  /** `inverse_mod(a, N)` returns an inverse of every `a` that has one. */
  ghost predicate InverseModCorrect(c: Crypto)
  {
    forall a :: a % N != 0 ==> c.inverseMod(a, N).Some? && IsInverseModN(a, c.inverseMod(a, N).value)
  }

  /** An Ed25519 signature verifies under the matching public key. */
  ghost predicate SignatureSchemeCorrect(c: Crypto)
  {
    forall sk, m :: c.verify(c.publicKey(sk), c.sign(sk, m), m) == Accepted
  }

  /** Diffie-Hellman commutativity on multiples of G: a(bG) = b(aG). */
  ghost predicate ScalarMulCommutes(c: Crypto)
  {
    forall a, b :: c.scalarMul(a, c.scalarMul(b, G)) == c.scalarMul(b, c.scalarMul(a, G))
  }
}
