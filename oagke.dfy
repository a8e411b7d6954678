/** The identity of one party: its name, its Ed25519 key pair, its ephemeral
    value and the keys it derived in its last exchange; and the module-level
    signature check. */
module Oagke {
  import opened Results
  import opened Bytes
  import opened Secp256k1
  import opened Primitives
  import opened Transcript
  import opened KeyDerivation

  /** The exceptions the model lets escape. */
  datatype PyError =
    | AttributeError          // the signing key is still the `bytes` placeholder
    | InverseModError         // `inverse_mod` raised
    | Foreign(name: string)   // the verification primitive raised something other than InvalidSignature

  class User {
    /** The primitives this process links against. */
    const crypto: Crypto

    var name: string
    /** `None` while the attribute still holds the `bytes` placeholder. */
    var signingKey: Option<SigningKey>
    var verificationKey: Option<VerificationKey>
    /** `None` while `ephemeral_value` has not set the attribute. */
    var ephemeralPrivateValue: Option<int>
    var ephemeralPublicValue: Option<Point>
    var inverseEphemeralPrivateValue: Option<int>
    /** `None` while `exchange` has not set the attribute. */
    var sharedKey: Option<Point>
    var derivedKey: Option<seq<byte>>
    var keyConfirmation: Option<seq<byte>>
    /** The session id of the last exchange. */
    ghost var sessionId: string

    /** What the methods keep true: the verification key belongs to the
        signing key, the public value is the private value times G with the
        private value a 256-bit number (not reduced mod N), and the two
        derived keys come from the same shared point and session id. */
    ghost predicate Valid()
      reads this
    {
      && (signingKey.Some? <==> verificationKey.Some?)
      && (signingKey.Some? ==> verificationKey.value == crypto.publicKey(signingKey.value))
      && (ephemeralPrivateValue.Some? <==> ephemeralPublicValue.Some?)
      && (ephemeralPrivateValue.Some? ==>
            && 0 <= ephemeralPrivateValue.value < TwoTo256
            && ephemeralPublicValue.value == crypto.scalarMul(ephemeralPrivateValue.value, G))
      && (inverseEphemeralPrivateValue.Some? ==> ephemeralPrivateValue.Some?)
      && (sharedKey.Some? <==> derivedKey.Some?)
      && (sharedKey.Some? <==> keyConfirmation.Some?)
      && (sharedKey.Some? ==>
            && derivedKey.value == SessionKey(crypto, sharedKey.value, sessionId)
            && keyConfirmation.value == ConfirmationKey(crypto, sharedKey.value, sessionId))
    }

    /** `User(name)`: only the name is set; both keys are placeholders. */
    constructor (name: string, crypto: Crypto)
      ensures Valid()
      ensures this.name == name && this.crypto == crypto
      ensures signingKey == None && verificationKey == None
      ensures ephemeralPrivateValue == None && ephemeralPublicValue == None
      ensures inverseEphemeralPrivateValue == None
      ensures sharedKey == None && derivedKey == None && keyConfirmation == None
    {
      this.crypto := crypto;
      this.name := name;
      signingKey, verificationKey := None, None;
      ephemeralPrivateValue, ephemeralPublicValue, inverseEphemeralPrivateValue := None, None, None;
      sharedKey, derivedKey, keyConfirmation := None, None, None;
      sessionId := "";
    }

    /** `generate_Ed25519_key`: `generated` is the fresh private key the
        library drew; the verification key is its public key. */
    method GenerateEd25519Key(generated: SigningKey)
      requires Valid()
      modifies this`signingKey, this`verificationKey
      ensures Valid()
      ensures signingKey == Some(generated)
      ensures verificationKey == Some(crypto.publicKey(generated))
    {
      signingKey := Some(generated);
      verificationKey := Some(crypto.publicKey(signingKey.value));
    }

    /** `ephemeral_value`: `entropy` is what `os.urandom(32)` returned. The
        private value is those bytes read big-endian, with no reduction mod N
        and no check against 0; the public value is that number times G. If
        `inverse_mod` raises, the two values are already stored and the
        inverse keeps whatever it held before. */
    method EphemeralValue(entropy: seq<byte>) returns (outcome: Outcome<PyError>)
      requires Valid()
      requires |entropy| == 32
      modifies this`ephemeralPrivateValue, this`ephemeralPublicValue, this`inverseEphemeralPrivateValue
      ensures Valid()
      ensures ephemeralPrivateValue == Some(FromBytesBig(entropy))
      ensures 0 <= ephemeralPrivateValue.value < TwoTo256
      ensures ephemeralPublicValue == Some(crypto.scalarMul(ephemeralPrivateValue.value, G))
      ensures crypto.inverseMod(ephemeralPrivateValue.value, N).Some? ==>
                outcome == Pass && inverseEphemeralPrivateValue == crypto.inverseMod(ephemeralPrivateValue.value, N)
      ensures crypto.inverseMod(ephemeralPrivateValue.value, N).None? ==>
                outcome == Fail(InverseModError) && inverseEphemeralPrivateValue == old(inverseEphemeralPrivateValue)
      ensures InverseModCorrect(crypto) && ephemeralPrivateValue.value % N != 0 ==>
                outcome == Pass && IsInverseModN(ephemeralPrivateValue.value, inverseEphemeralPrivateValue.value)
    {
      var r := FromBytesBig(entropy);
      ThirtyTwoBytesBound(entropy);
      ephemeralPrivateValue := Some(r);
      ephemeralPublicValue := Some(crypto.scalarMul(r, G));
      var inverse := crypto.inverseMod(r, N);
      if inverse.None? {
        return Fail(InverseModError);
      }
      inverseEphemeralPrivateValue := inverse;
      outcome := Pass;
    }

    /** `exchange`: the shared point is `private_value * public_value`, taken
        as given (no range check on the scalar, no check of the point); the
        session key and the key confirmation are HKDF over the '1'- and
        '2'-tagged inputs. Nothing else about the user changes. */
    method Exchange(privateValue: int, publicValue: Point, sid: string)
      requires Valid()
      modifies this`sharedKey, this`derivedKey, this`keyConfirmation, this`sessionId
      ensures Valid()
      ensures sharedKey == Some(crypto.scalarMul(privateValue, publicValue))
      ensures derivedKey == Some(SessionKey(crypto, sharedKey.value, sid))
      ensures keyConfirmation == Some(ConfirmationKey(crypto, sharedKey.value, sid))
      ensures sessionId == sid
      ensures HkdfLengthHonoured(crypto) ==> |derivedKey.value| == 32 && |keyConfirmation.value| == 32
    {
      sharedKey := Some(crypto.scalarMul(privateValue, publicValue));
      derivedKey := Some(crypto.hkdf(HandshakeHkdf, Utf8.Encode(SessionKeyInput(sharedKey.value, sid))));
      keyConfirmation := Some(crypto.hkdf(HandshakeHkdf, Utf8.Encode(ConfirmationInput(sharedKey.value, sid))));
      sessionId := sid;
    }

    /** `sign`: the Ed25519 signature of the transcript's bytes; while the
        signing key is still the placeholder, the call raises. */
    method Sign(data: seq<Elem>) returns (r: Result<Signature, PyError>)
      ensures signingKey.None? ==> r == Failure(AttributeError)
      ensures signingKey.Some? ==> r == Success(crypto.sign(signingKey.value, TranscriptBytes(data)))
    {
      if signingKey.None? {
        return Failure(AttributeError);
      }
      var message := TransferToBytes(data);
      r := Success(crypto.sign(signingKey.value, message));
    }
  }

  /** `verify`: true when the primitive accepts the signature over the
      transcript's bytes, false exactly when it raises InvalidSignature; any
      other exception escapes. */
  method Verify(crypto: Crypto, verificationKey: VerificationKey, data: seq<Elem>, signature: Signature)
    returns (r: Result<bool, PyError>)
    ensures r == Success(true) <==> crypto.verify(verificationKey, signature, TranscriptBytes(data)) == Accepted
    ensures r == Success(false) <==> crypto.verify(verificationKey, signature, TranscriptBytes(data)) == InvalidSignature
    ensures crypto.verify(verificationKey, signature, TranscriptBytes(data)).OtherException? ==>
              r == Failure(Foreign(crypto.verify(verificationKey, signature, TranscriptBytes(data)).name))
  {
    var verified := true;
    var message := TransferToBytes(data);
    var outcome := crypto.verify(verificationKey, signature, message);
    match outcome {
      case Accepted =>
      case InvalidSignature =>
        verified := false;
      case OtherException(name) =>
        return Failure(Foreign(name));
    }
    r := Success(verified);
  }

  /** `ephemeral_value` keeps the 32 bytes' value as it is: all-zero entropy
      gives the private value 0, which has no inverse mod N, and all-0xFF
      entropy gives 2^256 - 1, which is N or more. */
  lemma EphemeralScalarUnchecked()
    ensures FromBytesBig(seq(32, _ => 0)) == 0 && 0 % N == 0
    ensures FromBytesBig(seq(32, _ => 0xFF)) == TwoTo256 - 1 >= N
  {
    AllZerosIsZero(32);
    AllOnesIsMaximal(32);
    Pow256Of32();
  }

  /** Two users draw ephemeral values and each exchanges its own private value
      with the other's public value under one session id. When scalar
      multiplication commutes they hold the same session key and the same
      key confirmation: the keys depend on the shared point and the session
      id alone. */
  method TwoPartyExchange(crypto: Crypto, entropyA: seq<byte>, entropyB: seq<byte>, sid: string)
    returns (alice: User, bob: User)
    requires |entropyA| == 32 && |entropyB| == 32
    ensures ScalarMulCommutes(crypto) ==>
              alice.derivedKey == bob.derivedKey && alice.keyConfirmation == bob.keyConfirmation
    ensures alice.sharedKey.Some? && alice.derivedKey == Some(SessionKey(crypto, alice.sharedKey.value, sid))
    ensures alice.keyConfirmation == Some(ConfirmationKey(crypto, alice.sharedKey.value, sid))
  {
    alice := new User("alice", crypto);
    bob := new User("bob", crypto);
    var _ := alice.EphemeralValue(entropyA);
    var _ := bob.EphemeralValue(entropyB);
    alice.Exchange(alice.ephemeralPrivateValue.value, bob.ephemeralPublicValue.value, sid);
    bob.Exchange(bob.ephemeralPrivateValue.value, alice.ephemeralPublicValue.value, sid);
  }

  /** A user's signature over a transcript verifies under its verification
      key, and so does the same signature over any other transcript with the
      same encoding. */
  method SignThenVerify(crypto: Crypto, generated: SigningKey, data: seq<Elem>, other: seq<Elem>)
    returns (same: Result<bool, PyError>, colliding: Result<bool, PyError>)
    requires Encode(other) == Encode(data)
    ensures SignatureSchemeCorrect(crypto) ==> same == Success(true) && colliding == Success(true)
  {
    var user := new User("signer", crypto);
    user.GenerateEd25519Key(generated);
    var signature := user.Sign(data);
    same := Verify(crypto, user.verificationKey.value, data, signature.value);
    colliding := Verify(crypto, user.verificationKey.value, other, signature.value);
  }

  /** A signature over [1, 23] also verifies for [12, 3]. */
  method SignatureTransfersToCollision(crypto: Crypto, generated: SigningKey)
    returns (colliding: Result<bool, PyError>)
    ensures SignatureSchemeCorrect(crypto) ==> colliding == Success(true)
  {
    EncodeNotInjective();
    var _, c := SignThenVerify(crypto, generated, [Int(1), Int(23)], [Int(12), Int(3)]);
    colliding := c;
  }
}
