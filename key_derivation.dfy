/** The two key-derivation inputs `User.exchange` builds from the shared
    point and the session id, and the keys HKDF derives from them. */
module KeyDerivation {
  import opened Results
  import opened Bytes
  import Utf8
  import opened Secp256k1
  import opened Primitives

  /** The domain-separation tags of the session key and of the key confirmation. */
  const SessionKeyTag: char := '1'
  const ConfirmationTag: char := '2'

  /** The context label b'handshake data', byte by byte. */
  const HandshakeInfo: seq<byte> := [0x68, 0x61, 0x6E, 0x64, 0x73, 0x68, 0x61, 0x6B, 0x65, 0x20, 0x64, 0x61, 0x74, 0x61]

  /** HKDF with SHA-256, 32 bytes of output, no salt and the context label above. */
  const HandshakeHkdf: HkdfParams := HkdfParams(Sha256, 32, None, HandshakeInfo)

  /** `tag + str(S.x) + str(S.y) + str(sid)`. */
  function KdfInput(tag: char, shared: Point, sid: string): (r: string)
    ensures |r| == 1 + |CoordinateText(shared)| + |sid|
    ensures r[0] == tag && r[1..] == CoordinateText(shared) + sid
  {
    [tag] + CoordinateText(shared) + sid
  }

  /** The session-key input: tag '1', then what the confirmation input has after its tag. */
  function SessionKeyInput(shared: Point, sid: string): (r: string)
    ensures |r| >= 1 && r[0] == '1' && r[1..] == KdfInput(ConfirmationTag, shared, sid)[1..]
  {
    KdfInput(SessionKeyTag, shared, sid)
  }

  /** The confirmation input: tag '2', then what the session-key input has after its tag. */
  function ConfirmationInput(shared: Point, sid: string): (r: string)
    ensures |r| >= 1 && r[0] == '2' && r[1..] == KdfInput(SessionKeyTag, shared, sid)[1..]
  {
    KdfInput(ConfirmationTag, shared, sid)
  }

  /** `derived_key`: HKDF over the UTF-8 bytes of the session-key input. */
  function SessionKey(c: Crypto, shared: Point, sid: string): (r: seq<byte>)
    ensures HkdfLengthHonoured(c) ==> |r| == 32
  {
    c.hkdf(HandshakeHkdf, Utf8.Encode(SessionKeyInput(shared, sid)))
  }

  /** `key_confirmation`: HKDF over the UTF-8 bytes of the confirmation input. */
  function ConfirmationKey(c: Crypto, shared: Point, sid: string): (r: seq<byte>)
    ensures HkdfLengthHonoured(c) ==> |r| == 32
  {
    c.hkdf(HandshakeHkdf, Utf8.Encode(ConfirmationInput(shared, sid)))
  }

  /** The two HKDF inputs differ in their first byte, '1' against '2', and in
      nothing else, so HKDF is never asked for both keys on the same input. */
  lemma KdfInputsDomainSeparated(shared: Point, sid: string)
    ensures var s, k := Utf8.Encode(SessionKeyInput(shared, sid)), Utf8.Encode(ConfirmationInput(shared, sid));
      |s| == |k| >= 1 && s[0] == 0x31 && k[0] == 0x32 && s[1..] == k[1..] && s != k
  {
    var rest := CoordinateText(shared) + sid;
    assert SessionKeyInput(shared, sid) == [SessionKeyTag] + rest;
    assert ConfirmationInput(shared, sid) == [ConfirmationTag] + rest;
    Utf8.EncodeAsciiPrefix(SessionKeyTag, rest);
    Utf8.EncodeAsciiPrefix(ConfirmationTag, rest);
  }

  /** The input is determined by the shared point and the session id, but not
      the other way round: coordinates and session id run together, so
      different shared points can give the same HKDF input. */
  lemma KdfInputNotInjective()
    ensures SessionKeyInput(Affine(1, 23), "") == SessionKeyInput(Affine(12, 3), "") == "1123"
    ensures SessionKeyInput(Affine(1, 2), "3") == SessionKeyInput(Affine(1, 23), "")
  {
  }
}
