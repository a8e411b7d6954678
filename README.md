# OAGKE: identity-authenticated elliptic-curve key exchange, modelled in Dafny

This project models `src/python/OAGKE.py`, a one-pass key exchange on
secp256k1 with Ed25519 identity signatures. It covers four things:

- **The `User` class.** It holds a name, an Ed25519 key pair, an ephemeral
  value (private scalar `r`, public point `r*G`, `r^-1 mod N`) and the
  result of its last exchange (the shared point, the session key
  `derived_key` and `key_confirmation`). It is a Dafny `class` with the same
  fields. Each method names the fields it changes in its `modifies` clause
  and states their new values. `Valid()` is the invariant every method
  keeps.
- **Key derivation.** `exchange` feeds two strings to HKDF-SHA256
  (RFC 5869; no salt, info `b'handshake data'`, 32 bytes):
  `'1' + str(S.x) + str(S.y) + str(sid)` and the same string with the tag
  `'2'`.
- **Transcript encoding (`transfer_to_bytes`).** The points, `int`s and
  `str`s of a list are rendered as text and concatenated in order, with no
  delimiter, then encoded as UTF-8. Every other element is skipped.
- **Signing and `verify`.** Both encode the transcript and call Ed25519
  (RFC 8032). `verify` turns `InvalidSignature` into `False`.

The foreign primitives are fields of a `Crypto` record of functions: the
curve engine's scalar multiplication, `numbertheory.inverse_mod`, HKDF and
Ed25519's key derivation, signing and verification. Nothing is assumed
about them. Where a result needs a property of a primitive, that property is
a ghost predicate and the result is stated under it as a hypothesis. The
predicates are: HKDF returns the requested length, `inverse_mod` inverts
every unit mod N, Ed25519 signatures verify under their own key, and
scalar multiplication commutes on multiples of G.

Python's `str(int)` (`Decimal`), `bytes(s, 'utf-8')` (`Utf8`) and
`int.from_bytes(b, 'big')` (`Bytes`) are modelled as functions. Each comes
with an inverse and a round-trip proof: `ParseInt` with `DecOfParse`,
`Utf8.Decode` with `DecodeEncode`, and `ToBytesBig` with
`FromBytesBigInjective`.

The model follows the code, not the stricter design around it:

- The ephemeral scalar is the raw 256-bit number, not reduced mod N and not
  checked against 0.
- `exchange` multiplies whatever scalar and point it is given.
- Transcripts are not length-prefixed.

Lemmas show the consequences of each:

- Zero entropy gives the scalar 0. All-0xFF entropy gives a scalar of at
  least N.
- Different transcripts, and different shared points, can give the same
  bytes.
- A signature over `[1, 23]` also verifies for `[12, 3]`.

## Model

| member | source | states |
|---|---|---|
| `Bytes.FromBytesBig` | src/python/OAGKE.py:42 | `int.from_bytes(b, 'big')` is a natural number below 256^len(b) |
| `Bytes.ToBytesBig` | src/python/OAGKE.py:42 | every number below 256^len has a len-byte big-endian form that reads back as it |
| `Bytes.FromBytesBigInjective` | src/python/OAGKE.py:42 | at a fixed width, the bytes are recovered from their value (the two functions are inverse) |
| `Bytes.Pow256Of32` | src/python/OAGKE.py:42 | 256^32, the bound on a 32-byte value, equals the literal 2^256 |
| `Bytes.ThirtyTwoBytesBound` | src/python/OAGKE.py:42 | the value of `os.urandom(32)` read big-endian lies below 2^256 |
| `Bytes.AllOnesIsMaximal` | src/python/OAGKE.py:42 | k bytes of 0xFF read as 256^k - 1 |
| `Bytes.AllZerosIsZero` | src/python/OAGKE.py:42 | k zero bytes read as 0 |
| `Utf8.EncodeChar` | src/python/OAGKE.py:81 | one character's UTF-8 form is the shortest one: 1 byte below 0x80, 2 below 0x800, 3 below 0x10000, else 4; its lead byte announces its length, every later byte is a continuation byte, and it decodes to the code point |
| `Utf8.Encode` | src/python/OAGKE.py:81 | `bytes(s, 'utf-8')` is at least as long as `s` |
| `Utf8.EncodeConcat` | src/python/OAGKE.py:81 | UTF-8 encoding distributes over concatenation |
| `Utf8.EncodeAsciiPrefix` | src/python/OAGKE.py:55-62 | a leading ASCII tag becomes one leading byte in front of the encoding of the rest |
| `Utf8.EncodeAscii` | src/python/OAGKE.py:81 | an ASCII string encodes byte for byte as its character codes |
| `Utf8.DecodeEncode` | src/python/OAGKE.py:81 | decoding the UTF-8 bytes of a string gives the string back |
| `Utf8.EncodeInjective` | src/python/OAGKE.py:81 | equal UTF-8 bytes come from equal strings, so the byte step adds no collisions |
| `Decimal.NatDigits` | src/python/OAGKE.py:78 | the digits of n are canonical (no leading zero) and denote n |
| `Decimal.Dec` | src/python/OAGKE.py:78 | `str(i)` is an int string that reads back as i, with a minus sign exactly for negative i |
| `Decimal.DecInjective` | src/python/OAGKE.py:78 | `str` is injective on integers |
| `Decimal.NatDigitsOfValue` | src/python/OAGKE.py:78 | a canonical digit string is the digit string of its own value |
| `Decimal.DecOfParse` | src/python/OAGKE.py:78 | every string of `str`'s form is `str` of its value: integers and int strings correspond one to one |
| `Secp256k1.CoordinateTextReadsBack` | src/python/OAGKE.py:76 | `str(x) + str(y)` splits after len(str(x)) characters into halves that parse back as x and y; non-negative coordinates give digits only; the point at infinity gives "NoneNone" |
| `Secp256k1.CoordinateTextNotInjective` | src/python/OAGKE.py:76 | the undelimited coordinates of (1,23) and (12,3) are both "123" |
| `Transcript.TransferToBytes` | src/python/OAGKE.py:72-81 | the loop returns the UTF-8 bytes of the in-order concatenation of the element fragments |
| `Transcript.Fragment` | src/python/OAGKE.py:75-80 | a point contributes its coordinate text, an int a string that parses back as it, a str itself, anything else "" |
| `Transcript.Encode` | src/python/OAGKE.py:73-74 | the empty list encodes to the empty text (the starting `temp_data = ''`) |
| `Transcript.TranscriptBytes` | src/python/OAGKE.py:81 | the returned bytes decode as UTF-8 back to the transcript text |
| `Transcript.TranscriptBytesCollide` | src/python/OAGKE.py:72-81 | two lists give the same bytes exactly when they give the same text |
| `Transcript.EncodeOnlyOther` | src/python/OAGKE.py:74-80 | a list of elements of other types only encodes to "" |
| `Transcript.EncodeAppend` | src/python/OAGKE.py:73-81 | encoding distributes over list concatenation |
| `Transcript.TranscriptBytesAppend` | src/python/OAGKE.py:72-81 | the returned bytes distribute over list concatenation |
| `Transcript.EncodeSingle` | src/python/OAGKE.py:75-80 | a point gives its coordinate text, str(x) + str(y) or "NoneNone", an int its decimal string (read back as the int), a str itself, anything else nothing |
| `Transcript.EncodeSkipsOther` | src/python/OAGKE.py:74-80 | an element of another type contributes nothing: `a + [other] + b` encodes as `a + b` |
| `Transcript.EncodeNotInjective` | src/python/OAGKE.py:76-80 | `[1, 23]`, `[12, 3]` and the point (1, 23) all encode to "123" |
| `Transcript.EncodeCollapsesToString` | src/python/OAGKE.py:79-80 | every transcript encodes like the one-string transcript of its text |
| `KeyDerivation.KdfInput` | src/python/OAGKE.py:55-62 | the input is the tag, then the coordinate text, then the session id |
| `KeyDerivation.SessionKeyInput` | src/python/OAGKE.py:55 | the session-key input starts with '1' and continues as the confirmation input does |
| `KeyDerivation.ConfirmationInput` | src/python/OAGKE.py:62 | the confirmation input starts with '2' and continues as the session-key input does |
| `KeyDerivation.SessionKey` | src/python/OAGKE.py:49-55 | `derived_key` is 32 bytes when HKDF honours `length=32` |
| `KeyDerivation.ConfirmationKey` | src/python/OAGKE.py:56-62 | `key_confirmation` is 32 bytes when HKDF honours `length=32` |
| `KeyDerivation.KdfInputsDomainSeparated` | src/python/OAGKE.py:55-62 | the session-key and confirmation inputs start with bytes 0x31 and 0x32, agree on every later byte, and so always differ |
| `KeyDerivation.KdfInputNotInjective` | src/python/OAGKE.py:55 | different shared points, or a shared point and a session id, can run together into the same HKDF input |
| `Oagke.User.constructor` | src/python/OAGKE.py:29-32 | only the name is set; keys are placeholders and no ephemeral or derived value exists |
| `Oagke.User.GenerateEd25519Key` | src/python/OAGKE.py:36-38 | sets the signing key and its public key as the verification key, and nothing else |
| `Oagke.User.EphemeralValue` | src/python/OAGKE.py:41-44 | stores r = the 32 bytes read big-endian, with 0 <= r < 2^256 and no reduction, and r*G; stores `inverse_mod(r, N)`, or raises leaving the old inverse; with a correct `inverse_mod` and r % N != 0, r * inverse % N == 1 |
| `Oagke.User.Exchange` | src/python/OAGKE.py:47-62 | sets the shared point k*Q, HKDF of the '1'-tagged and the '2'-tagged input under the given session id, and nothing else; both keys are 32 bytes when HKDF honours its length |
| `Oagke.User.Sign` | src/python/OAGKE.py:65-69 | signs exactly the bytes `transfer_to_bytes` gives; raises while the signing key is the placeholder |
| `Oagke.Verify` | src/python/OAGKE.py:84-93 | true exactly when the primitive accepts, false exactly when it raises InvalidSignature; other exceptions escape |
| `Oagke.EphemeralScalarUnchecked` | src/python/OAGKE.py:42-44 | the code admits the private value 0 (no inverse mod N) and values at least N |
| `Oagke.TwoPartyExchange` | src/python/OAGKE.py:47-62 | two users with swapped roles and one session id derive equal session keys and confirmations when scalar multiplication commutes |
| `Oagke.SignThenVerify` | src/python/OAGKE.py:65-93 | with a correct Ed25519, a user's signature over any list verifies, and verifies just as well for any other list with the same text |
| `Oagke.SignatureTransfersToCollision` | src/python/OAGKE.py:76-93 | with a correct Ed25519, a signature over `[1, 23]` verifies for `[12, 3]` |

## Left out

- Elliptic-curve arithmetic and curve membership come from the curve engine, which is not part of this model. Scalar multiplication is an arbitrary total function, so a failure inside the engine (such as an assertion on a negative scalar) is not modelled.
- The point at infinity is rendered as "None" + "None". This follows the `ellipticcurve` module's convention of storing `None` coordinates; that module is not part of this model.
- `numbertheory.inverse_mod` is an arbitrary function that may fail (`None`). Its correctness is the hypothesis `InverseModCorrect`.
- HKDF and SHA-256 are an arbitrary function of the parameters and the input. That the two keys are unrelated cannot be stated without a model of the hash; only their inputs are proved distinct.
- Ed25519 key generation, signing and verification are arbitrary functions. The generated private key is a parameter of `GenerateEd25519Key`.
- `os.urandom(32)` is the `entropy` parameter of `EphemeralValue`, which the operating system guarantees to be 32 bytes long.
- The session id is taken as the string `str(sid)`. How `str` renders a non-string session id is not modelled.
- `bytes(s, 'utf-8')` raises on lone surrogates. Dafny strings cannot hold them, so that error path is not represented.
- A Python name may be any object; here it is a string.
- The stricter behaviour of the surrounding design is not in the code and is not modelled: reducing or rejecting the ephemeral scalar, rejecting the point at infinity or off-curve points in `exchange`, and length-prefixed transcript framing.
- Decimal.Dec: does not model the limit on `str(int)` (since CPython 3.11, 3.10.7 and 3.9.14, `str` raises ValueError for an integer of more than 4300 digits, per `sys.get_int_max_str_digits`). Coordinates below P never reach it; an `int` in a transcript or a session id could.
- Sharing one `User` between threads: the code has none.
- Checking that the secp256k1 constants are correct (for example, that G has order N) is number theory about literals, not program behaviour.
- Oagke.TwoPartyExchange: agreement is proved only under the hypothesis that scalar multiplication commutes on multiples of G, because the curve engine is not modelled.
- Oagke.SignThenVerify: acceptance is proved only under the hypothesis that Ed25519 signatures verify under the matching key, because Ed25519 is not modelled.
- Oagke.SignatureTransfersToCollision: acceptance is proved only under the same hypothesis, for the same reason.
