# KeyRuler envelope codec: a Dafny model

This project models the envelope encryption of the KeyRuler playground
(`crypto.js`). The codec protects one field value at a time before it goes
into Kafka through an avro logical type:

- `_toValue` seals a plaintext. It draws a 16-byte IV and asks the key
  provider for a key id (kid) and a key. It runs AES-256-GCM with the raw kid
  bytes as additional authenticated data (AAD). It emits one string:
  `base64(IV) : base64(ciphertext) : kid : base64(tag)`.
- `_fromValue` opens such a string. It splits it on `:`, resolves the key
  from field 2, uses field 2's bytes as AAD and field 3 as the expected tag,
  and deciphers field 1.
- The mock key provider (`newKey`, `getKey`, `deleteKey`, `getHMAC`) returns
  one fixed key id and one fixed key. Both are base64 text of random bytes
  drawn when the module loads.

Modules, one per concern:

- `Wrappers` (`wrappers.dfy`): `Option` and `Result`.
- `Base64` (`base64.dfy`): encoding over the standard alphabet of section 4 of
  RFC 4648 with `=` padding, a decoder that rejects malformed quanta but ignores pad bits, and the round trip.
- `Delimited` (`delimited.dfy`): joining with `:` and JavaScript's
  `split(':')`, and the laws linking them.
- `Aead` (`aead.dfy`): AES-256-GCM as a pair of functions `Gcm(encrypt,
  decrypt)`. The predicate `Gcm.Correct()` says authenticated decryption
  (section 7.2 of NIST SP 800-38D) undoes authenticated encryption (section
  7.1) for every 32-byte key and non-empty IV. Two classes stand for the stateful objects `createCipheriv` and
  `createDecipheriv` return.
- `KeyRuler` (`keyruler.dfy`): the mock provider, as a datatype holding its
  two constants.
- `Crypto` (`crypto.dfy`): the codec. `Seal`, `Parse` and `Open` are pure
  specification functions. The methods `ToValue` and `FromValue` drive the
  cipher objects step by step, in the source's order, and are proved equal to
  `Seal` and `Open`.

Randomness is a parameter. The IV is an argument of `ToValue`. The provider's
constants come from `KeyRuler.Load(kidBytes, keyBytes)`. The round trip takes
`Gcm.Correct()` as a hypothesis rather than as an axiom.

Where the model departs from the code as written:

- The code has no error handling, as its TODO at crypto.js:92-94 says. The
  model makes `_fromValue` return `Failure(MalformedEnvelope)` when the string
  does not split into exactly four fields or a field is not base64. It returns
  `Failure(IntegrityError)` when the tag does not verify, which is where Node's
  `final` throws. As written, the code throws a `TypeError` on fewer than four
  fields and silently ignores fields after the fourth.
- The key provider follows the code, not the provider design the codec was
  written against. `getKey` never fails. `deleteKey` revokes nothing.
  `getHMAC` returns nothing. The context is not used as AAD; only the kid is.
- Field 2 holds the kid exactly as `newKey` returned it. That text is already
  base64 of the 5 kid bytes, so the wire format is still four base64 fields.

## Model

| member | source | states |
|---|---|---|
| `Base64.Rfc4648Vectors` | crypto.js:85 | the encoder gives the test vectors of section 10 of RFC 4648 ("" to "foobar"), so its alphabet and bit order are those of `toString('base64')` |
| `Base64.PadBitsIgnored` | crypto.js:97 | like `Buffer.from(…, 'base64')`, the decoder ignores the unused low bits of a padded last quantum: "Zh==" decodes to the same byte as "Zg==", which is the only encoding of that byte |
| `Base64.Decode` | crypto.js:97-111 | a string that decodes has the length of the encoding of what it decodes to, 4 * ceil(n / 3); it rejects (None) characters outside the alphabet, missing padding and inner padding, which Node's lenient `Buffer.from(…, 'base64')` would accept, and like Node it ignores the unused pad bits of the last quantum |
| `Base64.Encode` | crypto.js:85 | a base64 encoding of n bytes has 4 * ceil(n / 3) characters |
| `Base64.CharOf` | crypto.js:85 | each 6-bit value maps to an alphabet character that decodes back to the same value |
| `Base64.ValueOf` | crypto.js:97 | every alphabet character decodes to a 6-bit value |
| `Base64.GroupRoundTrip` | crypto.js:85-97 | three bytes encode to four alphabet characters that decode back to the same three bytes |
| `Base64.DecodeEncode` | crypto.js:85-106 | decoding inverts encoding: `Decode(Encode(b)) == Some(b)` for every byte sequence, whatever its length modulo 3 |
| `Base64.EncodeChars` | crypto.js:85 | every character of an encoding is an alphabet character or the pad `=` |
| `Base64.EncodeOmits` | crypto.js:85 | a character outside the alphabet and pad, such as `:`, never occurs in an encoding |
| `Base64.DecodeChars` | crypto.js:97-106 | a string that decodes holds only alphabet and pad characters |
| `Base64.DecodeOmits` | crypto.js:105 | a string that decodes, such as a kid, contains no `:` |
| `Delimited.Split` | crypto.js:95 | `split(':')` always gives at least one piece (the empty string splits into one empty piece) |
| `Delimited.Join` | crypto.js:85 | joining puts the first piece first, followed by the delimiter when more pieces follow; one piece joins to itself |
| `Delimited.SplitShape` | crypto.js:95 | `split(':')` gives one more piece than there are `:`, and no piece contains `:` |
| `Delimited.SplitJoin` | crypto.js:85-95 | joining `:`-free pieces with `:` and splitting again gives back the same pieces, in order |
| `Delimited.JoinSplit` | crypto.js:85-95 | splitting on `:` and joining again gives back the original string |
| `Aead.Gcm.Correct` | crypto.js:66-112 | the one hypothesis on AES-256-GCM, over the inputs the cipher accepts (a 32-byte key and a non-empty IV): authenticated decryption of an encryption's ciphertext and tag under the same key, IV and AAD returns the plaintext; on that domain encryption never maps two plaintexts to the same output |
| `Aead.CorrectAdmitsEmptyIvRejection` | crypto.js:100 | the hypothesis does not contradict Node's refusal of an empty IV: some cipher meets `Correct` and fails decryption under every empty IV |
| `Aead.Cipheriv.constructor` | crypto.js:66 | the cipher starts with the given key and IV, no AAD, no input and no tag |
| `Aead.Cipheriv.SetAAD` | crypto.js:71 | `setAAD` before any update sets the AAD and leaves input, tag and state as they were |
| `Aead.Cipheriv.Update` | crypto.js:76 | `update` appends the plaintext to the cipher's input and leaves AAD and tag as they were |
| `Aead.Cipheriv.Final` | crypto.js:77 | `final` yields the GCM ciphertext of all input under key, IV and AAD, and makes the GCM tag available to `getAuthTag` |
| `Aead.Cipheriv.GetAuthTag` | crypto.js:85 | after `final`, `getAuthTag` gives the GCM tag computed over the AAD and all the input |
| `Aead.Decipheriv.constructor` | crypto.js:100 | the decipher starts with the given key and IV, no AAD, no tag and no input |
| `Aead.Decipheriv.SetAAD` | crypto.js:105 | `setAAD` before any update sets the AAD and changes nothing else |
| `Aead.Decipheriv.SetAuthTag` | crypto.js:106 | `setAuthTag` sets the expected tag and changes nothing else |
| `Aead.Decipheriv.Update` | crypto.js:111 | `update` appends the ciphertext to the input and releases no plaintext |
| `Aead.Decipheriv.Final` | crypto.js:112 | `final` gives authenticated decryption of all input under key, IV, AAD and expected tag; None is the throw |
| `KeyRuler.MockProvider.NewKey` | crypto.js:40-42 | `newKey` returns the demo kid and key, which decode to 5 and 32 bytes |
| `KeyRuler.MockProvider.GetKey` | crypto.js:44-46 | `getKey` returns, for any kid, the key `newKey` returns for any context, which decodes to 32 bytes |
| `KeyRuler.MockProvider.DeleteKey` | crypto.js:48-49 | `deleteKey` leaves the provider state as it was, so the deleted kid still resolves |
| `KeyRuler.MockProvider.GetHMAC` | crypto.js:51-52 | `getHMAC` returns no secret |
| `KeyRuler.Load` | crypto.js:37-38 | the provider constants are base64 text, 8 and 44 characters long, that decode to the 5 kid bytes and 32 key bytes drawn |
| `KeyRuler.NewKeyIgnoresContext` | crypto.js:40-42 | `newKey` returns the same `{kid, key}` for every context |
| `KeyRuler.GetKeyResolvesNewKey` | crypto.js:40-46 | `getKey` returns, for every kid, the key `newKey` hands out, in particular for newKey's own kid |
| `KeyRuler.DeleteKeyIsNoOp` | crypto.js:48-49 | `deleteKey` changes no provider state: the deleted kid still resolves to the same key |
| `KeyRuler.GetHMACReturnsNothing` | crypto.js:51-52 | `getHMAC` returns no secret for any context |
| `Crypto.SealParams` | crypto.js:64-71 | the sealing cipher gets newKey's decoded key (32 bytes), the drawn IV, and newKey's decoded kid (5 bytes) as AAD; the key and IV are in the cipher's domain exactly when the IV is non-empty |
| `Crypto.SealFields` | crypto.js:85 | the four components joined by `:` hold no `:`, and decode back to the IV, the ciphertext, the AAD (field 2 being newKey's kid text) and the tag |
| `Crypto.Field` | crypto.js:97-111 | one `Buffer.from(…, 'base64')` read succeeds exactly when the text decodes, gives the decoded bytes, and otherwise fails as `MalformedEnvelope` |
| `Crypto.Seal` | crypto.js:59-86 | the sealed string splits on `:` into exactly the four fields base64(IV), base64(ciphertext), kid, base64(tag), in that order |
| `Crypto.Parse` | crypto.js:91-106 | reading succeeds exactly when there are four fields and each decodes; then the IV, ciphertext, AAD and tag are the decoded fields 0, 1, 2 and 3, and the key is newKey's decoded key; any failure is `MalformedEnvelope` |
| `Crypto.Open` | crypto.js:91-115 | opening succeeds exactly when reading succeeds and the tag verifies, and returns what decryption released; a failed verify is `IntegrityError`, a failed read `MalformedEnvelope` |
| `Crypto.ToValue` | crypto.js:59-86 | `_toValue` returns the sealed string of the specification, and splitting it on `:` gives exactly the four fields base64(IV), base64(ciphertext), kid, base64(tag) |
| `Crypto.FromValue` | crypto.js:91-115 | `_fromValue` returns what the opening specification gives, error results included |
| `Crypto.SealSplits` | crypto.js:85-95 | no field of a sealed string contains `:`, so it splits into exactly four parts equal to the four joined components, in order |
| `Crypto.SealDelimiterCount` | crypto.js:85 | a sealed string holds exactly three `:` |
| `Crypto.KidInClear` | crypto.js:69-85 | field 2 is exactly the kid `newKey` returned (for any context); field 0 does not depend on the plaintext; field 1 is the encoded ciphertext |
| `Crypto.ParseSeal` | crypto.js:64-106 | reading a sealed string recovers the same key, IV and AAD the sealing cipher used, and the ciphertext and tag it produced |
| `Crypto.AadAgrees` | crypto.js:71-105 | the AAD set when opening equals the AAD set when sealing: the 5 decoded kid bytes |
| `Crypto.KeyAgrees` | crypto.js:64-100 | the key `getKey` resolves from field 2 is the 32-byte key `newKey` gave the sealing side |
| `Crypto.RoundTrip` | crypto.js:59-115 | if GCM decryption undoes encryption, opening a sealed plaintext returns it: `Open(Seal(pt)) == Success(pt)` |
| `Crypto.OpenRejectsFieldCount` | crypto.js:92-95 | a string with other than three `:` (other than four fields) is rejected as malformed |
| `Crypto.OpenRejectsBadField` | crypto.js:97-111 | a four-field string with a field that is not base64 is rejected as malformed |
| `Crypto.OpenRejectsEmptyIv` | crypto.js:97-100 | under a cipher that refuses empty IVs, an envelope whose IV field decodes to no bytes never opens, and fails as `IntegrityError` once it reads |
| `Crypto.SealThenOpen` | crypto.js:117-123 | sealing with the loaded provider and then opening, both step by step, returns the original plaintext |

## Left out

- AES-256-GCM internals (block cipher, counter mode, GHASH, tag computation): `crypto.createCipheriv` and `crypto.createDecipheriv` are a foreign library; the cipher is a pair of function values, and the round trip assumes `Gcm.Correct()`.
- Cipher input rejections (`createDecipheriv` throws on a zero-length IV read back by `_fromValue`, or a key that is not 32 bytes): folded into the abstract `decrypt` returning None, which the model reports as `IntegrityError` (`Crypto.OpenRejectsEmptyIv`). `Gcm.Correct` only speaks of the inputs the cipher accepts, so it leaves such a `decrypt` possible (`Aead.CorrectAdmitsEmptyIvRejection`).
- `crypto.randomBytes` (crypto.js:37-38, crypto.js:63): the IV and the provider's random bytes are parameters.
- IV uniqueness per key (section 8 of NIST SP 800-38D): a probabilistic property with no deterministic statement.
- Tamper detection and binding of the kid to the tag: they rest on the unforgeability of GCM tags, which is a cryptographic assumption, not a deterministic property of the codec.
- UTF-8 encoding and decoding of the plaintext (crypto.js:76, crypto.js:111): the plaintext is an opaque byte sequence.
- `Base64.Decode`: rejects characters outside the alphabet, missing padding and padding before the last quantum, and `_fromValue` then reports the envelope as `MalformedEnvelope`. Node's decoder is lenient: it skips characters outside the alphabet and accepts missing padding. Both ignore non-zero pad bits in the last quantum (`Base64.PadBitsIgnored`).
- `Aead.Cipheriv.Update`: returns no output and `Final` returns the whole ciphertext. Node's GCM `update` emits ciphertext chunk by chunk, but the `update` and `final` outputs of one whole-message call concatenate to the same bytes, and their base64 texts to the same string.
- `Aead.Decipheriv.Update`: returns no output and `Final` returns the whole plaintext. Node's GCM `update` already releases unverified plaintext, but `_fromValue` returns nothing when `final` throws, so the codec's result is the same.
- The console demo (crypto.js:117-123): I/O. `Crypto.SealThenOpen` states the round trip it exercises.
- All of `stub.js`: the avsc `LogicalType` subclass whose hooks only log and return their input, and the Kafka broker and schema-registry configuration. These are wrappers over libraries outside this model and network configuration.
- Key provider timeouts, revocation enforcement and `KeyNotFound`: the mock has none of these, so the model has none either.
