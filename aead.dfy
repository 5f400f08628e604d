/**
  AES-256-GCM as the codec uses it. The block cipher, counter mode and GHASH of
  NIST SP 800-38D are not modelled: the authenticated encryption and
  authenticated decryption functions of sections 7.1 and 7.2 are given as a
  pair of function values, and the one property the codec relies on (that
  decryption undoes encryption under the same key, IV and AAD, for the
  32-byte keys and non-empty IVs the cipher accepts) is the
  predicate `Correct`, which the round-trip results take as a hypothesis.

  `Cipheriv` and `Decipheriv` are the objects `crypto.createCipheriv` and
  `crypto.createDecipheriv` return: the codec mutates them with `setAAD` and
  `setAuthTag` and feeds them with `update` and `final`.
 */
module Aead {
  import opened Wrappers
  import opened Base64

  /** An AES-256 key is 256 bits. */
  const Aes256KeyLength := 32

  /** The inputs Node's `aes-256-gcm` cipher objects are created with at all: a 32-byte key and a non-empty IV. */
  predicate Accepted(key: Bytes, iv: Bytes) {
    |key| == Aes256KeyLength && |iv| > 0
  }

  /** Output of authenticated encryption: the ciphertext and the authentication tag. */
  datatype Sealed = Sealed(ciphertext: Bytes, tag: Bytes)

  /** encrypt(key, iv, aad, plaintext) and decrypt(key, iv, aad, ciphertext, tag); decrypt gives None when the tag does not verify. */
  datatype Gcm = Gcm(
    encrypt: (Bytes, Bytes, Bytes, Bytes) -> Sealed,
    decrypt: (Bytes, Bytes, Bytes, Bytes, Bytes) -> Option<Bytes>)
  {
    /**
      For every key and IV the cipher accepts, authenticated decryption accepts
      what authenticated encryption produced and returns its plaintext. Keys of
      another length and empty IVs are outside it: there Node throws, which
      `decrypt` may model as None.
     */
    ghost predicate Correct()
      ensures Correct() ==>
        forall key: Bytes, iv: Bytes, aad: Bytes, pt1: Bytes, pt2: Bytes ::
          Accepted(key, iv) && encrypt(key, iv, aad, pt1) == encrypt(key, iv, aad, pt2) ==> pt1 == pt2
    {
      forall key: Bytes, iv: Bytes, aad: Bytes, pt: Bytes :: Accepted(key, iv) ==>
        decrypt(key, iv, aad, encrypt(key, iv, aad, pt).ciphertext, encrypt(key, iv, aad, pt).tag) == Some(pt)
    }
  }

  /** A cipher can meet `Correct` and still refuse every empty IV, as Node's does. */
  lemma CorrectAdmitsEmptyIvRejection()
    ensures exists gcm: Gcm :: gcm.Correct() && forall key, aad, ct, tag :: gcm.decrypt(key, [], aad, ct, tag) == None
  {
    var gcm := Gcm(
      (key: Bytes, iv: Bytes, aad: Bytes, pt: Bytes) => Sealed(pt, iv),
      (key: Bytes, iv: Bytes, aad: Bytes, ct: Bytes, tag: Bytes) => if |iv| == 0 || tag != iv then None else Some(ct));
    assert gcm.Correct();
    assert forall key, aad, ct, tag :: gcm.decrypt(key, [], aad, ct, tag) == None;
  }

  /** The encrypting object; `update` collects the input and `final` runs encryption on all of it. */
  class Cipheriv {
    const gcm: Gcm
    const key: Bytes
    const iv: Bytes
    var aad: Bytes
    var input: Bytes
    var finished: bool
    var authTag: Bytes

    /** Once final has run, the tag is the one encryption computed over the AAD and all the input. */
    ghost predicate Valid()
      reads this
    {
      finished ==> authTag == gcm.encrypt(key, iv, aad, input).tag
    }

    constructor (gcm: Gcm, key: Bytes, iv: Bytes)
      ensures this.gcm == gcm && this.key == key && this.iv == iv
      ensures aad == [] && input == [] && !finished && authTag == []
      ensures Valid()
    {
      this.gcm, this.key, this.iv := gcm, key, iv;
      aad, input, finished, authTag := [], [], false, [];
    }

    /** setAAD: the additional authenticated data, given before any update. */
    method SetAAD(data: Bytes)
      requires Valid() && !finished && input == []
      modifies this
      ensures Valid()
      ensures aad == data && input == old(input) && finished == old(finished) && authTag == old(authTag)
    {
      aad := data;
    }

    /** update: takes more plaintext; the ciphertext is released by Final. */
    method Update(data: Bytes) returns (out: Bytes)
      requires Valid() && !finished
      modifies this
      ensures Valid()
      ensures input == old(input) + data && aad == old(aad) && !finished && authTag == old(authTag)
      ensures out == []
    {
      input := input + data;
      out := [];
    }

    /** final: the ciphertext of everything passed to Update; afterwards getAuthTag gives the tag. */
    method Final() returns (out: Bytes)
      requires Valid() && !finished
      modifies this
      ensures Valid()
      ensures finished && aad == old(aad) && input == old(input)
      ensures out == gcm.encrypt(key, iv, aad, input).ciphertext
      ensures authTag == gcm.encrypt(key, iv, aad, input).tag
    {
      var sealed := gcm.encrypt(key, iv, aad, input);
      out, authTag, finished := sealed.ciphertext, sealed.tag, true;
    }

    /** getAuthTag, which is only defined once final has run. */
    function GetAuthTag(): (tag: Bytes)
      reads this
      requires Valid() && finished
      ensures tag == gcm.encrypt(key, iv, aad, input).tag
    {
      authTag
    }
  }

  /** The decrypting object; `final` verifies the tag and releases the plaintext, or fails. */
  class Decipheriv {
    const gcm: Gcm
    const key: Bytes
    const iv: Bytes
    var aad: Bytes
    var expectedTag: Bytes
    var input: Bytes
    var finished: bool

    constructor (gcm: Gcm, key: Bytes, iv: Bytes)
      ensures this.gcm == gcm && this.key == key && this.iv == iv
      ensures aad == [] && expectedTag == [] && input == [] && !finished
    {
      this.gcm, this.key, this.iv := gcm, key, iv;
      aad, expectedTag, input, finished := [], [], [], false;
    }

    /** setAAD: the additional authenticated data, given before any update. */
    method SetAAD(data: Bytes)
      requires !finished && input == []
      modifies this
      ensures aad == data && expectedTag == old(expectedTag) && input == old(input) && !finished
    {
      aad := data;
    }

    /** setAuthTag: the tag that final checks the ciphertext against. */
    method SetAuthTag(tag: Bytes)
      requires !finished
      modifies this
      ensures expectedTag == tag && aad == old(aad) && input == old(input) && !finished
    {
      expectedTag := tag;
    }

    /** update: takes more ciphertext; no plaintext leaves before the tag is checked. */
    method Update(data: Bytes) returns (out: Bytes)
      requires !finished
      modifies this
      ensures input == old(input) + data && aad == old(aad) && expectedTag == old(expectedTag) && !finished
      ensures out == []
    {
      input := input + data;
      out := [];
    }

    /** final: the plaintext of everything passed to Update if the tag verifies, None (Node throws) if not. */
    method Final() returns (out: Option<Bytes>)
      requires !finished
      modifies this
      ensures finished && aad == old(aad) && expectedTag == old(expectedTag) && input == old(input)
      ensures out == gcm.decrypt(key, iv, aad, input, expectedTag)
    {
      out := gcm.decrypt(key, iv, aad, input, expectedTag);
      finished := true;
    }
  }
}
