/**
  The mock of the KeyRuler key service. A real service would hand out a key per
  context, resolve key ids, revoke them and supply HMAC secrets; the mock holds
  one key id and one key, drawn as random bytes once when the module loads and
  kept as base64 text, and returns them whatever it is asked.
 */
module KeyRuler {
  import opened Wrappers
  import opened Base64

  /** The key id is 40 bits. */
  const KidLength := 5
  /** The key is 256 bits, an AES-256 key. */
  const KeyLength := 32

  /** What newKey returns: the key id and the key, both base64 text. */
  datatype KeyPair = KeyPair(kid: string, key: string)

  /** The provider's whole state: the constants demoKid and demoKey. */
  datatype MockProvider = MockProvider(demoKid: string, demoKey: string) {

    /** Both constants are base64 text of random bytes of the right lengths. */
    predicate Valid() {
      && Decode(demoKid).Some? && |Decode(demoKid).value| == KidLength
      && Decode(demoKey).Some? && |Decode(demoKey).value| == KeyLength
    }

    /** newKey(context): the one demo key pair, whatever the context. */
    function NewKey(context: string): (pair: KeyPair)
      ensures Valid() ==> Decode(pair.kid).Some? && |Decode(pair.kid).value| == KidLength
      ensures Valid() ==> Decode(pair.key).Some? && |Decode(pair.key).value| == KeyLength
    {
      KeyPair(demoKid, demoKey)
    }

    /** getKey(kid): the one demo key, whatever the key id. */
    function GetKey(kid: string): (key: string)
      ensures forall context :: key == NewKey(context).key
      ensures Valid() ==> Decode(key).Some? && |Decode(key).value| == KeyLength
    {
      demoKey
    }

    /** deleteKey(kid): does nothing; the provider state it leaves is the one it was given. */
    function DeleteKey(kid: string): (p: MockProvider)
      ensures p == this
      ensures p.GetKey(kid) == GetKey(kid)
    {
      this
    }

    /** getHMAC(context): returns nothing (undefined). */
    function GetHMAC(context: string): (secret: Option<string>)
      ensures secret.None?
    {
      None
    }
  }

  /** The provider as loaded: demoKid and demoKey are the base64 text of 5 and 32 random bytes. */
  function Load(kidBytes: Bytes, keyBytes: Bytes): (p: MockProvider)
    requires |kidBytes| == KidLength && |keyBytes| == KeyLength
    ensures p.Valid()
    ensures Decode(p.demoKid) == Some(kidBytes) && Decode(p.demoKey) == Some(keyBytes)
    ensures |p.demoKid| == 8 && |p.demoKey| == 44
  {
    var kid, key := Encode(kidBytes), Encode(keyBytes);
    DecodeEncode(kidBytes);
    DecodeEncode(keyBytes);
    assert |kid| == 4 * ((KidLength + 2) / 3) == 8;
    assert |key| == 4 * ((KeyLength + 2) / 3) == 44;
    MockProvider(kid, key)
  }

  /** newKey ignores its context: every context gets the same key id and key. */
  lemma NewKeyIgnoresContext(p: MockProvider, c1: string, c2: string)
    ensures p.NewKey(c1) == p.NewKey(c2)
  {
  }

  /** getKey, asked about any key id, returns the key that newKey hands out with its id. */
  lemma GetKeyResolvesNewKey(p: MockProvider, context: string, kid: string)
    ensures p.GetKey(kid) == p.NewKey(context).key
    ensures p.GetKey(p.NewKey(context).kid) == p.NewKey(context).key
  {
  }

  /** deleteKey changes nothing: the deleted id still resolves, to the same key. */
  lemma DeleteKeyIsNoOp(p: MockProvider, kid: string, context: string)
    ensures p.DeleteKey(kid) == p
    ensures p.DeleteKey(kid).GetKey(kid) == p.GetKey(kid)
    ensures p.DeleteKey(kid).NewKey(context) == p.NewKey(context)
  {
  }

  /** getHMAC returns no secret, for any context. */
  lemma GetHMACReturnsNothing(p: MockProvider, context: string)
    ensures p.GetHMAC(context) == None
  {
  }
}
