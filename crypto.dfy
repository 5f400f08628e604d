/**
  The envelope codec: `_toValue` seals a value and `_fromValue` opens it.

  A sealed value is one string of four fields joined by `:`, in the order
  base64(IV) : base64(ciphertext) : kid : base64(tag), where the kid is the
  provider's key id (already base64 text) and the raw kid bytes are the AAD.
  The IV and the provider's random constants are parameters; the cipher is a
  `Gcm` pair of functions.
 */
module Crypto {
  import opened Wrappers
  import opened Base64
  import opened Delimited
  import opened Aead
  import opened KeyRuler

  const Delimiter: char := ':'

  /** The IV is 128 bits, drawn fresh for every sealed value. */
  const IvLength := 16

  /** The context _toValue asks the provider for a key under. */
  const DemoContext: string := "acontext"

  /** Ways _fromValue can fail: a string that is not four base64 fields, or a tag that does not verify. */
  datatype Error = MalformedEnvelope | IntegrityError

  /** What a cipher object is created and primed with. */
  datatype CipherParams = CipherParams(key: Bytes, iv: Bytes, aad: Bytes)

  /** What _fromValue reads out of an envelope before deciphering. */
  datatype Parsed = Parsed(params: CipherParams, ciphertext: Bytes, tag: Bytes)

  /** The key, IV and AAD _toValue gives the cipher: the decoded key and kid from newKey, and the IV. */
  function SealParams(p: MockProvider, iv: Bytes): (params: CipherParams)
    requires p.Valid()
    ensures params.iv == iv
    ensures Some(params.key) == Decode(p.NewKey(DemoContext).key) && |params.key| == KeyLength
    ensures Some(params.aad) == Decode(p.NewKey(DemoContext).kid) && |params.aad| == KidLength
    ensures Accepted(params.key, params.iv) <==> |iv| > 0
  {
    var tmpKey := p.NewKey(DemoContext);
    CipherParams(Decode(tmpKey.key).value, iv, Decode(tmpKey.kid).value)
  }

  /** The encryption _toValue performs on plaintext `pt`. */
  function SealOutput(gcm: Gcm, p: MockProvider, iv: Bytes, pt: Bytes): Sealed
    requires p.Valid()
  {
    var params := SealParams(p, iv);
    gcm.encrypt(params.key, params.iv, params.aad, pt)
  }

  /** The four fields _toValue emits, in wire order; none holds the delimiter, and each decodes to what was sealed. */
  function SealFields(gcm: Gcm, p: MockProvider, iv: Bytes, pt: Bytes): (fields: seq<string>)
    requires p.Valid()
    ensures |fields| == 4
    ensures forall i :: 0 <= i < |fields| ==> Delimiter !in fields[i]
    ensures Decode(fields[0]) == Some(iv)
    ensures Decode(fields[1]) == Some(SealOutput(gcm, p, iv, pt).ciphertext)
    ensures fields[2] == p.NewKey(DemoContext).kid && Decode(fields[2]) == Some(SealParams(p, iv).aad)
    ensures Decode(fields[3]) == Some(SealOutput(gcm, p, iv, pt).tag)
  {
    var sealed := SealOutput(gcm, p, iv, pt);
    var kid := p.NewKey(DemoContext).kid;
    var fields := [Encode(iv), Encode(sealed.ciphertext), kid, Encode(sealed.tag)];
    EncodeOmits(iv, Delimiter);
    EncodeOmits(sealed.ciphertext, Delimiter);
    DecodeOmits(kid, Delimiter);
    EncodeOmits(sealed.tag, Delimiter);
    forall i | 0 <= i < |fields|
      ensures Delimiter !in fields[i]
    {
      if i == 0 {
        assert fields[i] == Encode(iv);
      } else if i == 1 {
        assert fields[i] == Encode(sealed.ciphertext);
      } else if i == 2 {
        assert fields[i] == kid;
      } else {
        assert fields[i] == Encode(sealed.tag);
      }
    }
    DecodeEncode(iv);
    DecodeEncode(sealed.ciphertext);
    DecodeEncode(sealed.tag);
    fields
  }

  /** The string _toValue returns for plaintext `pt` and IV `iv`: the four fields joined by the delimiter, which none of them contains. */
  function Seal(gcm: Gcm, p: MockProvider, iv: Bytes, pt: Bytes): (s: string)
    requires p.Valid() && |iv| == IvLength
    ensures Split(s, Delimiter) == SealFields(gcm, p, iv, pt)
  {
    var fields := SealFields(gcm, p, iv, pt);
    SplitJoin(fields, Delimiter);
    Join(fields, Delimiter)
  }

  /** One base64 field; text that does not decode makes the envelope malformed. */
  function Field(text: string): (r: Result<Bytes, Error>)
    ensures r.Success? <==> Decode(text).Some?
    ensures r.Success? ==> Some(r.value) == Decode(text)
    ensures r.Failure? ==> r.error == MalformedEnvelope
  {
    match Decode(text)
    case Some(b) => Success(b)
    case None => Failure(MalformedEnvelope)
  }

  /** The reading half of _fromValue: split, decode the IV, look the key up by field 2, AAD from field 2, tag from field 3, ciphertext from field 1. */
  function Parse(p: MockProvider, s: string): (r: Result<Parsed, Error>)
    requires p.Valid()
    ensures r.Failure? ==> r.error == MalformedEnvelope
    ensures r.Success? <==>
      (var parts := Split(s, Delimiter);
       |parts| == 4 && Decode(parts[0]).Some? && Decode(parts[1]).Some? && Decode(parts[2]).Some? && Decode(parts[3]).Some?)
    ensures r.Success? ==>
      var parts := Split(s, Delimiter);
      && Some(r.value.params.iv) == Decode(parts[0])
      && Some(r.value.ciphertext) == Decode(parts[1])
      && Some(r.value.params.aad) == Decode(parts[2])
      && Some(r.value.tag) == Decode(parts[3])
      && Some(r.value.params.key) == Decode(p.NewKey(DemoContext).key)
  {
    var parts := Split(s, Delimiter);
    if |parts| != 4 then Failure(MalformedEnvelope)
    else
      var iv :- Field(parts[0]);
      var key := Decode(p.GetKey(parts[2])).value;
      var aad :- Field(parts[2]);
      var tag :- Field(parts[3]);
      var ciphertext :- Field(parts[1]);
      Success(Parsed(CipherParams(key, iv, aad), ciphertext, tag))
  }

  /** The result _fromValue gives for string `s`. */
  function Open(gcm: Gcm, p: MockProvider, s: string): (r: Result<Bytes, Error>)
    requires p.Valid()
    ensures r.Success? <==>
      (Parse(p, s).Success? &&
       var q := Parse(p, s).value;
       gcm.decrypt(q.params.key, q.params.iv, q.params.aad, q.ciphertext, q.tag).Some?)
    ensures r.Success? ==>
      var q := Parse(p, s).value;
      gcm.decrypt(q.params.key, q.params.iv, q.params.aad, q.ciphertext, q.tag) == Some(r.value)
    ensures r.Failure? ==> r.error == (if Parse(p, s).Success? then IntegrityError else MalformedEnvelope)
  {
    var parsed :- Parse(p, s);
    var params := parsed.params;
    match gcm.decrypt(params.key, params.iv, params.aad, parsed.ciphertext, parsed.tag)
    case Some(pt) => Success(pt)
    case None => Failure(IntegrityError)
  }

  /** _toValue: sealing step by step through a cipher object, as the source drives it. */
  method ToValue(gcm: Gcm, p: MockProvider, iv: Bytes, buf: Bytes) returns (envelope: string)
    requires p.Valid() && |iv| == IvLength
    ensures envelope == Seal(gcm, p, iv, buf)
    ensures Split(envelope, Delimiter) == SealFields(gcm, p, iv, buf)
  {
    var tmpKey := p.NewKey(DemoContext);
    var cipher := new Cipheriv(gcm, Decode(tmpKey.key).value, iv);
    cipher.SetAAD(Decode(tmpKey.kid).value);
    var encrypted := cipher.Update(buf);
    assert cipher.input == buf;
    var last := cipher.Final();
    encrypted := encrypted + last;
    assert encrypted == last;
    envelope := Join([Encode(iv), Encode(encrypted), tmpKey.kid, Encode(cipher.GetAuthTag())], Delimiter);
    SealSplits(gcm, p, iv, buf);
  }

  /** _fromValue: opening step by step through a decipher object, as the source drives it. */
  method FromValue(gcm: Gcm, p: MockProvider, buf: string) returns (r: Result<Bytes, Error>)
    requires p.Valid()
    ensures r == Open(gcm, p, buf)
  {
    var parts := Split(buf, Delimiter);
    if |parts| != 4 {
      return Failure(MalformedEnvelope);
    }
    var iv :- Field(parts[0]);
    var tmpKey := p.GetKey(parts[2]);
    var decipher := new Decipheriv(gcm, Decode(tmpKey).value, iv);
    var aad :- Field(parts[2]);
    decipher.SetAAD(aad);
    var tag :- Field(parts[3]);
    decipher.SetAuthTag(tag);
    var ciphertext :- Field(parts[1]);
    var decrypted := decipher.Update(ciphertext);
    assert decipher.input == ciphertext;
    var last := decipher.Final();
    match last {
      case None =>
        r := Failure(IntegrityError);
      case Some(rest) =>
        assert decrypted + rest == rest;
        r := Success(decrypted + rest);
    }
  }

  /** No field of a sealed value contains the delimiter, so splitting gives back exactly the four fields, in order. */
  lemma SealSplits(gcm: Gcm, p: MockProvider, iv: Bytes, pt: Bytes)
    requires p.Valid() && |iv| == IvLength
    ensures Split(Seal(gcm, p, iv, pt), Delimiter) == SealFields(gcm, p, iv, pt)
    ensures |Split(Seal(gcm, p, iv, pt), Delimiter)| == 4
  {
  }

  /** The sealed string holds exactly three delimiters. */
  lemma SealDelimiterCount(gcm: Gcm, p: MockProvider, iv: Bytes, pt: Bytes)
    requires p.Valid() && |iv| == IvLength
    ensures Occurrences(Seal(gcm, p, iv, pt), Delimiter) == 3
  {
    SealSplits(gcm, p, iv, pt);
    SplitShape(Seal(gcm, p, iv, pt), Delimiter);
  }

  /** The kid travels in the clear as field 2, exactly as newKey returned it, whatever the context; the IV field does not depend on the plaintext. */
  lemma KidInClear(gcm: Gcm, p: MockProvider, iv: Bytes, pt: Bytes, pt': Bytes, context: string)
    requires p.Valid() && |iv| == IvLength
    ensures |Split(Seal(gcm, p, iv, pt), Delimiter)| == |Split(Seal(gcm, p, iv, pt'), Delimiter)| == 4
    ensures Split(Seal(gcm, p, iv, pt), Delimiter)[2] == p.NewKey(context).kid
    ensures Split(Seal(gcm, p, iv, pt), Delimiter)[0] == Split(Seal(gcm, p, iv, pt'), Delimiter)[0]
    ensures Split(Seal(gcm, p, iv, pt), Delimiter)[1] == Encode(SealOutput(gcm, p, iv, pt).ciphertext)
  {
    SealSplits(gcm, p, iv, pt);
    SealSplits(gcm, p, iv, pt');
  }

  /**
    Opening a sealed value wires the fields back as sealing wired them: the same
    key (getKey of field 2 is newKey's key), the same IV, the same AAD bytes
    (the decoded kid), and the ciphertext and tag the encryption produced.
   */
  lemma ParseSeal(gcm: Gcm, p: MockProvider, iv: Bytes, pt: Bytes)
    requires p.Valid() && |iv| == IvLength
    ensures Parse(p, Seal(gcm, p, iv, pt))
      == Success(Parsed(SealParams(p, iv), SealOutput(gcm, p, iv, pt).ciphertext, SealOutput(gcm, p, iv, pt).tag))
  {
    SealSplits(gcm, p, iv, pt);
  }

  /** The AAD the opening side sets is the AAD the sealing side set: the raw kid bytes. */
  lemma AadAgrees(gcm: Gcm, p: MockProvider, iv: Bytes, pt: Bytes)
    requires p.Valid() && |iv| == IvLength
    ensures Parse(p, Seal(gcm, p, iv, pt)).Success?
    ensures Parse(p, Seal(gcm, p, iv, pt)).value.params.aad == SealParams(p, iv).aad
    ensures Some(SealParams(p, iv).aad) == Decode(p.NewKey(DemoContext).kid)
    ensures |SealParams(p, iv).aad| == KidLength
  {
    ParseSeal(gcm, p, iv, pt);
  }

  /** The key the opening side resolves from field 2 is the key the sealing side got from newKey. */
  lemma KeyAgrees(gcm: Gcm, p: MockProvider, iv: Bytes, pt: Bytes)
    requires p.Valid() && |iv| == IvLength
    ensures Parse(p, Seal(gcm, p, iv, pt)).Success?
    ensures Parse(p, Seal(gcm, p, iv, pt)).value.params.key == SealParams(p, iv).key
    ensures Some(SealParams(p, iv).key) == Decode(p.NewKey(DemoContext).key)
    ensures |SealParams(p, iv).key| == KeyLength
  {
    ParseSeal(gcm, p, iv, pt);
  }

  /** Round trip: given a correct AEAD, opening a sealed value returns its plaintext. */
  lemma RoundTrip(gcm: Gcm, p: MockProvider, iv: Bytes, pt: Bytes)
    requires gcm.Correct()
    requires p.Valid() && |iv| == IvLength
    ensures Open(gcm, p, Seal(gcm, p, iv, pt)) == Success(pt)
  {
    ParseSeal(gcm, p, iv, pt);
  }

  /** An envelope whose IV field decodes to no bytes is an integrity failure under a cipher that refuses empty IVs, as Node's does. */
  lemma OpenRejectsEmptyIv(gcm: Gcm, p: MockProvider, s: string)
    requires p.Valid()
    requires forall key, aad, ct, tag :: gcm.decrypt(key, [], aad, ct, tag) == None
    requires |Split(s, Delimiter)| == 4 && Decode(Split(s, Delimiter)[0]) == Some([])
    ensures Open(gcm, p, s).Failure?
    ensures Parse(p, s).Success? ==> Open(gcm, p, s) == Failure(IntegrityError)
  {
  }

  /** A string with other than three delimiters, i.e. other than four fields, is rejected as malformed. */
  lemma OpenRejectsFieldCount(gcm: Gcm, p: MockProvider, s: string)
    requires p.Valid()
    requires Occurrences(s, Delimiter) != 3
    ensures Parse(p, s) == Failure(MalformedEnvelope)
    ensures Open(gcm, p, s) == Failure(MalformedEnvelope)
  {
    SplitShape(s, Delimiter);
  }

  /** A four-field string whose fields do not all decode as base64 is rejected as malformed. */
  lemma OpenRejectsBadField(gcm: Gcm, p: MockProvider, s: string, i: nat)
    requires p.Valid()
    requires |Split(s, Delimiter)| == 4 && i < 4 && Decode(Split(s, Delimiter)[i]).None?
    ensures Open(gcm, p, s) == Failure(MalformedEnvelope)
  {
  }

  /** Round trip through the step-by-step methods, with the provider as loaded from its random bytes. */
  method SealThenOpen(gcm: Gcm, kidBytes: Bytes, keyBytes: Bytes, iv: Bytes, pt: Bytes) returns (r: Result<Bytes, Error>)
    requires gcm.Correct()
    requires |kidBytes| == KidLength && |keyBytes| == KeyLength && |iv| == IvLength
    ensures r == Success(pt)
  {
    var p := Load(kidBytes, keyBytes);
    var envelope := ToValue(gcm, p, iv, pt);
    r := FromValue(gcm, p, envelope);
    RoundTrip(gcm, p, iv, pt);
  }
}
