/** Verdicts on signed records. Signature schemes, the document parser and the issuer's key are
    parameters; what the handlers do with them is not. */
module Auth {
  import opened Nodes

  const ALG_LEN: nat := 12

  /** The foreign parts. `None` stands for an error, which every caller treats as a refusal. */
  datatype Crypto = Crypto(
    isText: Bytes -> bool,                               // valid UTF-8
    sigLength: Bytes -> Option<nat>,                     // signature length of an algorithm
    keyOf: Bytes -> Option<Bytes>,                       // public key in a document
    verify: (Bytes, Bytes, Bytes, Bytes) -> Option<bool>,  // algorithm, key, signature, message
    issuerKey: Option<Bytes>)

  /** The bytes before the first zero. */
  function UntilZero(s: Bytes): (r: Bytes)
    ensures r <= s && 0 !in r
    ensures |r| < |s| ==> s[|r|] == 0
  {
    if s == [] || s[0] == 0 then [] else [s[0]] + UntilZero(s[1..])
  }

  /** The algorithm name in the first 12 bytes, padded with zeros. */
  function AlgString(c: Crypto, value: Bytes): Option<Bytes> {
    if |value| < ALG_LEN then None
    else
      var name := UntilZero(value[..ALG_LEN]);
      if c.isText(name) then Some(name) else None
  }

  datatype Parts = Parts(alg: Bytes, signature: Bytes, data: Bytes)

  /** Algorithm, signature and document of a record. */
  function SplitRecord(c: Crypto, value: Bytes): Option<Parts> {
    var alg := AlgString(c, value);
    if alg.None? then None
    else
      var len := c.sigLength(alg.value);
      if len.None? || |value| < ALG_LEN + len.value then None
      else Some(Parts(alg.value, value[ALG_LEN..ALG_LEN + len.value], value[ALG_LEN + len.value..]))
  }

  function VerifyWithKeyOf(c: Crypto, p: Parts, signature: Bytes, message: Bytes): Option<bool> {
    var key := c.keyOf(p.data);
    if key.None? then None else c.verify(p.alg, key.value, signature, message)
  }

  /** The record is signed with the key in its own document. */
  function SelfSigned(c: Crypto, value: Bytes): Option<bool> {
    var p := SplitRecord(c, value);
    if p.None? then None else VerifyWithKeyOf(c, p.value, p.value.signature, p.value.data)
  }

  /** The new record is signed with the key in the old document, and with its own. */
  function KeyRotation(c: Crypto, newValue: Bytes, oldValue: Bytes, auth: Bytes): Option<bool> {
    var p := SplitRecord(c, oldValue);
    if p.None? then None
    else
      var ok := VerifyWithKeyOf(c, p.value, auth, newValue);
      if ok != Some(true) then ok else SelfSigned(c, newValue)
  }

  /** The deletion message is signed with the key in the stored document. */
  function DeleteSigned(c: Crypto, value: Bytes, auth: Bytes, message: Bytes): Option<bool> {
    var p := SplitRecord(c, value);
    if p.None? then None else VerifyWithKeyOf(c, p.value, auth, message)
  }

  /** The record is signed with the issuer's key. */
  function IssuerSigned(c: Crypto, value: Bytes): Option<bool> {
    var p := SplitRecord(c, value);
    if p.None? || c.issuerKey.None? then None
    else c.verify(p.value.alg, c.issuerKey.value, p.value.signature, p.value.data)
  }

  predicate Accepted(verdict: Option<bool>) {
    verdict == Some(true)
  }

  /** A record as a signer lays it out. */
  function Pack(alg: Bytes, signature: Bytes, data: Bytes): Bytes
    requires |alg| <= ALG_LEN
  {
    alg + seq(ALG_LEN - |alg|, _ => 0) + signature + data
  }

  lemma {:induction false} PaddingStripped(alg: Bytes, n: nat)
    requires 0 !in alg
    ensures UntilZero(alg + seq(n, _ => 0)) == alg
  {
    var pad: Bytes := seq(n, _ => 0);
    if alg == [] {
      assert alg + pad == pad;
    } else {
      assert (alg + pad)[1..] == alg[1..] + pad;
      PaddingStripped(alg[1..], n);
    }
  }

  /** A packed record splits into what was packed. */
  lemma SplitPacked(c: Crypto, alg: Bytes, signature: Bytes, data: Bytes)
    requires |alg| <= ALG_LEN && 0 !in alg && c.isText(alg) && c.sigLength(alg) == Some(|signature|)
    ensures SplitRecord(c, Pack(alg, signature, data)) == Some(Parts(alg, signature, data))
  {
    var pad: Bytes := seq(ALG_LEN - |alg|, _ => 0);
    var value := Pack(alg, signature, data);
    PaddingStripped(alg, ALG_LEN - |alg|);
    assert value[..ALG_LEN] == alg + pad;
    assert value[ALG_LEN..ALG_LEN + |signature|] == signature;
    assert value[ALG_LEN + |signature|..] == data;
  }

  // ---------- What a verdict means to the foreign verifier

  /** The record consists of a name field, a signature and a document: the name is what stands before the first
      zero of the field, and the signature is as long as its algorithm says. */
  ghost predicate Laid(c: Crypto, value: Bytes, p: Parts) {
    && |value| >= ALG_LEN + |p.signature|
    && p.alg <= value[..ALG_LEN] && 0 !in p.alg && (|p.alg| < ALG_LEN ==> value[|p.alg|] == 0)
    && value == value[..ALG_LEN] + p.signature + p.data
    && c.isText(p.alg) && c.sigLength(p.alg) == Some(|p.signature|)
  }

  lemma {:induction false} UntilZeroIs(s: Bytes, r: Bytes)
    requires r <= s && 0 !in r && (|r| < |s| ==> s[|r|] == 0)
    ensures UntilZero(s) == r
  {
    if r != [] {
      assert r[0] in r && r == [r[0]] + r[1..];
      UntilZeroIs(s[1..], r[1..]);
    }
  }

  /** A record splits into its parts, and into nothing else. */
  lemma SplitExactly(c: Crypto, value: Bytes, p: Parts)
    ensures SplitRecord(c, value) == Some(p) <==> Laid(c, value, p)
  {
    if Laid(c, value, p) {
      UntilZeroIs(value[..ALG_LEN], p.alg);
      assert value[ALG_LEN..ALG_LEN + |p.signature|] == p.signature;
      assert value[ALG_LEN + |p.signature|..] == p.data;
    }
    if SplitRecord(c, value) == Some(p) {
      assert value == value[..ALG_LEN] + p.signature + p.data;
    }
  }

  /** The verifier of the algorithm accepts the signature under the key. */
  predicate Verifies(c: Crypto, alg: Bytes, key: Option<Bytes>, signature: Bytes, message: Bytes) {
    key.Some? && c.verify(alg, key.value, signature, message) == Some(true)
  }

  /** A record is accepted as self-signed if and only if the verifier accepts its signature over its document,
      under the key in that document. */
  lemma SelfSignedExactly(c: Crypto, value: Bytes)
    ensures Accepted(SelfSigned(c, value)) <==>
            exists p :: Laid(c, value, p) && Verifies(c, p.alg, c.keyOf(p.data), p.signature, p.data)
  {
    SplitOrNot(c, value);
  }

  /** It is accepted as the issuer's if and only if the verifier accepts that signature under the issuer's key. */
  lemma IssuerSignedExactly(c: Crypto, value: Bytes)
    ensures Accepted(IssuerSigned(c, value)) <==>
            exists p :: Laid(c, value, p) && Verifies(c, p.alg, c.issuerKey, p.signature, p.data)
  {
    SplitOrNot(c, value);
  }

  /** A deletion is accepted if and only if the verifier of the stored record's algorithm accepts the given
      signature over the message, under the key in the stored document. */
  lemma DeleteSignedExactly(c: Crypto, value: Bytes, auth: Bytes, message: Bytes)
    ensures Accepted(DeleteSigned(c, value, auth, message)) <==>
            exists p :: Laid(c, value, p) && Verifies(c, p.alg, c.keyOf(p.data), auth, message)
  {
    SplitOrNot(c, value);
  }

  /** A rotation is accepted if and only if the verifier accepts the given signature over the new record, under
      the key in the old document, and the new record's own signature, under the key in the new one. */
  lemma RotationExactly(c: Crypto, newValue: Bytes, oldValue: Bytes, auth: Bytes)
    ensures Accepted(KeyRotation(c, newValue, oldValue, auth)) <==>
            && (exists p :: Laid(c, oldValue, p) && Verifies(c, p.alg, c.keyOf(p.data), auth, newValue))
            && (exists p :: Laid(c, newValue, p) && Verifies(c, p.alg, c.keyOf(p.data), p.signature, p.data))
  {
    DeleteSignedExactly(c, oldValue, auth, newValue);
    SelfSignedExactly(c, newValue);
    RotationNeedsBoth(c, newValue, oldValue, auth);
  }

  lemma SplitOrNot(c: Crypto, value: Bytes)
    ensures forall p :: Laid(c, value, p) <==> SplitRecord(c, value) == Some(p)
  {
    forall p ensures Laid(c, value, p) <==> SplitRecord(c, value) == Some(p) {
      SplitExactly(c, value, p);
    }
  }

  /** For a record as a signer lays it out. */
  lemma PackedVerdicts(c: Crypto, alg: Bytes, signature: Bytes, data: Bytes)
    requires |alg| <= ALG_LEN && 0 !in alg && c.isText(alg) && c.sigLength(alg) == Some(|signature|)
    ensures var value := Pack(alg, signature, data);
      && (Accepted(SelfSigned(c, value)) <==> Verifies(c, alg, c.keyOf(data), signature, data))
      && (Accepted(IssuerSigned(c, value)) <==> Verifies(c, alg, c.issuerKey, signature, data))
  {
    SplitPacked(c, alg, signature, data);
    SplitOrNot(c, Pack(alg, signature, data));
    SelfSignedExactly(c, Pack(alg, signature, data));
    IssuerSignedExactly(c, Pack(alg, signature, data));
  }

  /** Splitting loses nothing but the bytes after the first zero of the name field. */
  lemma SplitCovers(c: Crypto, value: Bytes)
    requires SplitRecord(c, value).Some?
    ensures var p := SplitRecord(c, value).value;
      && p.alg <= value[..ALG_LEN]
      && value == value[..ALG_LEN] + p.signature + p.data
      && c.sigLength(p.alg) == Some(|p.signature|)
  {
  }

  /** A rotation is accepted exactly when the old document's key signed the new record and the new
      record is self-signed. */
  lemma RotationNeedsBoth(c: Crypto, newValue: Bytes, oldValue: Bytes, auth: Bytes)
    ensures Accepted(KeyRotation(c, newValue, oldValue, auth)) <==>
            && Accepted(DeleteSigned(c, oldValue, auth, newValue))
            && Accepted(SelfSigned(c, newValue))
  {
  }
}
