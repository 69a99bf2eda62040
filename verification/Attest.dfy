/** `pkg/attest`: the envelope a producer signs and the log stores verbatim. */
module Attest {
  import opened Encoding
  import opened Hashing
  import opened Crypto
  import opened Fields
  import opened Options

  datatype Envelope = Envelope(
    producerId: Bytes, timeNanos: I64, source: Bytes, data: Bytes, publicKey: Bytes, attestationType: Bytes,
    evidenceHash: Bytes, evidence: Bytes, signature: Signature, quantumPublicKey: Bytes, quantumSignature: Signature)

  /** The signed fields, in encoding order. */
  function EnvelopeFields(e: Envelope): seq<Field>
  {
    [ Blob(e.producerId), Word64(TwosComplement(e.timeNanos)), Blob(e.source), Blob(e.data), Blob(e.publicKey),
      Blob(e.attestationType), Blob(e.evidenceHash), Blob(e.quantumPublicKey) ]
  }

  function Canonical(e: Envelope): Bytes { Encode(EnvelopeFields(e)) }

  /** `Envelope.Canonical` as the code writes it: one append after another. */
  method WriteEnvelope(e: Envelope) returns (buf: Bytes)
    ensures buf == Canonical(e)
  {
    hide Encode, U64Bytes, Put;
    ghost var fs := EnvelopeFields(e);
    forall k | 0 <= k < |fs|
      ensures Encode(fs[..k + 1]) == Encode(fs[..k]) + EncodeField(fs[k])
    {
      EncodeNext(fs, k);
    }
    NothingEncoded();
    assert fs[..0] == [] && fs[..8] == fs;
    buf := [];
    buf := buf + Put(e.producerId);
    assert buf == Encode(fs[..0 + 1]);
    buf := buf + I64Bytes(e.timeNanos);
    assert buf == Encode(fs[..1 + 1]);
    buf := buf + Put(e.source);
    assert buf == Encode(fs[..2 + 1]);
    buf := buf + Put(e.data);
    assert buf == Encode(fs[..3 + 1]);
    buf := buf + Put(e.publicKey);
    assert buf == Encode(fs[..4 + 1]);
    buf := buf + Put(e.attestationType);
    assert buf == Encode(fs[..5 + 1]);
    buf := buf + Put(e.evidenceHash);
    assert buf == Encode(fs[..6 + 1]);
    buf := buf + Put(e.quantumPublicKey);
    assert buf == Encode(fs[..7 + 1]);
  }

  ghost predicate Fitting(e: Envelope) { AllFit(EnvelopeFields(e)) }

  /** The two envelopes agree on everything `Canonical` covers. */
  predicate SameSigned(e: Envelope, f: Envelope)
  {
    && e.producerId == f.producerId && e.timeNanos == f.timeNanos && e.source == f.source && e.data == f.data
    && e.publicKey == f.publicKey && e.attestationType == f.attestationType
    && e.evidenceHash == f.evidenceHash && e.quantumPublicKey == f.quantumPublicKey
  }

  /** The signed bytes determine every signed field. */
  lemma CanonicalInjective(e: Envelope, f: Envelope)
    requires Fitting(e) && Fitting(f)
    ensures Canonical(e) == Canonical(f) <==> SameSigned(e, f)
  {
    hide Encode;
    var a, b := EnvelopeFields(e), EnvelopeFields(f);
    if Canonical(e) == Canonical(f) {
      Injective(a, b);
      assert a[0] == b[0] && a[1] == b[1] && a[2] == b[2] && a[3] == b[3];
      assert a[4] == b[4] && a[5] == b[5] && a[6] == b[6] && a[7] == b[7];
    }
  }

  function ENVELOPE_SHAPE(): seq<Field>
  {
    var blob := Blob([]);
    [blob, Word64(0), blob, blob, blob, blob, blob, blob]
  }

  /** Reads the signed fields: ID, time, source, data, key, type, evidence hash and quantum key, in this
      order. */
  function ReadEnvelope(b: Bytes): Option<Envelope>
  {
    match ReadFields(ENVELOPE_SHAPE(), b)
    case None => None
    case Some((fs, rest)) =>
      var shape := ENVELOPE_SHAPE();
      assert Alike(shape[0], fs[0]) && Alike(shape[1], fs[1]) && Alike(shape[2], fs[2]) && Alike(shape[3], fs[3]);
      assert Alike(shape[4], fs[4]) && Alike(shape[5], fs[5]) && Alike(shape[6], fs[6]) && Alike(shape[7], fs[7]);
      if rest != [] then None
      else Some(Envelope(fs[0].bytes, FromTwosComplement(fs[1].u), fs[2].bytes, fs[3].bytes, fs[4].bytes, fs[5].bytes,
                         fs[6].bytes, [], NoSignature, fs[7].bytes, NoSignature))
  }

  /** Everything signed can be read from the signed bytes. */
  lemma EnvelopeReadBack(e: Envelope)
    requires Fitting(e)
    ensures ReadEnvelope(Canonical(e))
         == Some(e.(evidence := [], signature := NoSignature, quantumSignature := NoSignature))
  {
    hide Encode, ReadFields;
    var fs := EnvelopeFields(e);
    ReadBack(ENVELOPE_SHAPE(), fs, []);
    assert Encode(fs) + [] == Encode(fs);
    TwosComplementReadBack(e.timeNanos);
  }

  /** `Envelope.Hash`. */
  function EnvelopeHash(sha: Hasher, e: Envelope): Digest { sha(Canonical(e)) }

  /** `Envelope.Verify`. */
  predicate Verifies(sha: Hasher, e: Envelope)
  {
    && |e.publicKey| == PUBLIC_KEY_SIZE
    && e.signature.Length() == SIGNATURE_SIZE
    && (e.evidence != [] ==> sha(e.evidence) == e.evidenceHash)
    && EdVerify(e.publicKey, Canonical(e), e.signature)
    && (e.quantumPublicKey != [] || e.quantumSignature.Length() > 0 ==>
          && |e.quantumPublicKey| == QUANTUM_PUBLIC_KEY_SIZE
          && e.quantumSignature.Length() == QUANTUM_SIGNATURE_SIZE
          && QuantumVerify(e.quantumPublicKey, Canonical(e), e.quantumSignature))
  }

  /** A verified envelope was signed by its own keys, in both halves if it names a quantum key. */
  lemma VerifiedIsSigned(sha: Hasher, e: Envelope)
    requires Verifies(sha, e)
    ensures |e.publicKey| == PUBLIC_KEY_SIZE && e.signature == Signed(Ed25519, e.publicKey, Canonical(e))
    ensures if e.quantumPublicKey == [] then e.quantumSignature.Length() == 0
            else |e.quantumPublicKey| == QUANTUM_PUBLIC_KEY_SIZE
                 && e.quantumSignature == Signed(Dilithium3, e.quantumPublicKey, Canonical(e))
    ensures e.evidence == [] || e.evidenceHash == sha(e.evidence)
  {
    hide Canonical;
  }

  /** A signature vouches for exactly one envelope: the signed fields, the quantum half and, wherever it
      comes along, the evidence. */
  lemma SignatureBindsFields(sha: Hasher, e: Envelope, f: Envelope)
    requires Fitting(e) && Fitting(f)
    requires Verifies(sha, e) && Verifies(sha, f) && e.signature == f.signature
    ensures SameSigned(e, f)
    ensures e.quantumPublicKey != [] ==> e.quantumSignature == f.quantumSignature
    ensures e.evidence != [] && f.evidence != [] && CollisionFree(sha, {e.evidence, f.evidence}) ==>
              e.evidence == f.evidence
  {
    hide Canonical, Verifies;
    VerifiedIsSigned(sha, e);
    VerifiedIsSigned(sha, f);
    CanonicalInjective(e, f);
  }

  function EVIDENCE(): Bytes { Text("{\"attestor\":\"software\"}") }

  /** `SoftwareAttestor.Sign`: what a producer with these keys sends. */
  method SoftwareSign(sha: Hasher, id: Bytes, key: Bytes, quantumKey: Bytes, source: Bytes, data: Bytes, now: I64)
    returns (e: Envelope)
    requires |key| == PUBLIC_KEY_SIZE && (quantumKey == [] || |quantumKey| == QUANTUM_PUBLIC_KEY_SIZE)
    ensures Verifies(sha, e) && e.producerId == id && e.source == source && e.data == data && e.timeNanos == now
    ensures e.publicKey == key && e.quantumPublicKey == quantumKey && e.attestationType == Text("software")
    ensures e.evidence == Text("{\"attestor\":\"software\"}")
  {
    hide Canonical;
    e := Envelope(id, now, source, data, key, Text("software"), sha(EVIDENCE()), EVIDENCE(), NoSignature, quantumKey,
                  NoSignature);
    var canon := Canonical(e);
    SignaturesNotSigned(e, Signed(Ed25519, key, canon), Signed(Dilithium3, quantumKey, canon));
    SignaturesNotSigned(e, Signed(Ed25519, key, canon), NoSignature);
    e := e.(signature := Signed(Ed25519, key, canon));
    if quantumKey != [] {
      e := e.(quantumSignature := Signed(Dilithium3, quantumKey, canon));
    }
  }

  lemma SignaturesNotSigned(e: Envelope, sig: Signature, quantumSig: Signature)
    ensures Canonical(e.(signature := sig, quantumSignature := quantumSig)) == Canonical(e)
  {
    assert EnvelopeFields(e.(signature := sig, quantumSignature := quantumSig)) == EnvelopeFields(e);
  }
}
