/** `pkg/storage/producers.go`: the enrollment terms an operator signs and the challenge a producer
    signs to consent to them. */
module Producers {
  import opened Encoding
  import opened Crypto
  import opened Fields
  import opened Options

  datatype Producer = Producer(
    id: Bytes, publicKey: Bytes, quantumPublicKey: Bytes, attestationType: Bytes, scope: Bytes,
    issuedAt: I64, expiresAt: I64, operatorEpoch: U64, signature: Signature,
    quantumOperatorKey: Bytes, quantumSignature: Signature, revoked: bool,
    challengeNonce: Bytes, challengeSignature: Signature, quantumChallengeSignature: Signature)

  function ENROLLMENT(): Bytes { Text("stele-enrollment/v0\n") }

  function CHALLENGE(): Bytes { Text("stele-enroll-challenge/v0\n") }

  /** The signed terms, in encoding order. */
  function TermFields(p: Producer): seq<Field>
  {
    [ Mark(ENROLLMENT()), Blob(p.id), Blob(p.publicKey), Blob(p.quantumPublicKey), Blob(p.scope),
      Blob(p.attestationType), Word64(TwosComplement(p.issuedAt)), Word64(TwosComplement(p.expiresAt)),
      Word64(p.operatorEpoch) ]
  }

  function CanonicalEnrollment(p: Producer): Bytes { Encode(TermFields(p)) }

  /** `CanonicalEnrollment` as written, one append after another. */
  method WriteEnrollment(p: Producer) returns (buf: Bytes)
    ensures buf == CanonicalEnrollment(p)
  {
    hide Encode, U64Bytes, Put, ENROLLMENT;
    ghost var fs := TermFields(p);
    forall k | 0 <= k < |fs|
      ensures Encode(fs[..k + 1]) == Encode(fs[..k]) + EncodeField(fs[k])
    {
      EncodeNext(fs, k);
    }
    NothingEncoded();
    assert fs[..0] == [] && fs[..9] == fs;
    buf := [];
    buf := buf + ENROLLMENT();
    assert buf == Encode(fs[..0 + 1]);
    buf := buf + Put(p.id);
    assert buf == Encode(fs[..1 + 1]);
    buf := buf + Put(p.publicKey);
    assert buf == Encode(fs[..2 + 1]);
    buf := buf + Put(p.quantumPublicKey);
    assert buf == Encode(fs[..3 + 1]);
    buf := buf + Put(p.scope);
    assert buf == Encode(fs[..4 + 1]);
    buf := buf + Put(p.attestationType);
    assert buf == Encode(fs[..5 + 1]);
    buf := buf + I64Bytes(p.issuedAt);
    assert buf == Encode(fs[..6 + 1]);
    buf := buf + I64Bytes(p.expiresAt);
    assert buf == Encode(fs[..7 + 1]);
    buf := buf + U64Bytes(p.operatorEpoch);
    assert buf == Encode(fs[..8 + 1]);
  }

  /** `ChallengeBytes`; without a nonce there is no challenge. */
  function ChallengeBytes(p: Producer): Bytes
  {
    if p.challengeNonce == [] then [] else CHALLENGE() + CanonicalEnrollment(p) + p.challengeNonce
  }

  ghost predicate Fitting(p: Producer) { AllFit(TermFields(p)) }

  predicate SameTerms(p: Producer, q: Producer)
  {
    && p.id == q.id && p.publicKey == q.publicKey && p.quantumPublicKey == q.quantumPublicKey
    && p.scope == q.scope && p.attestationType == q.attestationType && p.issuedAt == q.issuedAt
    && p.expiresAt == q.expiresAt && p.operatorEpoch == q.operatorEpoch
  }

  lemma TermFieldsEqual(p: Producer, q: Producer)
    ensures TermFields(p) == TermFields(q) <==> SameTerms(p, q)
  {
    hide ENROLLMENT;
    var a, b := TermFields(p), TermFields(q);
    if a == b {
      assert a[1] == b[1] && a[2] == b[2] && a[3] == b[3] && a[4] == b[4];
      assert a[5] == b[5] && a[6] == b[6] && a[7] == b[7] && a[8] == b[8];
    }
  }

  /** The enrollment bytes delimit themselves: whatever follows, the terms and the rest are fixed. */
  lemma EnrollmentSelfDelimiting(p: Producer, q: Producer, x: Bytes, y: Bytes)
    requires Fitting(p) && Fitting(q)
    ensures CanonicalEnrollment(p) + x == CanonicalEnrollment(q) + y <==> SameTerms(p, q) && x == y
  {
    hide Encode, ENROLLMENT;
    TermFieldsEqual(p, q);
    if CanonicalEnrollment(p) + x == CanonicalEnrollment(q) + y {
      SelfDelimiting(TermFields(p), TermFields(q), x, y);
    }
  }

  lemma EnrollmentInjective(p: Producer, q: Producer)
    requires Fitting(p) && Fitting(q)
    ensures CanonicalEnrollment(p) == CanonicalEnrollment(q) <==> SameTerms(p, q)
  {
    hide CanonicalEnrollment;
    assert CanonicalEnrollment(p) + [] == CanonicalEnrollment(p);
    assert CanonicalEnrollment(q) + [] == CanonicalEnrollment(q);
    EnrollmentSelfDelimiting(p, q, [], []);
  }

  /** A challenge determines the terms and the nonce it was issued for, unless there is no nonce: then all
      challenges are the empty message. */
  lemma ChallengesEqualIff(p: Producer, q: Producer)
    requires Fitting(p) && Fitting(q)
    ensures ChallengeBytes(p) == ChallengeBytes(q) <==>
            || (p.challengeNonce == [] && q.challengeNonce == [])
            || (SameTerms(p, q) && p.challengeNonce == q.challengeNonce)
  {
    hide CanonicalEnrollment, CHALLENGE;
    var x, y := CanonicalEnrollment(p) + p.challengeNonce, CanonicalEnrollment(q) + q.challengeNonce;
    assert p.challengeNonce != [] ==> ChallengeBytes(p) == CHALLENGE() + x && |CHALLENGE() + x| > 0;
    assert q.challengeNonce != [] ==> ChallengeBytes(q) == CHALLENGE() + y && |CHALLENGE() + y| > 0;
    EnrollmentSelfDelimiting(p, q, p.challengeNonce, q.challengeNonce);
    if p.challengeNonce != [] && q.challengeNonce != [] && ChallengeBytes(p) == ChallengeBytes(q) {
      CancelPrefix(CHALLENGE(), x, y);
    }
  }

  /** What a producer signs to consent is never what an operator signs to enroll. */
  lemma ChallengeIsNotEnrollment(p: Producer, q: Producer)
    ensures ChallengeBytes(p) != CanonicalEnrollment(q)
  {
    hide Encode;
    EnrollmentStart(q);
    assert ENROLLMENT()[12] == 'm' as int;
    assert CHALLENGE()[12] == '-' as int;
    if p.challengeNonce != [] {
      assert ChallengeBytes(p)[12] == CHALLENGE()[12];
    }
  }

  lemma EnrollmentStart(p: Producer)
    ensures |CanonicalEnrollment(p)| >= |ENROLLMENT()| && CanonicalEnrollment(p)[..|ENROLLMENT()|] == ENROLLMENT()
  {
    hide ENROLLMENT;
    var fs := TermFields(p);
    assert Encode(fs) == EncodeField(fs[0]) + Encode(fs[1..]);
  }

  function TERMS_SHAPE(): seq<Field>
  {
    var blob, word := Blob([]), Word64(0);
    [Mark(Text("stele-enrollment/v0\n")), blob, blob, blob, blob, blob, word, word, word]
  }

  /** A record that holds nothing but terms. */
  function Terms(id: Bytes, key: Bytes, quantumKey: Bytes, scope: Bytes, kind: Bytes, issuedAt: I64, expiresAt: I64,
                 epoch: U64): Producer
  {
    Producer(id, key, quantumKey, kind, scope, issuedAt, expiresAt, epoch, NoSignature, [], NoSignature, false, [],
             NoSignature, NoSignature)
  }

  /** Reads the terms: ID, key, quantum key, scope, type, times of issue and expiry and epoch, in this order,
      and what follows them. */
  function ReadTerms(b: Bytes): Option<(Producer, Bytes)>
  {
    match ReadFields(TERMS_SHAPE(), b)
    case None => None
    case Some((fs, rest)) =>
      var shape := TERMS_SHAPE();
      assert Alike(shape[1], fs[1]) && Alike(shape[2], fs[2]) && Alike(shape[3], fs[3]) && Alike(shape[4], fs[4]);
      assert Alike(shape[5], fs[5]) && Alike(shape[6], fs[6]) && Alike(shape[7], fs[7]) && Alike(shape[8], fs[8]);
      Some((Terms(fs[1].bytes, fs[2].bytes, fs[3].bytes, fs[4].bytes, fs[5].bytes, FromTwosComplement(fs[6].u),
                  FromTwosComplement(fs[7].u), fs[8].u), rest))
  }

  /** The terms can be read from what an operator signs, and from what a producer signs, with the nonce. */
  lemma TermsReadBack(p: Producer)
    requires Fitting(p)
    ensures var terms := Terms(p.id, p.publicKey, p.quantumPublicKey, p.scope, p.attestationType, p.issuedAt,
                               p.expiresAt, p.operatorEpoch);
            && ReadTerms(CanonicalEnrollment(p)) == Some((terms, []))
            && (p.challengeNonce != [] ==>
                  var mark := Text("stele-enroll-challenge/v0\n");
                  && mark <= ChallengeBytes(p)
                  && ReadTerms(ChallengeBytes(p)[|mark|..]) == Some((terms, p.challengeNonce)))
  {
    hide Encode, ReadFields, Text;
    var fs := TermFields(p);
    ReadBack(TERMS_SHAPE(), fs, []);
    ReadBack(TERMS_SHAPE(), fs, p.challengeNonce);
    assert Encode(fs) + [] == Encode(fs);
    TwosComplementReadBack(p.issuedAt);
    TwosComplementReadBack(p.expiresAt);
    if p.challengeNonce != [] {
      var mark := Text("stele-enroll-challenge/v0\n");
      assert ChallengeBytes(p) == mark + (Encode(fs) + p.challengeNonce);
      assert ChallengeBytes(p)[|mark|..] == Encode(fs) + p.challengeNonce;
    }
  }

  // ---- Verification ----

  /** `VerifyConsent`. */
  predicate VerifyConsent(p: Producer)
  {
    && p.challengeSignature.Length() > 0
    && |p.publicKey| == PUBLIC_KEY_SIZE
    && p.challengeSignature.Length() == SIGNATURE_SIZE
    && EdVerify(p.publicKey, ChallengeBytes(p), p.challengeSignature)
    && (p.quantumPublicKey != [] ==>
          && p.quantumChallengeSignature.Length() == QUANTUM_SIGNATURE_SIZE
          && QuantumVerify(p.quantumPublicKey, ChallengeBytes(p), p.quantumChallengeSignature))
  }

  /** `VerifyEnrollment`, given the operator chain's public keys by epoch. */
  predicate VerifyEnrollment(p: Producer, chainKey: U64 -> Option<Bytes>, quantumChainKey: U64 -> Option<Bytes>)
  {
    && p.signature.Length() > 0
    && p.signature.Length() == SIGNATURE_SIZE
    && chainKey(p.operatorEpoch).Some?
    && EdVerify(chainKey(p.operatorEpoch).value, CanonicalEnrollment(p), p.signature)
    && (p.quantumSignature.Length() > 0 || p.quantumOperatorKey != [] ==>
          && p.quantumSignature.Length() == QUANTUM_SIGNATURE_SIZE
          && |p.quantumOperatorKey| == QUANTUM_PUBLIC_KEY_SIZE
          && quantumChainKey(p.operatorEpoch) == Some(p.quantumOperatorKey)
          && QuantumVerify(p.quantumOperatorKey, CanonicalEnrollment(p), p.quantumSignature))
  }

  /** A producer signature that passes as consent for two records was given for the same terms and
      nonce, unless neither record has a nonce. */
  lemma ConsentIsNotReusable(p: Producer, q: Producer)
    requires Fitting(p) && Fitting(q) && (p.challengeNonce != [] || q.challengeNonce != [])
    requires VerifyConsent(p) && VerifyConsent(q) && p.challengeSignature == q.challengeSignature
    ensures SameTerms(p, q) && p.challengeNonce == q.challengeNonce
    ensures p.quantumPublicKey != [] ==> p.quantumChallengeSignature == q.quantumChallengeSignature
  {
    hide ChallengeBytes;
    ChallengesEqualIff(p, q);
  }

  /** `SignChallenge` by the holder of the keys in the record. */
  function Consenting(p: Producer): Producer
  {
    p.(challengeSignature := Signed(Ed25519, p.publicKey, ChallengeBytes(p)),
       quantumChallengeSignature := if p.quantumPublicKey == [] then NoSignature
                                    else Signed(Dilithium3, p.quantumPublicKey, ChallengeBytes(p)))
  }

  /** Of all the answers to a challenge exactly the one under the record's own keys is consent; a record
      without a quantum key leaves the quantum half open. */
  lemma ConsentIff(p: Producer)
    requires |p.publicKey| == PUBLIC_KEY_SIZE
    requires p.quantumPublicKey == [] || |p.quantumPublicKey| == QUANTUM_PUBLIC_KEY_SIZE
    ensures VerifyConsent(p) <==>
              && p.challengeSignature == Consenting(p).challengeSignature
              && (p.quantumPublicKey != [] ==> p.quantumChallengeSignature == Consenting(p).quantumChallengeSignature)
    ensures VerifyConsent(Consenting(p))
  {
    hide ChallengeBytes;
    ConsentNotInChallenge(p, Consenting(p));
  }

  lemma ConsentNotInChallenge(p: Producer, q: Producer)
    requires q == p.(challengeSignature := q.challengeSignature,
                     quantumChallengeSignature := q.quantumChallengeSignature)
    ensures ChallengeBytes(q) == ChallengeBytes(p)
  {
    hide Encode, ENROLLMENT;
    assert TermFields(q) == TermFields(p);
  }

  /** A valid enrollment was signed by the operator's keys of its epoch, in both halves if it names a
      quantum key, and its signature fits no other terms. */
  lemma EnrollmentIsSigned(p: Producer, chainKey: U64 -> Option<Bytes>, quantumChainKey: U64 -> Option<Bytes>)
    requires VerifyEnrollment(p, chainKey, quantumChainKey)
    ensures chainKey(p.operatorEpoch).Some?
    ensures p.signature == Signed(Ed25519, chainKey(p.operatorEpoch).value, CanonicalEnrollment(p))
    ensures if p.quantumOperatorKey == [] then p.quantumSignature.Length() == 0
            else |p.quantumOperatorKey| == QUANTUM_PUBLIC_KEY_SIZE
                 && quantumChainKey(p.operatorEpoch) == Some(p.quantumOperatorKey)
                 && p.quantumSignature == Signed(Dilithium3, p.quantumOperatorKey, CanonicalEnrollment(p))
  {
    hide CanonicalEnrollment;
  }

  lemma EnrollmentIsNotTransferable(p: Producer, q: Producer, chainKey: U64 -> Option<Bytes>,
                                    quantumChainKey: U64 -> Option<Bytes>)
    requires Fitting(p) && Fitting(q) && p.signature == q.signature
    requires VerifyEnrollment(p, chainKey, quantumChainKey) && VerifyEnrollment(q, chainKey, quantumChainKey)
    ensures SameTerms(p, q)
    ensures p.quantumOperatorKey != [] && q.quantumOperatorKey != [] ==>
              p.quantumOperatorKey == q.quantumOperatorKey && p.quantumSignature == q.quantumSignature
  {
    hide VerifyEnrollment, CanonicalEnrollment;
    EnrollmentIsSigned(p, chainKey, quantumChainKey);
    EnrollmentIsSigned(q, chainKey, quantumChainKey);
    EnrollmentInjective(p, q);
  }

  /** Without nonces consent is for nothing in particular: a classical record's consent passes for any
      terms under the same key. */
  lemma ConsentWithoutNonce(p: Producer, q: Producer)
    requires VerifyConsent(p) && p.challengeNonce == [] == q.challengeNonce
    requires q.publicKey == p.publicKey && q.challengeSignature == p.challengeSignature
    requires q.quantumPublicKey == [] || (q.quantumPublicKey == p.quantumPublicKey
                                          && q.quantumChallengeSignature == p.quantumChallengeSignature)
    ensures VerifyConsent(q) && p.challengeSignature == Signed(Ed25519, p.publicKey, [])
  {
    hide CanonicalEnrollment;
  }

  /** For instance: one signature of the empty message is consent to any scope and any expiry. */
  lemma EmptyChallengeExample(p: Producer, scope: Bytes, expiresAt: I64)
    requires |p.publicKey| == PUBLIC_KEY_SIZE && p.quantumPublicKey == [] && p.challengeNonce == []
    ensures var q := p.(challengeSignature := Signed(Ed25519, p.publicKey, []));
            VerifyConsent(q) && VerifyConsent(q.(scope := scope, expiresAt := expiresAt))
  {
    hide CanonicalEnrollment;
  }
}
