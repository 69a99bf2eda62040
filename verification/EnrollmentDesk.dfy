/** `BeginEnrollment`, `ConfirmEnrollment` and `IssueEnrollment` as the log runs them, one call at a
    time. The interleaved ceremony is the state machine beside it. */
module EnrollmentDesk {
  import opened Encoding
  import opened Crypto
  import opened Options
  import opened KeyChain
  import opened Producers
  import opened Enrollment
  import Fwdsec
  import Storage

  datatype Request = Request(id: Bytes, publicKey: Bytes, quantumPublicKey: Bytes, attestationType: Bytes, scope: Bytes)

  /** The record a request and the active epoch make. */
  function RecordFor(req: Request, now: I64, expiresAt: I64, epoch: U64, nonce: Bytes): Producer
  {
    Producer(req.id, req.publicKey, req.quantumPublicKey, req.attestationType, req.scope, now, expiresAt, epoch,
             NoSignature, [], NoSignature, false, nonce, NoSignature, NoSignature)
  }

  class Desk {
    const signer: Fwdsec.Signer
    const store: Storage.Store
    var pending: map<Bytes, Pending>

    constructor (signer: Fwdsec.Signer, store: Storage.Store)
      requires signer.Valid()
      ensures Valid() && this.signer == signer && this.store == store && pending == map[]
    {
      this.signer, this.store, pending := signer, store, map[];
    }

    /** Pending records are unsigned and carry a nonce. */
    ghost predicate Valid()
      reads this, signer, signer.disk, signer.active
    {
      signer.Valid() && forall c :: c in pending ==> Blank(pending[c].record)
    }

    /** `BeginEnrollment`: nothing is stored, and the bytes to sign fix the terms and the nonce. */
    method BeginEnrollment(req: Request, now: I64, expiresAt: I64, challenge: Bytes, nonce: Bytes, deadline: I64)
      returns (r: Option<Bytes>)
      requires Valid() && |nonce| == 32
      modifies this
      ensures Valid()
      ensures r.Some? <==> req.id != [] && req.publicKey != []
      ensures r.None? ==> pending == old(pending)
      ensures r.Some? ==> var record := RecordFor(req, now, expiresAt, |signer.chain.certs| - 1, nonce);
                          && pending == old(pending)[challenge := Pending(record, deadline)]
                          && r.value == ChallengeBytes(record) && record.challengeNonce == nonce
                          && record.id == req.id && record.publicKey == req.publicKey
                          && record.quantumPublicKey == req.quantumPublicKey && record.scope == req.scope
                          && record.attestationType == req.attestationType && record.issuedAt == now
                          && record.expiresAt == expiresAt && record.operatorEpoch == |signer.chain.certs| - 1
    {
      hide KeyChain.OwnCert, KeyChain.LinksTo, KeyChain.GenesisOf, ChallengeBytes, Fwdsec.AllRecoverable;
      if req.id == [] || req.publicKey == [] {
        return None;
      }
      var certs := signer.chain.certs;
      var record := RecordFor(req, now, expiresAt, certs[|certs| - 1].epoch, nonce);
      pending := pending[challenge := Pending(record, deadline)];
      return Some(ChallengeBytes(record));
    }

    /** `ConfirmEnrollment`: the challenge is used up whatever happens, and what is stored carries the
        producer's consent and the operator's signature, both valid. */
    method ConfirmEnrollment(challenge: Bytes, classicalSig: Signature, quantumSig: Signature, now: I64, works: bool)
      returns (r: Option<Producer>)
      requires Valid()
      modifies this, store`producers
      ensures Valid() && pending == old(pending) - {challenge}
      ensures r.None? ==> store.producers == old(store.producers)
      ensures r.Some? ==>
                && challenge in old(pending) && SameTerms(r.value, old(pending)[challenge].record)
                && Enrolled(r.value, signer.chain.certs)
                && store.producers == old(store.producers)[r.value.id := r.value]
                && var p := WithConsent(old(pending)[challenge].record, classicalSig, quantumSig);
                   r.value == Completed(signer.hybrid, p, signer.LastCert())
      ensures r.Some? ==>
                && r.value.challengeSignature == Signed(Ed25519, r.value.publicKey, ChallengeBytes(r.value))
                && r.value.signature == Signed(Ed25519, signer.LastCert().publicKey, CanonicalEnrollment(r.value))
      ensures r.Some? ==> r.value.challengeSignature == classicalSig
      ensures challenge in old(pending) ==>
                var p := old(pending)[challenge].record;
                r.Some? <==> && now <= old(pending)[challenge].expiresAt && signer.active.alive
                             && p.operatorEpoch == |signer.chain.certs| - 1 && works && p.id != []
                             && |p.publicKey| == PUBLIC_KEY_SIZE
                             && classicalSig == Signed(Ed25519, p.publicKey, ChallengeBytes(p))
                             && (p.quantumPublicKey == []
                                 || (|p.quantumPublicKey| == QUANTUM_PUBLIC_KEY_SIZE
                                     && quantumSig == Signed(Dilithium3, p.quantumPublicKey, ChallengeBytes(p))))
    {
      hide KeyChain.OwnCert, KeyChain.LinksTo, KeyChain.GenesisOf, Fwdsec.AllRecoverable, CanonicalEnrollment,
        ChallengeBytes;
      if challenge !in pending {
        pending := pending - {challenge};
        return None;
      }
      var entry := pending[challenge];
      pending := pending - {challenge};
      if now > entry.expiresAt {
        return None;
      }
      ConsentedIff(entry.record, classicalSig, quantumSig);
      if |entry.record.quantumPublicKey| > 0 && quantumSig.Length() == 0 {
        return None;
      }
      var record := WithConsent(entry.record, classicalSig, quantumSig);
      if !VerifyConsent(record) {
        return None;
      }
      r := Countersign(record, works);
    }

    /** The operator's signature under the active epoch, and its quantum signature when operator and
        producer are both hybrid. */
    method OperatorSign(record: Producer) returns (r: Option<Producer>)
      requires Valid() && record.quantumSignature == NoSignature && record.quantumOperatorKey == []
      ensures r.Some? <==> signer.active.alive && record.operatorEpoch == |signer.chain.certs| - 1
      ensures r.Some? ==> r.value == Completed(signer.hybrid, record, signer.LastCert())
                          && Vouched(r.value, signer.chain.certs) && SameTerms(r.value, record)
                          && r.value.signature
                             == Signed(Ed25519, signer.LastCert().publicKey, CanonicalEnrollment(r.value))
                          && (VerifyConsent(r.value) <==> VerifyConsent(record))
    {
      hide KeyChain.OwnCert, KeyChain.LinksTo, KeyChain.GenesisOf, Fwdsec.AllRecoverable, CanonicalEnrollment, Vouched,
        ChallengeBytes, PublicKeyAt, QuantumPublicKeyAt, VerifyConsent;
      var certs := signer.chain.certs;
      var last := certs[|certs| - 1];
      assert KeyChain.OwnCert(last, signer.hybrid);
      HybridHasQuantum(last, signer.hybrid);
      NumberedKey(certs, |certs| - 1);
      var canon := CanonicalEnrollment(record);
      var signed := signer.Sign(canon);
      if signed.None? || signed.value.0 != record.operatorEpoch {
        return None;
      }
      CompletedVouched(record, certs, signer.hybrid);
      SameCanonical(record, SignedBy(record, last.publicKey));
      var complete := record.(signature := signed.value.1);
      if |signer.active.quantumPublicKey| > 0 && |record.quantumPublicKey| > 0 {
        var quantum := signer.QuantumSign(canon);
        if quantum.None? {
          return None;
        }
        var published := OrNothing(QuantumPublicKeyAt(certs, record.operatorEpoch));
        complete := complete.(quantumOperatorKey := published, quantumSignature := quantum.value);
      }
      SameCanonical(record, complete);
      return Some(complete);
    }

    /** The operator's half of a confirmation: sign under the active epoch, persist. */
    method Countersign(record: Producer, works: bool) returns (r: Option<Producer>)
      requires Valid() && Blank(record) && VerifyConsent(record)
      modifies store`producers
      ensures Valid()
      ensures r.Some? <==> signer.active.alive && record.operatorEpoch == |signer.chain.certs| - 1
                           && works && record.id != []
      ensures r.None? ==> store.producers == old(store.producers)
      ensures r.Some? ==> SameTerms(r.value, record) && Enrolled(r.value, signer.chain.certs)
                          && r.value == Completed(signer.hybrid, record, signer.LastCert())
                          && store.producers == old(store.producers)[r.value.id := r.value]
    {
      hide KeyChain.Linked, Fwdsec.AllRecoverable, CanonicalEnrollment, Vouched, ChallengeBytes;
      var complete := OperatorSign(record);
      if complete.None? {
        return None;
      }
      var stored := store.RegisterProducer(complete.value, works);
      r := if stored then complete else None;
    }

    /** `IssueEnrollment`: the operator vouches alone. The stored record is a valid enrollment and claims
        no consent. */
    method IssueEnrollment(req: Request, now: I64, expiresAt: I64, works: bool) returns (r: Option<Producer>)
      requires Valid()
      modifies store`producers
      ensures Valid() && pending == old(pending)
      ensures r.Some? <==> req.id != [] && |req.publicKey| == PUBLIC_KEY_SIZE && signer.active.alive && works
      ensures r.None? ==> store.producers == old(store.producers)
      ensures r.Some? ==>
                && SameTerms(r.value, RecordFor(req, now, expiresAt, |signer.chain.certs| - 1, []))
                && Vouched(r.value, signer.chain.certs) && r.value.issuedAt == now && r.value.expiresAt == expiresAt
                && r.value.signature == Signed(Ed25519, signer.LastCert().publicKey, CanonicalEnrollment(r.value))
                && !VerifyConsent(r.value) && store.producers == old(store.producers)[r.value.id := r.value]
    {
      hide KeyChain.OwnCert, KeyChain.LinksTo, KeyChain.GenesisOf, Fwdsec.AllRecoverable, CanonicalEnrollment,
        ChallengeBytes, PublicKeyAt, Vouched;
      if req.id == [] || req.publicKey == [] {
        return None;
      }
      var certs := signer.chain.certs;
      var record := RecordFor(req, now, expiresAt, certs[|certs| - 1].epoch, []);
      var complete := OperatorSign(record);
      if complete.None? {
        return None;
      }
      var stored := store.RegisterProducer(complete.value, works);
      r := if stored then complete else None;
    }
  }
}
