/** The two-step enrollment ceremony of `pkg/core`, cut at its locks: a challenge is issued, taken,
    consented to, countersigned by the operator's epoch key - in two separate calls when it is hybrid - and
    persisted, while other ceremonies and key rotations go on in between. */
module Enrollment {
  import opened Encoding
  import opened Crypto
  import opened Options
  import opened KeyChain
  import opened Producers

  /** Where a confirmation stands between its locks. */
  datatype Flight =
    | Taken(challenge: Bytes, record: Producer)
    | Consented(challenge: Bytes, record: Producer)
    | Countersigned(challenge: Bytes, record: Producer)
    | QuantumCountersigned(challenge: Bytes, record: Producer, epoch: nat)

  datatype Pending = Pending(record: Producer, expiresAt: I64)

  /** A persisted record, and the epoch that was active when its quantum half was signed, if it has one. */
  datatype Filed = Filed(record: Producer, quantumEpoch: Option<nat>)

  /** `hybrid`, `certs` and `alive` are the signer's; `issued` are the challenge IDs ever drawn. */
  datatype State = State(hybrid: bool, certs: seq<Cert>, alive: bool, pending: map<Bytes, Pending>,
                         flights: map<nat, Flight>, issued: set<Bytes>, confirmed: seq<Bytes>, persisted: seq<Filed>)

  datatype Event =
    | Begin(challenge: Bytes, record: Producer, expiresAt: I64)
    | Take(flight: nat, challenge: Bytes, now: I64)
    | Consent(flight: nat, signature: Signature, quantumSignature: Signature)
    | Countersign(flight: nat)
    | QuantumCountersign(flight: nat)
    | Persist(flight: nat, works: bool)
    | Rotate(key: Bytes, quantumKey: Bytes, now: I64, written: bool, live: bool)
    | Restart

  /** A record as `BeginEnrollment` builds it: unsigned, with a nonce, naming an epoch that was active
      when the chain was read. */
  predicate Blank(p: Producer)
  {
    && p.signature == NoSignature && p.quantumSignature == NoSignature && p.quantumOperatorKey == []
    && p.challengeNonce != []
  }

  function WithConsent(p: Producer, signature: Signature, quantumSignature: Signature): Producer
  {
    p.(challengeSignature := signature,
       quantumChallengeSignature := if p.quantumPublicKey != [] then quantumSignature else p.quantumChallengeSignature)
  }

  /** The producer consents exactly with its own keys' signatures on the challenge; without a registered
      quantum key the second one is not looked at. */
  lemma ConsentedIff(p: Producer, signature: Signature, quantumSignature: Signature)
    ensures VerifyConsent(WithConsent(p, signature, quantumSignature)) <==>
              && |p.publicKey| == PUBLIC_KEY_SIZE && signature == Signed(Ed25519, p.publicKey, ChallengeBytes(p))
              && (p.quantumPublicKey == []
                  || (|p.quantumPublicKey| == QUANTUM_PUBLIC_KEY_SIZE
                      && quantumSignature == Signed(Dilithium3, p.quantumPublicKey, ChallengeBytes(p))))
  {
    hide ChallengeBytes;
    ConsentNotInChallenge(p, WithConsent(p, signature, quantumSignature));
  }

  /** Whether the operator signs with its quantum key as well. */
  predicate NeedsQuantum(hybrid: bool, p: Producer) { hybrid && p.quantumPublicKey != [] }

  /** The record with the operator's signature. */
  function SignedBy(p: Producer, key: Bytes): Producer { p.(signature := Signed(Ed25519, key, CanonicalEnrollment(p))) }

  /** The record with a quantum signature by `signer`, presented as that of `published`. */
  function QuantumSignedBy(p: Producer, signer: Bytes, published: Bytes): Producer
  {
    p.(quantumOperatorKey := published, quantumSignature := Signed(Dilithium3, signer, CanonicalEnrollment(p)))
  }

  function OrNothing(key: Option<Bytes>): Bytes { if key.None? then [] else key.value }

  /** What has been signed in full, as it is filed. */
  function Ready(hybrid: bool, f: Flight): Option<Filed>
  {
    match f
    case Countersigned(_, p) => if NeedsQuantum(hybrid, p) then None else Some(Filed(p, None))
    case QuantumCountersigned(_, p, epoch) => Some(Filed(p, Some(epoch)))
    case _ => None
  }

  function Drop(s: State, flight: nat): State { s.(flights := s.flights - {flight}) }

  /** The quantum half: the key that is active now signs, and the key published for the record's epoch is
      named. */
  function ActiveSigned(certs: seq<Cert>, p: Producer): Producer
    requires certs != []
  {
    QuantumSignedBy(p, certs[|certs| - 1].quantumPublicKey, OrNothing(QuantumPublicKeyAt(certs, p.operatorEpoch)))
  }

  /** One atomic region of the ceremony, or a rotation or restart in between. */
  ghost function Step(s: State, e: Event): State
  {
    match e
    case Begin(challenge, record, expiresAt) =>
      if record.id == [] || record.publicKey == [] || challenge in s.issued then s
      else if !Blank(record) || record.operatorEpoch >= |s.certs| then s
      else s.(pending := s.pending[challenge := Pending(record, expiresAt)], issued := s.issued + {challenge})
    case Take(flight, challenge, now) =>
      if challenge !in s.pending || flight in s.flights then s
      else
        var rest := s.(pending := s.pending - {challenge});
        if now > s.pending[challenge].expiresAt then rest
        else rest.(flights := s.flights[flight := Taken(challenge, s.pending[challenge].record)])
    case Consent(flight, signature, quantumSignature) =>
      if flight !in s.flights || !s.flights[flight].Taken? then s
      else
        var f := s.flights[flight];
        var p := WithConsent(f.record, signature, quantumSignature);
        if !VerifyConsent(p) then Drop(s, flight) else s.(flights := s.flights[flight := Consented(f.challenge, p)])
    case Countersign(flight) =>
      if flight !in s.flights || !s.flights[flight].Consented? || s.certs == [] then s
      else
        var f, last := s.flights[flight], s.certs[|s.certs| - 1];
        if !s.alive || last.epoch != f.record.operatorEpoch then Drop(s, flight)
        else
          s.(flights := s.flights[flight := Countersigned(f.challenge, SignedBy(f.record, last.publicKey))])
    case QuantumCountersign(flight) =>
      if flight !in s.flights || !s.flights[flight].Countersigned? || s.certs == [] then s
      else if !NeedsQuantum(s.hybrid, s.flights[flight].record) then s
      else if !s.alive then Drop(s, flight)
      else
        var f := s.flights[flight];
        var done := QuantumCountersigned(f.challenge, ActiveSigned(s.certs, f.record), |s.certs| - 1);
        s.(flights := s.flights[flight := done])
    case Persist(flight, works) =>
      if flight !in s.flights || Ready(s.hybrid, s.flights[flight]).None? then s
      else if !works then Drop(s, flight)
      else
        var filed := Ready(s.hybrid, s.flights[flight]).value;
        Drop(s, flight).(confirmed := s.confirmed + [s.flights[flight].challenge], persisted := s.persisted + [filed])
    case Rotate(key, quantumKey, now, written, live) =>
      if !written || !s.alive || s.certs == [] || !KeysOk(key, quantumKey, s.hybrid) || |s.certs| >= TWO_TO_64 then s
      else s.(certs := s.certs + [NextCert(s.certs[|s.certs| - 1], key, quantumKey, now)], alive := live)
    case Restart => s.(pending := map[], flights := map[], alive := true)
  }

  ghost function Run(s: State, events: seq<Event>): State
  {
    if events == [] then s else Step(Run(s, events[..|events| - 1]), events[|events| - 1])
  }

  // ---- At most once ----

  /** An issued challenge is pending, or in one flight, or confirmed once, and never two of these. */
  ghost predicate OncePerChallenge(s: State)
  {
    && (forall c :: c in s.pending ==> c in s.issued && c !in s.confirmed)
    && (forall f :: f in s.flights ==>
                      && s.flights[f].challenge in s.issued && s.flights[f].challenge !in s.pending
                      && s.flights[f].challenge !in s.confirmed)
    && (forall f, g :: f in s.flights && g in s.flights && f != g ==> s.flights[f].challenge != s.flights[g].challenge)
    && (forall i :: 0 <= i < |s.confirmed| ==> s.confirmed[i] in s.issued)
    && (forall i, j :: 0 <= i < j < |s.confirmed| ==> s.confirmed[i] != s.confirmed[j])
  }

  lemma TakeKeepsOnce(s: State, flight: nat, challenge: Bytes, record: Producer)
    requires OncePerChallenge(s) && challenge in s.pending && flight !in s.flights
    ensures var t := s.(pending := s.pending - {challenge});
            OncePerChallenge(t) && OncePerChallenge(t.(flights := s.flights[flight := Taken(challenge, record)]))
  {
  }

  lemma DropKeepsOnce(s: State, flight: nat)
    requires OncePerChallenge(s)
    ensures OncePerChallenge(Drop(s, flight))
  {
  }

  lemma PersistKeepsOnce(s: State, flight: nat, filed: Filed)
    requires OncePerChallenge(s) && flight in s.flights
    ensures var confirmed := s.confirmed + [s.flights[flight].challenge];
            OncePerChallenge(Drop(s, flight).(confirmed := confirmed, persisted := s.persisted + [filed]))
  {
  }

  lemma AdvanceKeepsOnce(s: State, flight: nat, f: Flight)
    requires OncePerChallenge(s) && flight in s.flights && f.challenge == s.flights[flight].challenge
    ensures OncePerChallenge(s.(flights := s.flights[flight := f]))
  {
  }

  lemma BeginKeepsOnce(s: State, challenge: Bytes, pending: Pending)
    requires OncePerChallenge(s) && challenge !in s.issued
    ensures OncePerChallenge(s.(pending := s.pending[challenge := pending], issued := s.issued + {challenge}))
  {
  }

  lemma RestartKeepsOnce(s: State)
    requires OncePerChallenge(s)
    ensures OncePerChallenge(s.(pending := map[], flights := map[], alive := true))
  {
  }

  lemma RotateKeepsOnce(s: State, certs: seq<Cert>, live: bool)
    requires OncePerChallenge(s)
    ensures OncePerChallenge(s.(certs := certs, alive := live))
  {
  }

  lemma StepKeepsOnce(s: State, e: Event)
    requires OncePerChallenge(s)
    ensures OncePerChallenge(Step(s, e))
  {
    hide VerifyConsent, CanonicalEnrollment, NextCert, OncePerChallenge, Drop;
    match e
    case Begin(challenge, record, expiresAt) =>
      if challenge !in s.issued {
        BeginKeepsOnce(s, challenge, Pending(record, expiresAt));
      }
    case Take(flight, challenge, now) =>
      if challenge in s.pending && flight !in s.flights {
        TakeKeepsOnce(s, flight, challenge, s.pending[challenge].record);
      }
    case Consent(flight, signature, quantumSignature) =>
      DropKeepsOnce(s, flight);
      if flight in s.flights {
        var f := s.flights[flight];
        AdvanceKeepsOnce(s, flight, Consented(f.challenge, WithConsent(f.record, signature, quantumSignature)));
      }
    case Countersign(flight) =>
      DropKeepsOnce(s, flight);
      if flight in s.flights && s.certs != [] {
        var f := s.flights[flight];
        AdvanceKeepsOnce(s, flight, Countersigned(f.challenge, SignedBy(f.record, s.certs[|s.certs| - 1].publicKey)));
      }
    case QuantumCountersign(flight) =>
      DropKeepsOnce(s, flight);
      if flight in s.flights && s.certs != [] {
        var f := s.flights[flight];
        AdvanceKeepsOnce(s, flight, QuantumCountersigned(f.challenge, ActiveSigned(s.certs, f.record), |s.certs| - 1));
      }
    case Persist(flight, works) =>
      DropKeepsOnce(s, flight);
      if flight in s.flights && Ready(s.hybrid, s.flights[flight]).Some? {
        PersistKeepsOnce(s, flight, Ready(s.hybrid, s.flights[flight]).value);
      }
    case Rotate(key, quantumKey, now, written, live) =>
      if s.certs != [] {
        RotateKeepsOnce(s, s.certs + [NextCert(s.certs[|s.certs| - 1], key, quantumKey, now)], live);
      }
    case Restart => RestartKeepsOnce(s);
  }

  // ---- What is persisted verifies ----

  /** `VerifyEnrollment` against the published chain. */
  ghost predicate Vouched(p: Producer, certs: seq<Cert>)
  {
    VerifyEnrollment(p, e => PublicKeyAt(certs, e), e => QuantumPublicKeyAt(certs, e))
  }

  ghost predicate Enrolled(p: Producer, certs: seq<Cert>) { VerifyConsent(p) && Vouched(p, certs) }

  /** Both epochs have the same quantum key, as one epoch has with itself. */
  ghost predicate SameQuantumKey(certs: seq<Cert>, d: U64, e: U64)
  {
    QuantumPublicKeyAt(certs, d) == QuantumPublicKeyAt(certs, e)
  }

  /** Consent is valid, and the enrollment is valid exactly if its quantum half, when it has one, was
      signed by the key of the epoch it names. */
  ghost predicate FiledGood(f: Filed, certs: seq<Cert>)
  {
    && VerifyConsent(f.record) && f.record.operatorEpoch < |certs|
    && (f.quantumEpoch.Some? ==> f.quantumEpoch.value < |certs| <= TWO_TO_64)
    && (Vouched(f.record, certs) <==>
          f.quantumEpoch.None? || SameQuantumKey(certs, f.record.operatorEpoch, f.quantumEpoch.value))
  }

  ghost predicate AllEnrolled(s: State)
  {
    && Linked(s.certs, s.hybrid) && |s.certs| <= TWO_TO_64
    && (forall c :: c in s.pending ==> Blank(s.pending[c].record))
    && (forall f :: f in s.flights ==> FlightGood(s.flights[f], s.certs))
    && (forall i :: 0 <= i < |s.persisted| ==> FiledGood(s.persisted[i], s.certs))
  }

  ghost predicate FlightGood(f: Flight, certs: seq<Cert>)
  {
    match f
    case Taken(_, p) => Blank(p)
    case Consented(_, p) => Blank(p) && VerifyConsent(p)
    case Countersigned(_, p) =>
      FiledGood(Filed(p, None), certs) && p.quantumSignature == NoSignature && p.quantumOperatorKey == []
    case QuantumCountersigned(_, p, epoch) => FiledGood(Filed(p, Some(epoch)), certs)
  }

  /** Growing the chain changes no verdict on a record whose epoch is published. */
  lemma VouchedStable(p: Producer, certs: seq<Cert>, more: seq<Cert>)
    requires Numbered(certs) && p.operatorEpoch < |certs|
    ensures Vouched(p, certs + more) <==> Vouched(p, certs)
  {
    hide CanonicalEnrollment;
    NumberedKey(certs, p.operatorEpoch);
    PublishedKeyStable(certs, more, p.operatorEpoch);
  }

  lemma FiledStable(f: Filed, certs: seq<Cert>, more: seq<Cert>)
    requires Numbered(certs) && FiledGood(f, certs) && |certs + more| <= TWO_TO_64
    ensures FiledGood(f, certs + more)
  {
    hide VerifyConsent, CanonicalEnrollment, Vouched, PublicKeyAt, QuantumPublicKeyAt;
    var d := f.record.operatorEpoch;
    VouchedStable(f.record, certs, more);
    NumberedKey(certs, d);
    PublishedKeyStable(certs, more, d);
    if f.quantumEpoch.Some? {
      NumberedKey(certs, f.quantumEpoch.value);
      PublishedKeyStable(certs, more, f.quantumEpoch.value);
    }
  }

  /** Signing with the active epoch's key makes a valid enrollment, when that is the epoch the terms
      name. */
  lemma SignedVerifies(p: Producer, certs: seq<Cert>, hybrid: bool)
    requires p.quantumSignature == NoSignature && p.quantumOperatorKey == []
    requires Linked(certs, hybrid) && certs[|certs| - 1].epoch == p.operatorEpoch
    ensures Vouched(SignedBy(p, certs[|certs| - 1].publicKey), certs) && p.operatorEpoch < |certs|
  {
    hide PublicKeyAt, QuantumPublicKeyAt, CanonicalEnrollment, OwnCert, LinksTo, GenesisOf;
    var n := |certs|;
    NumberedKey(certs, n - 1);
    SameCanonical(p, SignedBy(p, certs[n - 1].publicKey));
  }

  lemma CountersignedGood(p: Producer, certs: seq<Cert>, hybrid: bool)
    requires Blank(p) && VerifyConsent(p) && Linked(certs, hybrid) && certs[|certs| - 1].epoch == p.operatorEpoch
    ensures FiledGood(Filed(SignedBy(p, certs[|certs| - 1].publicKey), None), certs)
  {
    hide PublicKeyAt, QuantumPublicKeyAt, CanonicalEnrollment, ChallengeBytes, OwnCert, LinksTo, GenesisOf, Numbered,
      Vouched;
    var signed := SignedBy(p, certs[|certs| - 1].publicKey);
    SameCanonical(p, signed);
    SignedVerifies(p, certs, hybrid);
  }

  /** The quantum half verifies exactly when the active key is the one published for the record's epoch. */
  lemma ActiveSignedVerifiesIff(p: Producer, certs: seq<Cert>)
    requires p.quantumSignature == NoSignature && p.quantumOperatorKey == [] && Vouched(p, certs)
    requires Linked(certs, true) && p.operatorEpoch < |certs|
    ensures certs[|certs| - 1].epoch == |certs| - 1
    ensures Vouched(ActiveSigned(certs, p), certs) <==> SameQuantumKey(certs, p.operatorEpoch, certs[|certs| - 1].epoch)
  {
    hide PublicKeyAt, QuantumPublicKeyAt, CanonicalEnrollment, OwnCert, LinksTo, GenesisOf;
    var d: nat, n := p.operatorEpoch, |certs|;
    NumberedKey(certs, d);
    NumberedKey(certs, n - 1);
    assert OwnCert(certs[d], true) && OwnCert(certs[n - 1], true);
    HybridHasQuantum(certs[d], true);
    HybridHasQuantum(certs[n - 1], true);
    QuantumKeySize(certs[d], true);
    SameCanonical(p, ActiveSigned(certs, p));
  }

  lemma ActiveSignedGood(p: Producer, certs: seq<Cert>)
    requires FiledGood(Filed(p, None), certs) && p.quantumSignature == NoSignature && p.quantumOperatorKey == []
    requires Linked(certs, true) && |certs| <= TWO_TO_64
    ensures FiledGood(Filed(ActiveSigned(certs, p), Some(|certs| - 1)), certs)
  {
    hide PublicKeyAt, QuantumPublicKeyAt, CanonicalEnrollment, ChallengeBytes, OwnCert, LinksTo, GenesisOf, Numbered,
      Vouched, SameQuantumKey;
    ActiveSignedVerifiesIff(p, certs);
    SameCanonical(p, ActiveSigned(certs, p));
  }

  lemma SameCanonical(p: Producer, q: Producer)
    requires SameTerms(p, q)
    ensures CanonicalEnrollment(p) == CanonicalEnrollment(q)
    ensures p.challengeNonce == q.challengeNonce ==> ChallengeBytes(p) == ChallengeBytes(q)
  {
    assert TermFields(p) == TermFields(q);
  }

  lemma RotateKeepsEnrolled(s: State, key: Bytes, quantumKey: Bytes, now: I64, live: bool)
    requires AllEnrolled(s) && KeysOk(key, quantumKey, s.hybrid) && |s.certs| < TWO_TO_64
    ensures AllEnrolled(s.(certs := s.certs + [NextCert(s.certs[|s.certs| - 1], key, quantumKey, now)], alive := live))
  {
    hide OwnCert, LinksTo, Numbered, GenesisOf, FiledGood, NextCert;
    var next := NextCert(s.certs[|s.certs| - 1], key, quantumKey, now);
    NextLinked(s.certs, key, quantumKey, now, s.hybrid);
    forall i | 0 <= i < |s.persisted|
      ensures FiledGood(s.persisted[i], s.certs + [next])
    {
      FiledStable(s.persisted[i], s.certs, [next]);
    }
    forall f | f in s.flights
      ensures FlightGood(s.flights[f], s.certs + [next])
    {
      match s.flights[f]
      case Countersigned(_, p) => FiledStable(Filed(p, None), s.certs, [next]);
      case QuantumCountersigned(_, p, epoch) => FiledStable(Filed(p, Some(epoch)), s.certs, [next]);
      case _ =>
    }
  }

  lemma DropKeepsEnrolled(s: State, flight: nat)
    requires AllEnrolled(s)
    ensures AllEnrolled(Drop(s, flight))
  {
    hide Linked, FlightGood, FiledGood;
  }

  lemma AdvanceKeepsEnrolled(s: State, flight: nat, f: Flight)
    requires AllEnrolled(s) && FlightGood(f, s.certs)
    ensures AllEnrolled(s.(flights := s.flights[flight := f]))
  {
    hide Linked, FlightGood, FiledGood;
  }

  lemma TakeKeepsEnrolled(s: State, flight: nat, challenge: Bytes)
    requires AllEnrolled(s) && challenge in s.pending
    ensures var t := s.(pending := s.pending - {challenge});
            && AllEnrolled(t)
            && AllEnrolled(t.(flights := s.flights[flight := Taken(challenge, s.pending[challenge].record)]))
  {
    hide Linked, FiledGood;
  }

  lemma PersistKeepsEnrolled(s: State, flight: nat, confirmed: seq<Bytes>)
    requires AllEnrolled(s) && flight in s.flights && Ready(s.hybrid, s.flights[flight]).Some?
    ensures var filed := Ready(s.hybrid, s.flights[flight]).value;
            AllEnrolled(Drop(s, flight).(confirmed := confirmed, persisted := s.persisted + [filed]))
  {
    hide Linked, FiledGood;
    assert FlightGood(s.flights[flight], s.certs);
  }

  lemma FlightOf(s: State, flight: nat)
    requires AllEnrolled(s) && flight in s.flights
    ensures FlightGood(s.flights[flight], s.certs) && Linked(s.certs, s.hybrid) && |s.certs| <= TWO_TO_64
  {
    hide Linked, FlightGood, FiledGood;
  }

  lemma StepKeepsEnrolled(s: State, e: Event)
    requires AllEnrolled(s)
    ensures AllEnrolled(Step(s, e))
  {
    hide VerifyConsent, CanonicalEnrollment, NextCert, Linked, FiledGood, ActiveSigned, AllEnrolled, Drop;
    match e
    case Begin(challenge, record, expiresAt) => BeginKeepsEnrolled(s, challenge, record, expiresAt);
    case Take(flight, challenge, now) =>
      if challenge in s.pending {
        TakeKeepsEnrolled(s, flight, challenge);
      }
    case Consent(flight, signature, quantumSignature) =>
      DropKeepsEnrolled(s, flight);
      if flight in s.flights && s.flights[flight].Taken? {
        FlightOf(s, flight);
        var f := s.flights[flight];
        var p := WithConsent(f.record, signature, quantumSignature);
        if VerifyConsent(p) {
          AdvanceKeepsEnrolled(s, flight, Consented(f.challenge, p));
        }
      }
    case Countersign(flight) =>
      DropKeepsEnrolled(s, flight);
      if flight in s.flights && s.flights[flight].Consented? && s.certs != [] {
        FlightOf(s, flight);
        var f, last := s.flights[flight], s.certs[|s.certs| - 1];
        if last.epoch == f.record.operatorEpoch {
          CountersignedGood(f.record, s.certs, s.hybrid);
          AdvanceKeepsEnrolled(s, flight, Countersigned(f.challenge, SignedBy(f.record, last.publicKey)));
        }
      }
    case QuantumCountersign(flight) =>
      DropKeepsEnrolled(s, flight);
      if flight in s.flights && s.flights[flight].Countersigned? && s.certs != [] && s.hybrid {
        FlightOf(s, flight);
        var f := s.flights[flight];
        ActiveSignedGood(f.record, s.certs);
        AdvanceKeepsEnrolled(s, flight,
                             QuantumCountersigned(f.challenge, ActiveSigned(s.certs, f.record), |s.certs| - 1));
      }
    case Persist(flight, works) =>
      DropKeepsEnrolled(s, flight);
      if flight in s.flights && Ready(s.hybrid, s.flights[flight]).Some? {
        PersistKeepsEnrolled(s, flight, s.confirmed + [s.flights[flight].challenge]);
      }
    case Rotate(key, quantumKey, now, written, live) =>
      if s.certs != [] && KeysOk(key, quantumKey, s.hybrid) && |s.certs| < TWO_TO_64 {
        RotateKeepsEnrolled(s, key, quantumKey, now, live);
      }
    case Restart => RestartKeepsEnrolled(s);
  }

  lemma BeginKeepsEnrolled(s: State, challenge: Bytes, record: Producer, expiresAt: I64)
    requires AllEnrolled(s)
    ensures var pending := s.pending[challenge := Pending(record, expiresAt)];
            Blank(record) ==> AllEnrolled(s.(pending := pending, issued := s.issued + {challenge}))
  {
    hide Linked, FlightGood, FiledGood;
  }

  lemma RestartKeepsEnrolled(s: State)
    requires AllEnrolled(s)
    ensures AllEnrolled(s.(pending := map[], flights := map[], alive := true))
  {
    hide Linked, FlightGood, FiledGood;
  }

  // ---- Whole runs ----

  lemma {:induction false} RunKeeps(s: State, events: seq<Event>)
    requires OncePerChallenge(s) && AllEnrolled(s)
    ensures OncePerChallenge(Run(s, events)) && AllEnrolled(Run(s, events))
  {
    hide OncePerChallenge, AllEnrolled, Step;
    if events != [] {
      RunKeeps(s, events[..|events| - 1]);
      StepKeepsOnce(Run(s, events[..|events| - 1]), events[|events| - 1]);
      StepKeepsEnrolled(Run(s, events[..|events| - 1]), events[|events| - 1]);
    }
  }

  ghost predicate Fresh(s: State)
  {
    && Linked(s.certs, s.hybrid) && |s.certs| <= TWO_TO_64 && s.pending == map[] && s.flights == map[]
    && s.issued == {} && s.confirmed == [] && s.persisted == []
  }

  /** In any interleaving of ceremonies, rotations and restarts, a challenge confirms at most once, and
      every persisted record carries valid consent. Its enrollment is valid under the current chain
      exactly if no quantum half was needed or the epoch that signed it has the key of the epoch the
      record names. */
  lemma CeremonySound(s: State, events: seq<Event>)
    requires Fresh(s)
    ensures var t := Run(s, events);
            && (forall i, j :: 0 <= i < j < |t.confirmed| ==> t.confirmed[i] != t.confirmed[j])
            && (forall i :: 0 <= i < |t.persisted| ==> FiledGood(t.persisted[i], t.certs))
  {
    hide Run, Linked, FiledGood;
    RunKeeps(s, events);
  }

  /** With a classical operator, or a classical producer, that is always so. */
  lemma {:induction false} NoQuantumHalf(s: State, events: seq<Event>, i: nat)
    requires Fresh(s) && i < |Run(s, events).persisted|
    ensures var f := Run(s, events).persisted[i];
            && (f.quantumEpoch.Some? ==> s.hybrid && f.record.quantumPublicKey != [])
            && (!s.hybrid || f.record.quantumPublicKey == [] ==> Enrolled(f.record, Run(s, events).certs))
  {
    hide Run, Linked, VerifyConsent, Vouched;
    CeremonySound(s, events);
    RunMarks(s, events);
    assert FiledGood(Run(s, events).persisted[i], Run(s, events).certs);
  }

  /** A quantum epoch is recorded only where a quantum half was needed. */
  ghost predicate Marked(s: State)
  {
    && (forall i :: 0 <= i < |s.persisted| && s.persisted[i].quantumEpoch.Some? ==>
                      NeedsQuantum(s.hybrid, s.persisted[i].record))
    && (forall f :: f in s.flights && s.flights[f].QuantumCountersigned? ==>
                      NeedsQuantum(s.hybrid, s.flights[f].record))
  }

  lemma StepMarks(s: State, e: Event)
    requires Marked(s)
    ensures Marked(Step(s, e)) && Step(s, e).hybrid == s.hybrid
  {
    hide VerifyConsent, CanonicalEnrollment, NextCert;
  }

  lemma {:induction false} RunMarks(s: State, events: seq<Event>)
    requires Fresh(s)
    ensures Marked(Run(s, events)) && Run(s, events).hybrid == s.hybrid
  {
    hide Step, Linked;
    if events != [] {
      RunMarks(s, events[..|events| - 1]);
      StepMarks(Run(s, events[..|events| - 1]), events[|events| - 1]);
    }
  }

  /** A rotation between the two signatures of a hybrid operator leaves a record that is persisted, and
      whose enrollment does not verify unless the two epochs share a quantum key. */
  lemma RotatedBetween(s: State, flight: nat, key: Bytes, quantumKey: Bytes, now: I64)
    requires AllEnrolled(s) && s.hybrid && s.alive && |s.certs| < TWO_TO_64 && KeysOk(key, quantumKey, true)
    requires flight in s.flights && s.flights[flight].Countersigned?
    requires NeedsQuantum(true, s.flights[flight].record)
    ensures var rotated := Step(s, Rotate(key, quantumKey, now, true, true));
            var t := Step(Step(rotated, QuantumCountersign(flight)), Persist(flight, true));
            && |t.persisted| == |s.persisted| + 1
            && var f := t.persisted[|s.persisted|];
               SameTerms(f.record, s.flights[flight].record) && f.quantumEpoch == Some(|s.certs|)
               && (Vouched(f.record, t.certs) <==> SameQuantumKey(t.certs, f.record.operatorEpoch, |s.certs|))
  {
    hide VerifyConsent, CanonicalEnrollment, NextCert, Linked, Vouched, SameQuantumKey, AllEnrolled;
    assert s.certs != [] by { LinkedNotEmpty(s); }
    var t1 := Step(s, Rotate(key, quantumKey, now, true, true));
    var t2 := Step(t1, QuantumCountersign(flight));
    var t3 := Step(t2, Persist(flight, true));
    StepKeepsEnrolled(s, Rotate(key, quantumKey, now, true, true));
    StepKeepsEnrolled(t1, QuantumCountersign(flight));
    StepKeepsEnrolled(t2, Persist(flight, true));
    LastFiledGood(t3);
  }

  lemma LinkedNotEmpty(s: State)
    requires AllEnrolled(s)
    ensures s.certs != []
  {
    hide FiledGood, FlightGood;
  }

  lemma LastFiledGood(s: State)
    requires AllEnrolled(s) && s.persisted != []
    ensures FiledGood(s.persisted[|s.persisted| - 1], s.certs)
  {
    hide FiledGood, FlightGood, Linked;
  }

  lemma StepGrows(s: State, e: Event)
    ensures s.persisted <= Step(s, e).persisted && s.certs <= Step(s, e).certs && s.confirmed <= Step(s, e).confirmed
  {
    hide VerifyConsent, CanonicalEnrollment, NextCert;
  }

  lemma {:induction false} RunGrows(s: State, events: seq<Event>, k: nat)
    requires k <= |events|
    ensures Run(s, events[..k]).persisted <= Run(s, events).persisted
    ensures Run(s, events[..k]).certs <= Run(s, events).certs
  {
    hide Step;
    if k < |events| {
      var init := events[..|events| - 1];
      RunGrows(s, init, k);
      assert init[..k] == events[..k];
      StepGrows(Run(s, init), events[|events| - 1]);
    } else {
      assert events[..k] == events;
    }
  }

  /** A record once persisted stays, and the verdict on it is the same after whatever rotations follow. */
  lemma PersistedForever(s: State, events: seq<Event>, k: nat, f: Filed)
    requires Fresh(s) && k <= |events| && f in Run(s, events[..k]).persisted
    ensures f in Run(s, events).persisted && VerifyConsent(f.record)
    ensures Vouched(f.record, Run(s, events).certs) <==> Vouched(f.record, Run(s, events[..k]).certs)
  {
    hide Run, Linked, VerifyConsent, Vouched;
    var early, late := Run(s, events[..k]), Run(s, events);
    CeremonySound(s, events[..k]);
    CeremonySound(s, events);
    RunGrows(s, events, k);
    var i :| 0 <= i < |early.persisted| && early.persisted[i] == f;
    assert late.persisted[i] == f;
    assert FiledGood(early.persisted[i], early.certs) && FiledGood(late.persisted[i], late.certs);
    RunNumbered(s, events[..k]);
    var more := late.certs[|early.certs|..];
    assert late.certs == early.certs + more;
    VouchedStable(f.record, early.certs, more);
  }

  lemma RunNumbered(s: State, events: seq<Event>)
    requires Fresh(s)
    ensures Numbered(Run(s, events).certs)
  {
    hide Run, FiledGood, FlightGood, OwnCert, LinksTo, GenesisOf;
    RunKeeps(s, events);
  }

  /** The challenge was issued and can no longer be confirmed. */
  ghost predicate Spent(s: State, challenge: Bytes)
  {
    && challenge in s.issued && challenge !in s.pending && challenge !in s.confirmed
    && (forall f :: f in s.flights ==> s.flights[f].challenge != challenge)
  }

  lemma StepKeepsSpent(s: State, e: Event, challenge: Bytes)
    requires Spent(s, challenge)
    ensures Spent(Step(s, e), challenge)
  {
    hide VerifyConsent, CanonicalEnrollment, NextCert;
  }

  lemma {:induction false} RunKeepsSpent(s: State, events: seq<Event>, challenge: Bytes)
    requires Spent(s, challenge)
    ensures Spent(Run(s, events), challenge)
  {
    hide Spent, Step;
    if events != [] {
      RunKeepsSpent(s, events[..|events| - 1], challenge);
      StepKeepsSpent(Run(s, events[..|events| - 1]), events[|events| - 1], challenge);
    }
  }

  /** An answer after the deadline uses the challenge up: nothing that happens later confirms it. */
  lemma LateNeverConfirms(s: State, flight: nat, challenge: Bytes, now: I64, events: seq<Event>)
    requires OncePerChallenge(s) && challenge in s.pending && flight !in s.flights
    requires now > s.pending[challenge].expiresAt
    ensures challenge !in Run(Step(s, Take(flight, challenge, now)), events).confirmed
  {
    hide Run;
    RunKeepsSpent(Step(s, Take(flight, challenge, now)), events, challenge);
  }

  /** So does a restart for every challenge still open. */
  lemma RestartForgets(s: State, challenge: Bytes, events: seq<Event>)
    requires challenge in s.issued && challenge !in s.confirmed
    ensures challenge !in Run(Step(s, Restart), events).confirmed
  {
    hide Run;
    RunKeepsSpent(Step(s, Restart), events, challenge);
  }

  /** The record a confirmation ends with when nothing comes in between. */
  function Completed(hybrid: bool, p: Producer, last: Cert): Producer
  {
    var signed := SignedBy(p, last.publicKey);
    if NeedsQuantum(hybrid, p) then QuantumSignedBy(signed, last.quantumPublicKey, last.quantumPublicKey) else signed
  }

  /** Such a record is a valid enrollment. */
  lemma CompletedVouched(p: Producer, certs: seq<Cert>, hybrid: bool)
    requires p.quantumSignature == NoSignature && p.quantumOperatorKey == []
    requires Linked(certs, hybrid) && certs[|certs| - 1].epoch == p.operatorEpoch
    ensures var q := Completed(hybrid, p, certs[|certs| - 1]);
            Vouched(q, certs) && SameTerms(q, p) && (VerifyConsent(q) <==> VerifyConsent(p))
  {
    hide PublicKeyAt, QuantumPublicKeyAt, CanonicalEnrollment, ChallengeBytes, OwnCert, LinksTo, GenesisOf, Vouched;
    var last, signed := certs[|certs| - 1], SignedBy(p, certs[|certs| - 1].publicKey);
    SignedVerifies(p, certs, hybrid);
    SameCanonical(p, signed);
    SameCanonical(p, Completed(hybrid, p, last));
    NumberedKey(certs, |certs| - 1);
    assert OwnCert(last, hybrid);
    HybridHasQuantum(last, hybrid);
    if NeedsQuantum(hybrid, p) {
      ActiveSignedVerifiesIff(signed, certs);
    }
  }

  /** Run without interruption, the regions of a confirmation add up to one: the challenge is gone, and
      the record is persisted, in all its halves valid, exactly when every check passes. */
  lemma UninterruptedConfirm(s: State, flight: nat, challenge: Bytes, now: I64, sig: Signature, quantumSig: Signature)
    requires challenge in s.pending && flight !in s.flights && Linked(s.certs, s.hybrid)
    ensures var p, last := WithConsent(s.pending[challenge].record, sig, quantumSig), s.certs[|s.certs| - 1];
            var signable := VerifyConsent(p) && s.alive && last.epoch == p.operatorEpoch;
            var done := now <= s.pending[challenge].expiresAt && signable;
            var t := Confirmed(s, flight, challenge, now, sig, quantumSig);
            && t.pending == s.pending - {challenge} && t.flights == s.flights
            && |t.persisted| == |s.persisted| + (if done then 1 else 0) && s.persisted <= t.persisted
            && (done ==> t.persisted[|s.persisted|].record == Completed(s.hybrid, p, last))
            && t.confirmed == (if done then s.confirmed + [challenge] else s.confirmed)
  {
    hide VerifyConsent, CanonicalEnrollment, OwnCert, LinksTo, GenesisOf, Step, WithConsent, Completed;
    var record, deadline := s.pending[challenge].record, s.pending[challenge].expiresAt;
    var p, last := WithConsent(record, sig, quantumSig), s.certs[|s.certs| - 1];
    var t := s.(pending := s.pending - {challenge});
    var taken, consented := s.flights[flight := Taken(challenge, record)], s.flights[flight := Consented(challenge, p)];
    TakeStep(s, flight, challenge, now);
    if now > deadline {
      NoFlight(t, flight, sig, quantumSig);
    } else {
      ConsentStep(t.(flights := taken), flight, sig, quantumSig);
      assert taken - {flight} == s.flights && taken[flight := Consented(challenge, p)] == consented;
      if !VerifyConsent(p) {
        NoFlight(t, flight, sig, quantumSig);
      } else {
        CountersignStep(t.(flights := consented), flight);
        assert consented - {flight} == s.flights;
        if s.alive && last.epoch == p.operatorEpoch {
          SignedWithout(s, t.(flights := consented), flight, challenge, p);
        } else {
          NoFlight(t, flight, sig, quantumSig);
        }
      }
    }
  }

  // What single regions do.

  lemma NoFlight(s: State, flight: nat, sig: Signature, quantumSig: Signature)
    requires flight !in s.flights
    ensures s == Step(s, Consent(flight, sig, quantumSig)) == Step(s, Countersign(flight))
    ensures s == Step(s, QuantumCountersign(flight)) == Step(s, Persist(flight, true))
  {
  }

  lemma TakeStep(s: State, flight: nat, challenge: Bytes, now: I64)
    requires challenge in s.pending && flight !in s.flights
    ensures var t := s.(pending := s.pending - {challenge});
            Step(s, Take(flight, challenge, now)) ==
              if now > s.pending[challenge].expiresAt then t
              else t.(flights := s.flights[flight := Taken(challenge, s.pending[challenge].record)])
  {
  }

  lemma ConsentStep(s: State, flight: nat, sig: Signature, quantumSig: Signature)
    requires flight in s.flights && s.flights[flight].Taken?
    ensures var f := s.flights[flight];
            var p := WithConsent(f.record, sig, quantumSig);
            Step(s, Consent(flight, sig, quantumSig)) ==
              s.(flights := if VerifyConsent(p) then s.flights[flight := Consented(f.challenge, p)]
                            else s.flights - {flight})
  {
    hide VerifyConsent, WithConsent;
  }

  lemma CountersignStep(s: State, flight: nat)
    requires flight in s.flights && s.flights[flight].Consented? && s.certs != []
    ensures var f, last := s.flights[flight], s.certs[|s.certs| - 1];
            Step(s, Countersign(flight)) ==
              s.(flights := if s.alive && last.epoch == f.record.operatorEpoch
                            then s.flights[flight := Countersigned(f.challenge, SignedBy(f.record, last.publicKey))]
                            else s.flights - {flight})
  {
    hide SignedBy;
  }

  lemma QuantumStep(s: State, flight: nat)
    requires flight in s.flights && s.flights[flight].Countersigned? && s.certs != [] && s.alive
    ensures var f := s.flights[flight];
            Step(s, QuantumCountersign(flight)) ==
              if !NeedsQuantum(s.hybrid, f.record) then s
              else
                var done := QuantumCountersigned(f.challenge, ActiveSigned(s.certs, f.record), |s.certs| - 1);
                s.(flights := s.flights[flight := done])
  {
    hide ActiveSigned;
  }

  lemma PersistStep(s: State, flight: nat)
    requires flight in s.flights && Ready(s.hybrid, s.flights[flight]).Some?
    ensures Step(s, Persist(flight, true)) ==
              s.(flights := s.flights - {flight}, confirmed := s.confirmed + [s.flights[flight].challenge],
                 persisted := s.persisted + [Ready(s.hybrid, s.flights[flight]).value])
  {
    hide Ready;
  }

  ghost function Confirmed(s: State, flight: nat, challenge: Bytes, now: I64, sig: Signature,
                           quantumSig: Signature): State
  {
    var taken := Step(Step(s, Take(flight, challenge, now)), Consent(flight, sig, quantumSig));
    Step(Step(Step(taken, Countersign(flight)), QuantumCountersign(flight)), Persist(flight, true))
  }

  /** The signing regions, from a consented flight on. */
  lemma SignedWithout(s: State, t: State, flight: nat, challenge: Bytes, p: Producer)
    requires Linked(s.certs, s.hybrid) && flight !in s.flights && s.alive
    requires s.certs[|s.certs| - 1].epoch == p.operatorEpoch
    requires t == s.(pending := t.pending, flights := s.flights[flight := Consented(challenge, p)])
    ensures var u := Step(Step(Step(t, Countersign(flight)), QuantumCountersign(flight)), Persist(flight, true));
            && u.pending == t.pending && u.flights == s.flights && u.confirmed == s.confirmed + [challenge]
            && |u.persisted| == |s.persisted| + 1 && s.persisted <= u.persisted
            && u.persisted[|s.persisted|].record == Completed(s.hybrid, p, s.certs[|s.certs| - 1])
  {
    hide CanonicalEnrollment, OwnCert, LinksTo, GenesisOf, QuantumPublicKeyAt, Step;
    var last, signed := s.certs[|s.certs| - 1], SignedBy(p, s.certs[|s.certs| - 1].publicKey);
    SameCanonical(p, signed);
    NumberedKey(s.certs, |s.certs| - 1);
    assert OwnCert(last, s.hybrid);
    HybridHasQuantum(last, s.hybrid);
    CountersignStep(t, flight);
    var u1 := Step(t, Countersign(flight));
    QuantumStep(u1, flight);
    var u2 := Step(u1, QuantumCountersign(flight));
    PersistStep(u2, flight);
    assert u2.flights - {flight} == s.flights;
  }

  lemma HybridHasQuantum(c: Cert, hybrid: bool)
    requires OwnCert(c, hybrid)
    ensures hybrid <==> c.quantumPublicKey != []
  {
    hide CertVerifies;
  }
}
