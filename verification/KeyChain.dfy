/** `pkg/fwdsec`, the published side: rotation certificates and the check that walks them from the
    trusted root. */
module KeyChain {
  import opened Encoding
  import opened Hashing
  import opened Crypto
  import opened Options
  import opened Threshold
  import opened TextLines
  import GroupCanonical

  datatype Cert = Cert(
    epoch: U64, publicKey: Bytes, startedAt: I64, signedBy: Bytes, signature: Signature,
    quantumPublicKey: Bytes, quantumSignedBy: Bytes, quantumSignature: Signature,
    groupDigest: Bytes, memberSigs: seq<Option<MemberSig>>)

  datatype Chain = Chain(origin: Bytes, certs: seq<Cert>, activeLocator: Bytes)

  function NONE(): Bytes { Text("none") }

  function HexOrNone(b: Bytes): Bytes { if b == [] then NONE() else Hex(b) }

  function TextOrNone(b: Bytes): Bytes { if b == [] then NONE() else b }

  function CertLines(c: Cert): seq<Line>
  {
    [ Line(Text("stele-rotation/v0\nepoch: "), Dec(c.epoch)),
      Line(Text("public_key: "), Hex(c.publicKey)),
      Line(Text("started_at: "), DecSigned(c.startedAt)),
      Line(Text("signed_by: "), Hex(c.signedBy)),
      Line(Text("quantum_public_key: "), HexOrNone(c.quantumPublicKey)),
      Line(Text("threshold_group: "), TextOrNone(c.groupDigest)) ]
  }

  /** `RotationCert.Canonical`. */
  function CertBytes(c: Cert): Bytes { Render(CertLines(c)) }

  /** The signed text determines every field of a certificate; an absent group reads like one called
      "none". */
  lemma CertTextDetermines(c: Cert, d: Cert)
    requires CertBytes(c) == CertBytes(d)
    ensures c.epoch == d.epoch && c.publicKey == d.publicKey && c.startedAt == d.startedAt && c.signedBy == d.signedBy
    ensures c.quantumPublicKey == d.quantumPublicKey && TextOrNone(c.groupDigest) == TextOrNone(d.groupDigest)
  {
    hide Render, Hex, Dec, DecSigned;
    var a, b := CertLines(c), CertLines(d);
    CertLinesFit(c);
    CertLinesFit(d);
    LastLineFree(a, b);
    assert a[0] == b[0] && a[1] == b[1] && a[2] == b[2] && a[3] == b[3] && a[4] == b[4] && a[5] == b[5];
    DecInjective(c.epoch, d.epoch);
    HexInjective(c.publicKey, d.publicKey);
    DecSignedInjective(c.startedAt, d.startedAt);
    HexInjective(c.signedBy, d.signedBy);
    HexOrNoneInjective(c.quantumPublicKey, d.quantumPublicKey);
  }

  lemma CertLinesFit(c: Cert)
    ensures AllOneLine(CertLines(c)[..5])
  {
    hide Hex, Dec, DecSigned;
    DigitsOneLine(c.epoch, c.startedAt, c.publicKey);
    DigitsOneLine(0, 0, c.signedBy);
    DigitsOneLine(0, 0, c.quantumPublicKey);
  }

  lemma HexOrNoneInjective(a: Bytes, b: Bytes)
    requires HexOrNone(a) == HexOrNone(b)
    ensures a == b
  {
    hide Hex;
    NoneIsNotHex(a);
    NoneIsNotHex(b);
    if a != [] && b != [] {
      HexInjective(a, b);
    }
  }

  /** What the text of a certificate says. */
  datatype CertText = CertText(epoch: int, publicKey: Bytes, startedAt: int, signedBy: Bytes, quantumPublicKey: Bytes,
                               group: Bytes)

  function CERT_CAPTIONS(): seq<Bytes>
  {
    [ Text("stele-rotation/v0\nepoch: "), Text("public_key: "), Text("started_at: "), Text("signed_by: "),
      Text("quantum_public_key: "), Text("threshold_group: ") ]
  }

  /** Reads a certificate line by line. */
  function ReadCert(b: Bytes): Option<CertText>
  {
    match ReadLines(CERT_CAPTIONS(), b)
    case None => None
    case Some((vs, rest)) =>
      if rest != [] then None
      else Some(CertText(FromDec(vs[0]), FromHex(vs[1]), FromDecSigned(vs[2]), FromHex(vs[3]),
                         if vs[4] == Text("none") then [] else FromHex(vs[4]), vs[5]))
  }

  /** Every field can be read from the signed text, when the group's digest fits on a line. */
  lemma CertReadBack(c: Cert)
    requires OneLine(c.groupDigest)
    ensures ReadCert(CertBytes(c))
         == Some(CertText(c.epoch, c.publicKey, c.startedAt, c.signedBy, c.quantumPublicKey,
                          if c.groupDigest == [] then Text("none") else c.groupDigest))
  {
    hide Hex, Dec, DecSigned, FromHex, FromDec, FromDecSigned, Render, ReadLines;
    var lines := CertLines(c);
    CertLinesFit(c);
    assert lines[..5][0] == lines[0] && lines[..5][1] == lines[1] && lines[..5][2] == lines[2];
    assert lines[..5][3] == lines[3] && lines[..5][4] == lines[4] && OneLine(Text("none"));
    hide Text;
    LinesReadBack(CERT_CAPTIONS(), lines, []);
    assert CertBytes(c) + [] == CertBytes(c);
    DecReadBack(c.epoch);
    HexReadBack(c.publicKey);
    DecSignedReadBack(c.startedAt);
    HexReadBack(c.signedBy);
    HexReadBack(c.quantumPublicKey);
    NoneIsNotHex(c.quantumPublicKey);
  }

  /** `verifyQuantumCert`. */
  predicate QuantumCertVerifies(c: Cert)
  {
    && |c.quantumPublicKey| == QUANTUM_PUBLIC_KEY_SIZE
    && |c.quantumSignedBy| == QUANTUM_PUBLIC_KEY_SIZE
    && c.quantumSignature.Length() == QUANTUM_SIGNATURE_SIZE
    && QuantumVerify(c.quantumSignedBy, CertBytes(c), c.quantumSignature)
  }

  /** `RotationCert.Verify`, the single-signature modes. */
  predicate CertVerifies(c: Cert)
  {
    && |c.publicKey| == PUBLIC_KEY_SIZE
    && |c.memberSigs| == 0
    && |c.signedBy| == PUBLIC_KEY_SIZE
    && EdVerify(c.signedBy, CertBytes(c), c.signature)
    && (c.quantumPublicKey != [] || c.quantumSignature.Length() > 0 || c.quantumSignedBy != [] ==>
          QuantumCertVerifies(c))
  }

  /** `RotationCert.VerifyWithGroup`: a certificate with member signatures is vouched for by the group
      whose digest it names. */
  ghost predicate CertVerifiesWithGroup(sha: Hasher, c: Cert, group: Option<Group>)
  {
    if |c.memberSigs| == 0 then CertVerifies(c)
    else
      && group.Some?
      && c.groupDigest == Hex(sha(GroupCanonical.Canonical(group.value)))
      && Accepted(group.value, CertBytes(c), c.memberSigs)
  }

  /** The genesis certificate is epoch 0 and signed by the root itself, in both halves. */
  predicate GenesisOf(c: Cert, rootKey: Bytes)
  {
    && c.epoch == 0 && c.publicKey == rootKey && c.signedBy == rootKey
    && (c.quantumPublicKey != [] ==> c.quantumPublicKey == c.quantumSignedBy)
  }

  /** How a certificate must continue the one before it. */
  predicate Continues(prev: Cert, c: Cert)
  {
    && c.epoch == (prev.epoch + 1) % TWO_TO_64
    && prev.startedAt <= c.startedAt
    && (|c.memberSigs| == 0 ==>
          && c.signedBy == prev.publicKey
          && (c.quantumPublicKey != [] || c.quantumSignedBy != [] ==> c.quantumSignedBy == prev.quantumPublicKey))
  }

  ghost predicate ChainVerifies(sha: Hasher, certs: seq<Cert>, rootKey: Bytes, group: Option<Group>)
  {
    && certs != [] && GenesisOf(certs[0], rootKey)
    && (forall i :: 0 <= i < |certs| ==> CertVerifiesWithGroup(sha, certs[i], group))
    && (forall i :: 0 < i < |certs| ==> Continues(certs[i - 1], certs[i]))
  }

  /** One certificate of the walk in `verifyChain`. */
  method CheckCert(sha: Hasher, c: Cert, group: Option<Group>) returns (ok: bool)
    ensures ok <==> CertVerifiesWithGroup(sha, c, group)
  {
    hide CertBytes, Accepted, Hex;
    if |c.memberSigs| > 0 {
      if group.None? {
        return false;
      }
      var canon := GroupCanonical.WriteGroup(group.value);
      if c.groupDigest != Hex(sha(canon)) {
        return false;
      }
      ok := VerifyMulti(group, CertBytes(c), c.memberSigs);
    } else {
      ok := CertVerifies(c);
    }
  }

  /** `verifyChain`: accepts exactly the chains in which every certificate verifies and continues its
      predecessor from the trusted root. */
  method VerifyChain(sha: Hasher, chain: Chain, rootKey: Bytes, group: Option<Group>) returns (ok: bool)
    ensures ok <==> ChainVerifies(sha, chain.certs, rootKey, group)
  {
    hide CertVerifiesWithGroup, Continues;
    var certs := chain.certs;
    if |certs| == 0 {
      return false;
    }
    if certs[0].epoch != 0 || certs[0].publicKey != rootKey || certs[0].signedBy != rootKey {
      return false;
    }
    if |certs[0].quantumPublicKey| > 0 && certs[0].quantumPublicKey != certs[0].quantumSignedBy {
      return false;
    }
    for i := 0 to |certs|
      invariant forall j :: 0 <= j < i ==> CertVerifiesWithGroup(sha, certs[j], group)
      invariant forall j :: 0 < j < i ==> Continues(certs[j - 1], certs[j])
    {
      var verified := CheckCert(sha, certs[i], group);
      if !verified {
        return false;
      }
      if i == 0 {
        continue;
      }
      if !Continues(certs[i - 1], certs[i]) {
        return false;
      }
    }
    return true;
  }

  // ---- What an accepted chain means ----

  /** The certificate `c` was made by the holder of the keys of `maker`, in both halves if it is hybrid. */
  predicate MadeBy(maker: Cert, c: Cert)
  {
    && |c.publicKey| == |maker.publicKey| == PUBLIC_KEY_SIZE
    && c.signedBy == maker.publicKey && c.signature == Signed(Ed25519, maker.publicKey, CertBytes(c))
    && (if c.quantumPublicKey == [] then c.quantumSignedBy == [] && c.quantumSignature.Length() == 0
        else
          && |c.quantumPublicKey| == |maker.quantumPublicKey| == QUANTUM_PUBLIC_KEY_SIZE
          && c.quantumSignedBy == maker.quantumPublicKey
          && c.quantumSignature == Signed(Dilithium3, maker.quantumPublicKey, CertBytes(c)))
  }

  /** Enough members of the group signed `c`, which names the group. */
  ghost predicate MadeByGroup(sha: Hasher, group: Option<Group>, c: Cert)
  {
    && group.Some? && ValidGroup(group.value) && c.groupDigest == Hex(sha(GroupCanonical.Canonical(group.value)))
    && |Vouching(group.value, CertBytes(c), c.memberSigs)| >= group.value.threshold
  }

  /** The keys of position `i` were made known by those before it, at the beginning by themselves, or by
      the group. */
  ghost predicate Issued(sha: Hasher, certs: seq<Cert>, i: nat, group: Option<Group>)
    requires i < |certs|
  {
    if certs[i].memberSigs == [] then MadeBy(certs[if i == 0 then 0 else i - 1], certs[i])
    else MadeByGroup(sha, group, certs[i])
  }

  predicate NextInTime(prev: Cert, c: Cert)
  {
    c.epoch == (prev.epoch + 1) % TWO_TO_64 && prev.startedAt <= c.startedAt
  }

  /** An accepted chain is one in which every key was made known by the one before it or by the group,
      starting from the root, under consecutive numbers and times that do not go back. */
  lemma ChainVerifiesIff(sha: Hasher, certs: seq<Cert>, rootKey: Bytes, group: Option<Group>)
    ensures ChainVerifies(sha, certs, rootKey, group) <==>
            && certs != [] && certs[0].publicKey == rootKey == certs[0].signedBy && certs[0].epoch == 0
            && (certs[0].quantumPublicKey != [] ==> certs[0].quantumSignedBy == certs[0].quantumPublicKey)
            && (forall i :: 0 <= i < |certs| ==> Issued(sha, certs, i, group))
            && (forall i :: 0 < i < |certs| ==> NextInTime(certs[i - 1], certs[i]))
  {
    hide CertBytes, MadeBy, MadeByGroup, CertVerifiesWithGroup, Continues, NextInTime, Issued;
    if certs != [] && GenesisOf(certs[0], rootKey) {
      if ChainVerifies(sha, certs, rootKey, group) {
        forall i | 0 <= i < |certs|
          ensures Issued(sha, certs, i, group) && (i > 0 ==> NextInTime(certs[i - 1], certs[i]))
        {
          IssuedIff(sha, certs, rootKey, group, i);
        }
      }
      if (forall i :: 0 <= i < |certs| ==> Issued(sha, certs, i, group))
         && (forall i :: 0 < i < |certs| ==> NextInTime(certs[i - 1], certs[i])) {
        forall i | 0 <= i < |certs|
          ensures CertVerifiesWithGroup(sha, certs[i], group) && (i > 0 ==> Continues(certs[i - 1], certs[i]))
        {
          IssuedIff(sha, certs, rootKey, group, i);
        }
      }
    }
  }

  lemma IssuedIff(sha: Hasher, certs: seq<Cert>, rootKey: Bytes, group: Option<Group>, i: nat)
    requires i < |certs| && GenesisOf(certs[0], rootKey)
    ensures CertVerifiesWithGroup(sha, certs[i], group) && (i > 0 ==> Continues(certs[i - 1], certs[i])) <==>
            Issued(sha, certs, i, group) && (i > 0 ==> NextInTime(certs[i - 1], certs[i]))
  {
    hide CertBytes, MadeBy, MadeByGroup, CertVerifiesWithGroup, Continues, NextInTime;
    if i > 0 {
      SuccessorIff(sha, certs[i - 1], certs[i], group);
    } else {
      GenesisIff(sha, certs[0], rootKey, group);
    }
  }

  lemma SuccessorIff(sha: Hasher, prev: Cert, c: Cert, group: Option<Group>)
    ensures CertVerifiesWithGroup(sha, c, group) && Continues(prev, c) <==>
            (if c.memberSigs == [] then MadeBy(prev, c) else MadeByGroup(sha, group, c)) && NextInTime(prev, c)
  {
    hide CertBytes, Accepted, Vouching;
    if group.Some? {
      AcceptedIff(group.value, CertBytes(c), c.memberSigs);
    }
  }

  lemma GenesisIff(sha: Hasher, c: Cert, rootKey: Bytes, group: Option<Group>)
    requires c.epoch == 0 && c.publicKey == rootKey == c.signedBy
    requires c.quantumPublicKey != [] ==> c.quantumSignedBy == c.quantumPublicKey
    ensures CertVerifiesWithGroup(sha, c, group) <==>
            if c.memberSigs == [] then MadeBy(c, c) else MadeByGroup(sha, group, c)
  {
    hide CertBytes, Accepted, Vouching;
    if group.Some? {
      AcceptedIff(group.value, CertBytes(c), c.memberSigs);
    }
  }

  lemma {:induction false} AcceptedNumbers(sha: Hasher, certs: seq<Cert>, rootKey: Bytes, group: Option<Group>, i: nat)
    requires ChainVerifies(sha, certs, rootKey, group) && i < |certs|
    ensures certs[i].epoch == i % TWO_TO_64
  {
    hide CertVerifiesWithGroup;
    if i > 0 {
      AcceptedNumbers(sha, certs, rootKey, group, i - 1);
      assert Continues(certs[i - 1], certs[i]);
    }
  }

  /** Every epoch up to the last has a key, and the lookup finds it. */
  lemma AcceptedNumbered(sha: Hasher, certs: seq<Cert>, rootKey: Bytes, group: Option<Group>)
    requires ChainVerifies(sha, certs, rootKey, group) && |certs| <= TWO_TO_64
    ensures Numbered(certs) && PublicKeyAt(certs, 0) == Some(rootKey)
    ensures forall i :: 0 <= i < |certs| ==> PublicKeyAt(certs, i) == Some(certs[i].publicKey)
  {
    hide ChainVerifies, PublicKeyAt;
    forall i | 0 <= i < |certs|
      ensures certs[i].epoch == i
    {
      AcceptedNumbers(sha, certs, rootKey, group, i);
    }
    forall i | 0 <= i < |certs|
      ensures PublicKeyAt(certs, i) == Some(certs[i].publicKey)
    {
      NumberedKey(certs, i);
    }
    AcceptedGenesis(sha, certs, rootKey, group);
  }

  /** The lookup of an epoch in an accepted chain, whatever its length, finds the certificate at that
      position. */
  lemma AcceptedKeyAt(sha: Hasher, certs: seq<Cert>, rootKey: Bytes, group: Option<Group>, epoch: U64)
    requires ChainVerifies(sha, certs, rootKey, group)
    ensures PublicKeyAt(certs, epoch).Some? <==> epoch < |certs|
    ensures epoch < |certs| ==> PublicKeyAt(certs, epoch) == Some(certs[epoch].publicKey)
    ensures epoch < |certs| ==>
              QuantumPublicKeyAt(certs, epoch) == if certs[epoch].quantumPublicKey == [] then None
                                                  else Some(certs[epoch].quantumPublicKey)
  {
    hide ChainVerifies, PublicKeyAt, QuantumPublicKeyAt;
    forall i | 0 <= i < |certs| && i <= epoch
      ensures certs[i].epoch == i
    {
      AcceptedNumbers(sha, certs, rootKey, group, i);
    }
    if epoch < |certs| {
      KeyAtFrom(certs, epoch, epoch);
    }
  }

  lemma AcceptedKeySizes(sha: Hasher, certs: seq<Cert>, rootKey: Bytes, i: nat)
    requires ChainVerifies(sha, certs, rootKey, None) && i < |certs|
    ensures |certs[i].publicKey| == PUBLIC_KEY_SIZE
    ensures certs[i].quantumPublicKey != [] ==> |certs[i].quantumPublicKey| == QUANTUM_PUBLIC_KEY_SIZE
  {
    hide CertBytes, ChainVerifies;
    ChainVerifiesIff(sha, certs, rootKey, None);
    assert Issued(sha, certs, i, None);
  }

  lemma AcceptedGenesis(sha: Hasher, certs: seq<Cert>, rootKey: Bytes, group: Option<Group>)
    requires ChainVerifies(sha, certs, rootKey, group)
    ensures certs != [] && certs[0].publicKey == rootKey
  {
    hide CertVerifiesWithGroup;
  }

  predicate SameKeySameText(s: Signature, t: Signature)
  {
    s.Signed? && t.Signed? && s.key == t.key ==> s.msg == t.msg
  }

  /** No key has signed two different successors at one position of the two chains. */
  ghost predicate OneSuccessorEach(a: seq<Cert>, b: seq<Cert>)
  {
    forall i :: 0 < i < |a| && i < |b| ==> SameKeySameText(a[i].signature, b[i].signature)
  }

  lemma SingleSigned(sha: Hasher, certs: seq<Cert>, rootKey: Bytes, i: nat)
    requires ChainVerifies(sha, certs, rootKey, None) && 0 < i < |certs|
    ensures certs[i].signature == Signed(Ed25519, certs[i - 1].publicKey, CertBytes(certs[i]))
  {
    hide CertBytes, QuantumCertVerifies;
    assert CertVerifiesWithGroup(sha, certs[i], None);
    assert Continues(certs[i - 1], certs[i]);
  }

  /** Two chains accepted under one root, whose keys each signed one successor, are the same chain as
      far as both go: same epochs, same keys, same start times. */
  lemma {:induction false} ChainsAgree(sha: Hasher, a: seq<Cert>, b: seq<Cert>, rootKey: Bytes, i: nat)
    requires ChainVerifies(sha, a, rootKey, None) && ChainVerifies(sha, b, rootKey, None)
    requires OneSuccessorEach(a, b) && i < |a| && i < |b|
    ensures a[i].publicKey == b[i].publicKey
    ensures i > 0 ==> a[i].epoch == b[i].epoch && a[i].startedAt == b[i].startedAt
    ensures i > 0 ==> a[i].quantumPublicKey == b[i].quantumPublicKey
  {
    hide ChainVerifies, CertBytes;
    AcceptedGenesis(sha, a, rootKey, None);
    AcceptedGenesis(sha, b, rootKey, None);
    if i > 0 {
      ChainsAgree(sha, a, b, rootKey, i - 1);
      SingleSigned(sha, a, rootKey, i);
      SingleSigned(sha, b, rootKey, i);
      CertTextDetermines(a[i], b[i]);
    }
  }

  // ---- Lookups ----

  /** `PublicKeyAt`: the key of the first certificate with the epoch. */
  function PublicKeyAt(certs: seq<Cert>, epoch: U64): (key: Option<Bytes>)
    ensures key.Some? <==> exists i :: 0 <= i < |certs| && certs[i].epoch == epoch
  {
    if certs == [] then None
    else if certs[0].epoch == epoch then Some(certs[0].publicKey)
    else PublicKeyAt(certs[1..], epoch)
  }

  /** `QuantumPublicKeyAt`; a classical certificate has none. */
  function QuantumPublicKeyAt(certs: seq<Cert>, epoch: U64): Option<Bytes>
  {
    if certs == [] then None
    else if certs[0].epoch == epoch then
      (if certs[0].quantumPublicKey == [] then None else Some(certs[0].quantumPublicKey))
    else QuantumPublicKeyAt(certs[1..], epoch)
  }

  /** A published key never changes when the chain grows. */
  lemma {:induction false} PublishedKeyStable(certs: seq<Cert>, more: seq<Cert>, epoch: U64)
    requires PublicKeyAt(certs, epoch).Some?
    ensures PublicKeyAt(certs + more, epoch) == PublicKeyAt(certs, epoch)
    ensures QuantumPublicKeyAt(certs + more, epoch) == QuantumPublicKeyAt(certs, epoch)
  {
    if certs[0].epoch != epoch {
      assert (certs + more)[1..] == certs[1..] + more;
      PublishedKeyStable(certs[1..], more, epoch);
    }
  }

  /** Epochs are exactly the positions 0..n. */
  ghost predicate Numbered(certs: seq<Cert>)
  {
    |certs| <= TWO_TO_64 && forall i :: 0 <= i < |certs| ==> certs[i].epoch == i
  }

  lemma {:induction false} KeyAtFrom(certs: seq<Cert>, i: nat, epoch: U64)
    requires i < |certs| && certs[i].epoch == epoch && forall j :: 0 <= j < i ==> certs[j].epoch != epoch
    ensures PublicKeyAt(certs, epoch) == Some(certs[i].publicKey)
    ensures QuantumPublicKeyAt(certs, epoch) == if certs[i].quantumPublicKey == [] then None
                                                else Some(certs[i].quantumPublicKey)
  {
    if i > 0 {
      assert certs[0].epoch != epoch;
      KeyAtFrom(certs[1..], i - 1, epoch);
    }
  }

  lemma NumberedKey(certs: seq<Cert>, i: nat)
    requires Numbered(certs) && i < |certs|
    ensures PublicKeyAt(certs, i) == Some(certs[i].publicKey)
    ensures certs[i].quantumPublicKey != [] ==> QuantumPublicKeyAt(certs, i) == Some(certs[i].quantumPublicKey)
  {
    KeyAtFrom(certs, i, i);
  }

  // ---- Chains the signer builds ----

  /** A self-produced certificate: single-signature, with a quantum half exactly in hybrid mode. */
  predicate OwnCert(c: Cert, hybrid: bool)
  {
    && CertVerifies(c) && c.groupDigest == []
    && (hybrid <==> c.quantumPublicKey != [])
    && (!hybrid ==> c.quantumSignedBy == [])
  }

  lemma QuantumKeySize(c: Cert, hybrid: bool)
    requires OwnCert(c, hybrid)
    ensures c.quantumPublicKey != [] ==> |c.quantumPublicKey| == QUANTUM_PUBLIC_KEY_SIZE
  {
    hide CertBytes;
  }

  /** `Continues`, the clock aside. */
  predicate LinksTo(prev: Cert, c: Cert)
  {
    && c.epoch == (prev.epoch + 1) % TWO_TO_64 && c.signedBy == prev.publicKey
    && (c.quantumPublicKey != [] || c.quantumSignedBy != [] ==> c.quantumSignedBy == prev.quantumPublicKey)
  }

  /** Everything `verifyChain` asks for except that start times do not go back. */
  ghost predicate Linked(certs: seq<Cert>, hybrid: bool)
  {
    && certs != [] && GenesisOf(certs[0], certs[0].publicKey) && Numbered(certs)
    && (forall i :: 0 <= i < |certs| ==> OwnCert(certs[i], hybrid))
    && (forall i :: 0 < i < |certs| ==> LinksTo(certs[i - 1], certs[i]))
  }

  ghost predicate TimesInOrder(certs: seq<Cert>)
  {
    forall i :: 0 < i < |certs| ==> certs[i - 1].startedAt <= certs[i].startedAt
  }

  /** A linked chain verifies exactly when its start times are in order: `Rotate` takes the time from
      the clock, and `verifyChain` refuses a clock that went back. */
  lemma LinkedVerifiesIff(sha: Hasher, certs: seq<Cert>, hybrid: bool)
    requires Linked(certs, hybrid)
    ensures ChainVerifies(sha, certs, certs[0].publicKey, None) <==> TimesInOrder(certs)
  {
    hide CertVerifies;
    assert forall i :: 0 <= i < |certs| ==> CertVerifiesWithGroup(sha, certs[i], None) by {
      OwnCertsVerify(sha, certs, hybrid);
    }
    if TimesInOrder(certs) {
      forall i | 0 < i < |certs|
        ensures Continues(certs[i - 1], certs[i])
      {
        assert LinksTo(certs[i - 1], certs[i]);
      }
    }
    if ChainVerifies(sha, certs, certs[0].publicKey, None) {
      forall i | 0 < i < |certs|
        ensures certs[i - 1].startedAt <= certs[i].startedAt
      {
        assert Continues(certs[i - 1], certs[i]);
      }
    }
  }

  lemma OwnCertsVerify(sha: Hasher, certs: seq<Cert>, hybrid: bool)
    requires forall i :: 0 <= i < |certs| ==> OwnCert(certs[i], hybrid)
    ensures forall i :: 0 <= i < |certs| ==> CertVerifiesWithGroup(sha, certs[i], None)
  {
    forall i | 0 <= i < |certs|
      ensures CertVerifiesWithGroup(sha, certs[i], None)
    {
      assert OwnCert(certs[i], hybrid);
    }
  }

  // ---- The certificates the signer issues ----

  function Signed1(c: Cert, key: Bytes): Cert { c.(signature := Signed(Ed25519, key, CertBytes(c))) }

  function Signed2(c: Cert, key: Bytes, quantumKey: Bytes): Cert
  {
    c.(signature := Signed(Ed25519, key, CertBytes(c)),
       quantumSignature := Signed(Dilithium3, quantumKey, CertBytes(c)))
  }

  function UnsignedCert(epoch: U64, key: Bytes, quantumKey: Bytes, now: I64, signedBy: Bytes,
                        quantumSignedBy: Bytes): Cert
  {
    Cert(epoch, key, now, signedBy, NoSignature, quantumKey, quantumSignedBy, NoSignature, [], [])
  }

  /** `createGenesis`: self-signed, in both halves when the key is hybrid. */
  function GenesisCert(key: Bytes, quantumKey: Bytes, now: I64): Cert
  {
    var c := UnsignedCert(0, key, quantumKey, now, key, quantumKey);
    if quantumKey == [] then Signed1(c, key) else Signed2(c, key, quantumKey)
  }

  /** `Rotate`: the next epoch's key, signed by the one before. */
  function NextCert(prev: Cert, key: Bytes, quantumKey: Bytes, now: I64): Cert
  {
    var c := UnsignedCert((prev.epoch + 1) % TWO_TO_64, key, quantumKey, now, prev.publicKey,
                          if quantumKey == [] then [] else prev.quantumPublicKey);
    if quantumKey == [] || prev.quantumPublicKey == [] then Signed1(c, prev.publicKey)
    else Signed2(c, prev.publicKey, prev.quantumPublicKey)
  }

  /** Keys of the right size, with a quantum half exactly in hybrid mode. */
  predicate KeysOk(key: Bytes, quantumKey: Bytes, hybrid: bool)
  {
    |key| == PUBLIC_KEY_SIZE && |quantumKey| == if hybrid then QUANTUM_PUBLIC_KEY_SIZE else 0
  }

  lemma GenesisLinked(key: Bytes, quantumKey: Bytes, now: I64, hybrid: bool)
    requires KeysOk(key, quantumKey, hybrid)
    ensures Linked([GenesisCert(key, quantumKey, now)], hybrid)
  {
    hide Render, Hex, Dec, DecSigned, Text;
    assert OwnCert(GenesisCert(key, quantumKey, now), hybrid);
  }

  lemma NextOwn(prev: Cert, key: Bytes, quantumKey: Bytes, now: I64, hybrid: bool)
    requires OwnCert(prev, hybrid) && KeysOk(key, quantumKey, hybrid)
    ensures OwnCert(NextCert(prev, key, quantumKey, now), hybrid) && LinksTo(prev, NextCert(prev, key, quantumKey, now))
  {
    hide Render, Hex, Dec, DecSigned, Text;
  }

  lemma NextLinked(certs: seq<Cert>, key: Bytes, quantumKey: Bytes, now: I64, hybrid: bool)
    requires Linked(certs, hybrid) && |certs| < TWO_TO_64 && KeysOk(key, quantumKey, hybrid)
    ensures Linked(certs + [NextCert(certs[|certs| - 1], key, quantumKey, now)], hybrid)
  {
    hide CertVerifies, NextCert;
    var last := certs[|certs| - 1];
    NextOwn(last, key, quantumKey, now, hybrid);
    AppendLinked(certs, NextCert(last, key, quantumKey, now), hybrid);
  }

  lemma AppendLinked(certs: seq<Cert>, c: Cert, hybrid: bool)
    requires Linked(certs, hybrid) && |certs| < TWO_TO_64
    requires OwnCert(c, hybrid) && LinksTo(certs[|certs| - 1], c)
    ensures Linked(certs + [c], hybrid)
  {
    hide OwnCert, GenesisOf;
    var n, all := |certs|, certs + [c];
    assert all[0] == certs[0] && all[n] == c && all[n - 1] == certs[n - 1];
    assert c.epoch == n;
    LinksAppend(certs, c);
  }

  lemma LinksAppend(certs: seq<Cert>, c: Cert)
    requires certs != [] && LinksTo(certs[|certs| - 1], c)
    requires forall i :: 0 < i < |certs| ==> LinksTo(certs[i - 1], certs[i])
    ensures forall i :: 0 < i < |certs + [c]| ==> LinksTo((certs + [c])[i - 1], (certs + [c])[i])
  {
    hide LinksTo;
  }

  /** A clock that went back between two rotations makes a chain its own verifier refuses. */
  lemma BackwardClockExample(sha: Hasher)
    ensures var key: Bytes := seq(PUBLIC_KEY_SIZE, _ => 1);
            var genesis := GenesisCert(key, [], 5);
            var certs := [genesis, NextCert(genesis, key, [], 4)];
            Linked(certs, false) && !ChainVerifies(sha, certs, key, None)
  {
    hide OwnCert, LinksTo, GenesisOf, CertBytes, CertVerifiesWithGroup;
    var key: Bytes := seq(PUBLIC_KEY_SIZE, _ => 1);
    var genesis := GenesisCert(key, [], 5);
    GenesisLinked(key, [], 5, false);
    NextLinked([genesis], key, [], 4, false);
    var certs := [genesis, NextCert(genesis, key, [], 4)];
    assert certs == [genesis] + [NextCert(genesis, key, [], 4)];
    assert !Continues(certs[1 - 1], certs[1]);
  }
}
