/** `pkg/threshold`: t-of-N groups, their canonical bytes, and the verification of a list of member
    signatures. */
module Threshold {
  import opened Encoding
  import opened Crypto
  import opened Options

  datatype Member = Member(id: Bytes, publicKey: Bytes, quantumPublicKey: Bytes, endpoint: Bytes, description: Bytes)

  datatype Group = Group(version: nat, origin: Bytes, members: seq<Member>, threshold: nat, createdAt: I64)

  datatype MemberSig = MemberSig(memberId: Bytes, publicKey: Bytes, signature: Signature, signedAt: int,
                                 quantumPublicKey: Bytes, quantumSignature: Signature)

  // ---- Group.Validate ----

  ghost predicate ValidGroup(g: Group)
  {
    && g.version == 1 && g.origin != [] && 0 < g.threshold <= |g.members|
    && (forall i :: 0 <= i < |g.members| ==> g.members[i].id != [] && |g.members[i].publicKey| == PUBLIC_KEY_SIZE)
    && (forall i, j :: 0 <= i < j < |g.members| ==> g.members[i].id != g.members[j].id)
    && (forall i, j :: 0 <= i < j < |g.members| ==> g.members[i].publicKey != g.members[j].publicKey)
  }

  /** `Group.Validate`: the two seen-maps find exactly the duplicate IDs and keys. */
  method Validate(group: Option<Group>) returns (ok: bool)
    ensures ok <==> group.Some? && ValidGroup(group.value)
    ensures ok ==> group.value.version == 1 && group.value.origin != []
    ensures ok ==> forall m :: m in group.value.members ==> m.id != [] && |m.publicKey| == PUBLIC_KEY_SIZE
  {
    hide Hex;
    if group.None? {
      return false;
    }
    var g := group.value;
    if g.version != 1 || g.origin == [] || |g.members| == 0 || g.threshold == 0 || g.threshold > |g.members| {
      return false;
    }
    var seenId: set<Bytes>, seenPub: set<Bytes> := {}, {};
    for k := 0 to |g.members|
      invariant seenId == set i | 0 <= i < k :: g.members[i].id
      invariant seenPub == set i | 0 <= i < k :: Hex(g.members[i].publicKey)
      invariant forall i :: 0 <= i < k ==> g.members[i].id != [] && |g.members[i].publicKey| == PUBLIC_KEY_SIZE
      invariant forall i, j :: 0 <= i < j < k ==> g.members[i].id != g.members[j].id
      invariant forall i, j :: 0 <= i < j < k ==> g.members[i].publicKey != g.members[j].publicKey
    {
      var m := g.members[k];
      if m.id == [] || m.id in seenId {
        return false;
      }
      seenId := seenId + {m.id};
      if |m.publicKey| != PUBLIC_KEY_SIZE {
        return false;
      }
      var pkHex := Hex(m.publicKey);
      if pkHex in seenPub {
        var i :| 0 <= i < k && Hex(g.members[i].publicKey) == pkHex;
        HexInjective(g.members[i].publicKey, m.publicKey);
        return false;
      }
      seenPub := seenPub + {pkHex};
    }
    return true;
  }

  /** `MemberByID`: the first member with the ID. */
  function MemberById(members: seq<Member>, id: Bytes): (m: Option<Member>)
    ensures m.Some? ==> m.value in members && m.value.id == id
    ensures m.None? ==> forall i :: 0 <= i < |members| ==> members[i].id != id
  {
    if members == [] then None
    else if members[0].id == id then Some(members[0])
    else MemberById(members[1..], id)
  }

  // ---- VerifyMulti ----

  /** `MemberSig.Verify`. */
  predicate SigVerifies(s: MemberSig, msg: Bytes)
  {
    && |s.publicKey| == PUBLIC_KEY_SIZE && s.signature.Length() == SIGNATURE_SIZE
    && EdVerify(s.publicKey, msg, s.signature)
  }

  /** One signature that counts: from a listed member, under the listed key or keys. */
  predicate Counts(g: Group, msg: Bytes, s: MemberSig)
  {
    var m := MemberById(g.members, s.memberId);
    && m.Some?
    && s.publicKey == m.value.publicKey
    && SigVerifies(s, msg)
    && (m.value.quantumPublicKey != [] ==>
          && s.quantumPublicKey == m.value.quantumPublicKey
          && QuantumVerify(s.quantumPublicKey, msg, s.quantumSignature))
  }

  /** The members with at least one signature that counts. */
  ghost function Signers(g: Group, msg: Bytes, sigs: seq<Option<MemberSig>>): set<Bytes>
  {
    set i | 0 <= i < |sigs| && sigs[i].Some? && Counts(g, msg, sigs[i].value) :: sigs[i].value.memberId
  }

  ghost predicate Accepted(g: Group, msg: Bytes, sigs: seq<Option<MemberSig>>)
  {
    ValidGroup(g) && |Signers(g, msg, sigs)| >= g.threshold
  }

  lemma SignersStep(g: Group, msg: Bytes, sigs: seq<Option<MemberSig>>, k: nat)
    requires k < |sigs|
    ensures Signers(g, msg, sigs[..k + 1])
         == Signers(g, msg, sigs[..k])
            + if sigs[k].Some? && Counts(g, msg, sigs[k].value) then {sigs[k].value.memberId} else {}
  {
    hide Counts;
    var a, b := sigs[..k], sigs[..k + 1];
    assert forall i :: 0 <= i < k ==> a[i] == b[i];
    assert b[k] == sigs[k];
  }

  lemma NoSigners(group: Option<Group>, msg: Bytes)
    ensures group.Some? ==> Signers(group.value, msg, []) == {}
  {
  }

  /** The checks of one list element in `VerifyMulti`. */
  method CheckSig(g: Group, msg: Bytes, s: MemberSig) returns (ok: bool)
    ensures ok <==> Counts(g, msg, s)
  {
    hide MemberById, Hex;
    var member := MemberById(g.members, s.memberId);
    if member.None? {
      return false;
    }
    var m := member.value;
    if Hex(s.publicKey) != Hex(m.publicKey) {
      return false;
    }
    HexInjective(s.publicKey, m.publicKey);
    if !SigVerifies(s, msg) {
      return false;
    }
    if |m.quantumPublicKey| > 0 {
      if |s.quantumPublicKey| == 0 || s.quantumSignature.Length() == 0 {
        return false;
      }
      if Hex(s.quantumPublicKey) != Hex(m.quantumPublicKey) {
        return false;
      }
      HexInjective(s.quantumPublicKey, m.quantumPublicKey);
      if !QuantumVerify(s.quantumPublicKey, msg, s.quantumSignature) {
        return false;
      }
    }
    return true;
  }

  // ---- What an accepted list means ----

  /** A signature of the member itself on `msg`: under the listed key and, if a quantum key is listed, under
      that one too. */
  predicate SignedBy(m: Member, msg: Bytes, s: MemberSig)
  {
    && s.memberId == m.id && s.publicKey == m.publicKey && s.signature == Signed(Ed25519, m.publicKey, msg)
    && (m.quantumPublicKey != [] ==>
          && |m.quantumPublicKey| == QUANTUM_PUBLIC_KEY_SIZE && s.quantumPublicKey == m.quantumPublicKey
          && s.quantumSignature == Signed(Dilithium3, m.quantumPublicKey, msg))
  }

  /** The members that signed. */
  ghost function Vouching(g: Group, msg: Bytes, sigs: seq<Option<MemberSig>>): set<Member>
  {
    set m | m in g.members && (exists i :: 0 <= i < |sigs| && sigs[i].Some? && SignedBy(m, msg, sigs[i].value))
  }

  ghost function IdsOf(ms: set<Member>): set<Bytes> { set m | m in ms :: m.id }

  lemma {:induction false} IdsOfCount(ms: set<Member>)
    requires forall m, n :: m in ms && n in ms && m.id == n.id ==> m == n
    ensures |IdsOf(ms)| == |ms|
  {
    if ms != {} {
      var m :| m in ms;
      IdsOfCount(ms - {m});
      assert IdsOf(ms) == IdsOf(ms - {m}) + {m.id};
    }
  }

  lemma DistinctIds(g: Group, m: Member, n: Member)
    requires ValidGroup(g) && m in g.members && n in g.members && m.id == n.id
    ensures m == n && MemberById(g.members, m.id) == Some(m)
  {
    var i :| 0 <= i < |g.members| && g.members[i] == m;
    var j :| 0 <= j < |g.members| && g.members[j] == n;
    assert !(i < j) && !(j < i);
    var found := MemberById(g.members, m.id);
    var k :| 0 <= k < |g.members| && g.members[k] == found.value;
    assert !(i < k) && !(k < i);
  }

  /** A signature counts exactly when it is a listed member's own. */
  lemma CountsIff(g: Group, msg: Bytes, s: MemberSig)
    requires ValidGroup(g)
    ensures Counts(g, msg, s) <==> exists m :: m in g.members && SignedBy(m, msg, s)
  {
    hide MemberById;
    var found := MemberById(g.members, s.memberId);
    if Counts(g, msg, s) {
      assert SignedBy(found.value, msg, s);
    }
    if m :| m in g.members && SignedBy(m, msg, s) {
      DistinctIds(g, m, m);
      assert |m.publicKey| == PUBLIC_KEY_SIZE;
    }
  }

  lemma SignersAreVouching(g: Group, msg: Bytes, sigs: seq<Option<MemberSig>>)
    requires ValidGroup(g)
    ensures Signers(g, msg, sigs) == IdsOf(Vouching(g, msg, sigs))
  {
    hide Counts, SignedBy, ValidGroup;
    var vouching := Vouching(g, msg, sigs);
    forall i | 0 <= i < |sigs| && sigs[i].Some?
      ensures Counts(g, msg, sigs[i].value) ==> sigs[i].value.memberId in IdsOf(vouching)
    {
      CountsIff(g, msg, sigs[i].value);
      if m :| m in g.members && SignedBy(m, msg, sigs[i].value) {
        SignedUnder(m, msg, sigs[i].value);
        assert m in vouching;
      }
    }
    forall m | m in vouching
      ensures m.id in Signers(g, msg, sigs)
    {
      var i :| 0 <= i < |sigs| && sigs[i].Some? && SignedBy(m, msg, sigs[i].value);
      CountsIff(g, msg, sigs[i].value);
      SignedUnder(m, msg, sigs[i].value);
    }
  }

  lemma SignedUnder(m: Member, msg: Bytes, s: MemberSig)
    requires SignedBy(m, msg, s)
    ensures s.memberId == m.id && s.signature == Signed(Ed25519, m.publicKey, msg)
  {
  }

  /** A list is accepted exactly when enough members signed. */
  lemma AcceptedIff(g: Group, msg: Bytes, sigs: seq<Option<MemberSig>>)
    ensures Accepted(g, msg, sigs) <==> ValidGroup(g) && |Vouching(g, msg, sigs)| >= g.threshold
  {
    hide Signers, Vouching;
    if ValidGroup(g) {
      SignersAreVouching(g, msg, sigs);
      VouchingListed(g, msg, sigs);
      forall m, n | m in Vouching(g, msg, sigs) && n in Vouching(g, msg, sigs) && m.id == n.id
        ensures m == n
      {
        DistinctIds(g, m, n);
      }
      IdsOfCount(Vouching(g, msg, sigs));
    }
  }

  lemma VouchingListed(g: Group, msg: Bytes, sigs: seq<Option<MemberSig>>)
    ensures forall m :: m in Vouching(g, msg, sigs) ==> m in g.members
  {
  }

  /** No key but those in `signers` has signed `msg`. */
  ghost predicate OnlySignedBy(signers: set<Bytes>, msg: Bytes, sigs: seq<Option<MemberSig>>)
  {
    forall i, key :: 0 <= i < |sigs| && sigs[i].Some? && sigs[i].value.signature == Signed(Ed25519, key, msg) ==>
                       key in signers
  }

  ghost function KeysOf(ms: set<Member>): set<Bytes> { set m | m in ms :: m.publicKey }

  lemma {:induction false} KeysOfCount(ms: set<Member>)
    requires forall m, n :: m in ms && n in ms && m.publicKey == n.publicKey ==> m == n
    ensures |KeysOf(ms)| == |ms|
  {
    if ms != {} {
      var m :| m in ms;
      KeysOfCount(ms - {m});
      assert KeysOf(ms) == KeysOf(ms - {m}) + {m.publicKey};
    }
  }

  lemma DistinctKeys(g: Group, m: Member, n: Member)
    requires ValidGroup(g) && m in g.members && n in g.members && m.publicKey == n.publicKey
    ensures m == n
  {
    var i :| 0 <= i < |g.members| && g.members[i] == m;
    var j :| 0 <= j < |g.members| && g.members[j] == n;
    assert !(i < j) && !(j < i);
  }

  /** If fewer than the threshold of the listed keys have signed a message, or none, every list for it is
      refused. */
  lemma FewSignersRefused(g: Group, msg: Bytes, sigs: seq<Option<MemberSig>>, signers: set<Bytes>)
    requires OnlySignedBy(signers, msg, sigs)
    requires var able := signers * KeysOf(set m | m in g.members); |able| < g.threshold || able == {}
    ensures !Accepted(g, msg, sigs)
  {
    hide ValidGroup, Accepted, SignedBy;
    AcceptedIff(g, msg, sigs);
    var able, vouching := signers * KeysOf(set m | m in g.members), Vouching(g, msg, sigs);
    forall m | m in vouching
      ensures m.publicKey in able
    {
      var i :| 0 <= i < |sigs| && sigs[i].Some? && SignedBy(m, msg, sigs[i].value);
      SignedUnder(m, msg, sigs[i].value);
    }
    if ValidGroup(g) {
      forall m, n | m in vouching && n in vouching && m.publicKey == n.publicKey
        ensures m == n
      {
        DistinctKeys(g, m, n);
      }
      KeysOfCount(vouching);
      SubsetSize(KeysOf(vouching), able);
      NeedsOne(g);
    }
  }

  lemma NeedsOne(g: Group)
    requires ValidGroup(g)
    ensures 0 < g.threshold <= |g.members|
  {
  }

  /** What member `m` sends back when it signs. */
  function OwnSig(m: Member, msg: Bytes, now: int): MemberSig
  {
    MemberSig(m.id, m.publicKey, Signed(Ed25519, m.publicKey, msg), now, m.quantumPublicKey,
              if m.quantumPublicKey == [] then NoSignature else Signed(Dilithium3, m.quantumPublicKey, msg))
  }

  /** The signatures of any members of a valid group are accepted exactly when there are enough of them. */
  lemma OwnSigsAcceptedIff(g: Group, msg: Bytes, ms: set<Member>, sigs: seq<Option<MemberSig>>, now: int)
    requires ValidGroup(g) && forall m :: m in ms ==> m in g.members
    requires forall m :: m in ms && m.quantumPublicKey != [] ==> |m.quantumPublicKey| == QUANTUM_PUBLIC_KEY_SIZE
    requires forall m :: m in ms ==> Some(OwnSig(m, msg, now)) in sigs
    requires forall s :: s in sigs ==> exists m :: m in ms && s == Some(OwnSig(m, msg, now))
    ensures Accepted(g, msg, sigs) <==> |ms| >= g.threshold
  {
    hide ValidGroup, Accepted, SignedBy;
    AcceptedIff(g, msg, sigs);
    forall m | m in ms
      ensures m in Vouching(g, msg, sigs)
    {
      OwnSigSigned(m, msg, now);
      var i :| 0 <= i < |sigs| && sigs[i] == Some(OwnSig(m, msg, now));
    }
    forall m | m in Vouching(g, msg, sigs)
      ensures m in ms
    {
      var i :| 0 <= i < |sigs| && sigs[i].Some? && SignedBy(m, msg, sigs[i].value);
      assert sigs[i] in sigs;
      var n :| n in ms && sigs[i] == Some(OwnSig(n, msg, now));
      SignedUnder(m, msg, sigs[i].value);
      DistinctKeys(g, m, n);
    }
    assert Vouching(g, msg, sigs) == ms;
  }

  lemma OwnSigSigned(m: Member, msg: Bytes, now: int)
    requires m.quantumPublicKey != [] ==> |m.quantumPublicKey| == QUANTUM_PUBLIC_KEY_SIZE
    ensures SignedBy(m, msg, OwnSig(m, msg, now))
  {
  }

  /** `VerifyMulti` accepts exactly when enough distinct members have signed, whatever else the list holds
      and in whatever order. */
  method VerifyMulti(group: Option<Group>, msg: Bytes, sigs: seq<Option<MemberSig>>) returns (ok: bool)
    ensures ok <==> group.Some? && Accepted(group.value, msg, sigs)
    ensures ok <==> group.Some? && ValidGroup(group.value)
                    && |Vouching(group.value, msg, sigs)| >= group.value.threshold
  {
    hide Counts, Signers, Vouching;
    if group.Some? {
      AcceptedIff(group.value, msg, sigs);
    }
    NoSigners(group, msg);
    var valid := Validate(group);
    if !valid {
      return false;
    }
    var g := group.value;
    if |sigs| == 0 {
      return false;
    }
    var counted: set<Bytes>, count := {}, 0;
    assert sigs[..0] == [];
    for k := 0 to |sigs|
      invariant counted == Signers(g, msg, sigs[..k]) && count == |counted|
    {
      SignersStep(g, msg, sigs, k);
      if sigs[k].None? {
        continue;
      }
      var s := sigs[k].value;
      if s.memberId in counted {
        continue;
      }
      var counts := CheckSig(g, msg, s);
      if !counts {
        continue;
      }
      counted := counted + {s.memberId};
      count := count + 1;
    }
    assert sigs[..|sigs|] == sigs;
    return count >= g.threshold;
  }

  /** Order, repetition and junk do not matter: lists whose counting signatures are the same decide
      the same. */
  lemma OnlyCountingSigsMatter(g: Group, msg: Bytes, a: seq<Option<MemberSig>>, b: seq<Option<MemberSig>>)
    requires forall s :: Counts(g, msg, s) ==> (Some(s) in a <==> Some(s) in b)
    ensures Signers(g, msg, a) == Signers(g, msg, b)
    ensures Accepted(g, msg, a) <==> Accepted(g, msg, b)
  {
    hide Counts;
    SignersWithin(g, msg, a, b);
    SignersWithin(g, msg, b, a);
  }

  lemma SignersWithin(g: Group, msg: Bytes, a: seq<Option<MemberSig>>, b: seq<Option<MemberSig>>)
    requires forall s :: Counts(g, msg, s) && Some(s) in a ==> Some(s) in b
    ensures Signers(g, msg, a) <= Signers(g, msg, b)
  {
    hide Counts;
    forall i | 0 <= i < |a| && a[i].Some? && Counts(g, msg, a[i].value)
      ensures a[i].value.memberId in Signers(g, msg, b)
    {
      assert Some(a[i].value) in b;
      var j :| 0 <= j < |b| && b[j] == a[i];
    }
  }

  ghost function MemberIds(g: Group): set<Bytes>
  {
    set i | 0 <= i < |g.members| :: g.members[i].id
  }

  lemma {:induction false} IdsCount(members: seq<Member>)
    ensures |set i | 0 <= i < |members| :: members[i].id| <= |members|
  {
    if members != [] {
      var last, rest := |members| - 1, members[..|members| - 1];
      IdsCount(rest);
      assert forall i :: 0 <= i < last ==> rest[i] == members[i];
      assert (set i | 0 <= i < |members| :: members[i].id)
          == (set i | 0 <= i < |rest| :: rest[i].id) + {members[last].id};
    }
  }

  lemma SignersAreMembers(g: Group, msg: Bytes, sigs: seq<Option<MemberSig>>)
    ensures Signers(g, msg, sigs) <= MemberIds(g)
  {
  }

  /** Two accepted lists, over any two messages, share at least `2t - N` signers. */
  lemma AcceptedListsOverlap(g: Group, msg1: Bytes, sigs1: seq<Option<MemberSig>>, msg2: Bytes,
                             sigs2: seq<Option<MemberSig>>)
    requires Accepted(g, msg1, sigs1) && Accepted(g, msg2, sigs2)
    ensures |Signers(g, msg1, sigs1) * Signers(g, msg2, sigs2)| >= 2 * g.threshold - |g.members|
  {
    hide Counts;
    var s1, s2, ids := Signers(g, msg1, sigs1), Signers(g, msg2, sigs2), MemberIds(g);
    SignersAreMembers(g, msg1, sigs1);
    SignersAreMembers(g, msg2, sigs2);
    IdsCount(g.members);
    Overlap(s1, s2, ids);
  }

  lemma Overlap<T>(a: set<T>, b: set<T>, all: set<T>)
    requires a <= all && b <= all
    ensures |a * b| >= |a| + |b| - |all|
  {
    assert |a + b| == |a| + |b| - |a * b|;
    SubsetSize(a + b, all);
  }

  lemma {:induction false} SubsetSize<T>(a: set<T>, b: set<T>)
    requires a <= b
    ensures |a| <= |b|
  {
    assert b == a + (b - a);
    assert a !! (b - a);
  }
}
