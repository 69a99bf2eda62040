/** `pkg/logentry` and the entry-chain check of `pkg/verify`: the head hash commits to the whole log. */
module LogEntry {
  import opened Encoding
  import opened Hashing
  import opened Crypto
  import opened Fields
  import opened Attest
  import opened Options

  datatype Entry = Entry(
    index: U64, timeNanos: I64, prevHash: Bytes, envelope: Option<Envelope>, honeypot: bool,
    entryHash: Bytes, leafHash: Bytes)

  /** The predecessor hash of the first entry. */
  function ZeroHash(): Digest { seq(32, _ => 0) }

  function EnvelopeDigest(sha: Hasher, e: Entry): Digest
  {
    if e.envelope.None? then ZeroHash() else EnvelopeHash(sha, e.envelope.value)
  }

  /** An absent predecessor is encoded as the zero hash. */
  function PrevOf(e: Entry): Bytes { if e.prevHash == [] then ZeroHash() else e.prevHash }

  /** The hashed fields. */
  function EntryFields(sha: Hasher, e: Entry): seq<Field>
  {
    [ Word64(e.index), Word64(TwosComplement(e.timeNanos)),
      Blob(PrevOf(e)), Blob(EnvelopeDigest(sha, e)), Flag(e.honeypot) ]
  }

  function EntryBytes(sha: Hasher, e: Entry): Bytes { Encode(EntryFields(sha, e)) }

  /** `Entry.Canonical` as written. */
  method WriteEntry(sha: Hasher, e: Entry) returns (buf: Bytes)
    ensures buf == EntryBytes(sha, e)
  {
    hide Encode, U64Bytes, U32Bytes, EnvelopeDigest;
    var prev: Bytes := e.prevHash;
    if |prev| == 0 {
      prev := ZeroHash();
    }
    var envHash: Bytes := EnvelopeDigest(sha, e);
    ghost var fs := EntryFields(sha, e);
    forall k | 0 <= k < |fs|
      ensures Encode(fs[..k + 1]) == Encode(fs[..k]) + EncodeField(fs[k])
    {
      EncodeNext(fs, k);
    }
    NothingEncoded();
    assert fs[..0] == [] && fs[..5] == fs;
    buf := [];
    buf := buf + U64Bytes(e.index);
    assert buf == Encode(fs[..0 + 1]);
    buf := buf + I64Bytes(e.timeNanos);
    assert buf == Encode(fs[..1 + 1]);
    buf := buf + Put(prev);
    assert buf == Encode(fs[..2 + 1]);
    buf := buf + Put(envHash);
    assert buf == Encode(fs[..3 + 1]);
    buf := buf + [if e.honeypot then 1 else 0];
    assert buf == Encode(fs[..4 + 1]);
  }

  function ENTRY_SHAPE(): seq<Field> { [Word64(0), Word64(0), Blob([]), Blob([]), Flag(false)] }

  /** What the hashed bytes of an entry say. */
  datatype EntryText = EntryText(index: U64, timeNanos: I64, prevHash: Bytes, envelopeHash: Bytes, honeypot: bool)

  /** Reads index, time, predecessor, envelope hash and mark, in this order. */
  function ReadEntry(b: Bytes): Option<EntryText>
  {
    match ReadFields(ENTRY_SHAPE(), b)
    case None => None
    case Some((fs, rest)) =>
      var shape := ENTRY_SHAPE();
      assert Alike(shape[0], fs[0]) && Alike(shape[1], fs[1]) && Alike(shape[2], fs[2]) && Alike(shape[3], fs[3]);
      assert Alike(shape[4], fs[4]);
      if rest != [] then None
      else Some(EntryText(fs[0].u, FromTwosComplement(fs[1].u), fs[2].bytes, fs[3].bytes, fs[4].bit))
  }

  /** Everything hashed can be read from the hashed bytes; an absent predecessor reads as 32 zero bytes. */
  lemma EntryReadBack(sha: Hasher, e: Entry)
    requires |e.prevHash| < TWO_TO_32
    ensures ReadEntry(EntryBytes(sha, e))
         == Some(EntryText(e.index, e.timeNanos, if e.prevHash == [] then seq(32, _ => 0) else e.prevHash,
                           if e.envelope.None? then seq(32, _ => 0) else sha(Canonical(e.envelope.value)), e.honeypot))
  {
    hide Encode, ReadFields, Canonical;
    var fs := EntryFields(sha, e);
    ReadBack(ENTRY_SHAPE(), fs, []);
    assert Encode(fs) + [] == Encode(fs);
    TwosComplementReadBack(e.timeNanos);
  }

  /** `Seal`. */
  function Seal(sha: Hasher, e: Entry): Entry
  {
    e.(entryHash := sha(EntryBytes(sha, e)), leafHash := LeafHash(sha, EntryBytes(sha, e)))
  }

  /** `New`: an entry that follows the given head, already sealed. */
  function NewEntry(sha: Hasher, idx: U64, prevHash: Option<Bytes>, env: Envelope, honeypot: bool, now: I64): Entry
  {
    Seal(sha, Entry(idx, now, if prevHash.None? then ZeroHash() else prevHash.value, Some(env), honeypot, [], []))
  }

  /** `Entry.Verify`. */
  predicate SelfVerifies(sha: Hasher, e: Entry)
  {
    && e.envelope.Some? && Verifies(sha, e.envelope.value)
    && e.entryHash == sha(EntryBytes(sha, e))
    && e.leafHash == LeafHash(sha, EntryBytes(sha, e))
  }

  /** `Entry.VerifyChain`; the index of the successor wraps at 64 bits. */
  predicate Follows(prev: Option<Entry>, e: Entry)
  {
    match prev
    case None => e.prevHash == ZeroHash() && e.index == 0
    case Some(p) => e.index == (p.index + 1) % TWO_TO_64 && e.prevHash == p.entryHash
  }

  function Before(entries: seq<Entry>, i: nat): Option<Entry>
    requires i <= |entries|
  {
    if i == 0 then None else Some(entries[i - 1])
  }

  /** Every entry checks out and follows the one before it. */
  ghost predicate VerifiedChain(sha: Hasher, entries: seq<Entry>)
  {
    forall i :: 0 <= i < |entries| ==> SelfVerifies(sha, entries[i]) && Follows(Before(entries, i), entries[i])
  }

  /** `Verifier.EntryChain`: accepts exactly the non-empty verified chains. */
  method EntryChain(sha: Hasher, entries: seq<Entry>) returns (ok: bool)
    ensures ok <==> entries != [] && VerifiedChain(sha, entries)
  {
    hide SelfVerifies, Follows;
    if |entries| == 0 {
      return false;
    }
    var prev: Option<Entry> := None;
    for i := 0 to |entries|
      invariant prev == Before(entries, i)
      invariant forall j :: 0 <= j < i ==> SelfVerifies(sha, entries[j]) && Follows(Before(entries, j), entries[j])
    {
      if !SelfVerifies(sha, entries[i]) {
        return false;
      }
      if !Follows(prev, entries[i]) {
        return false;
      }
      prev := Some(entries[i]);
    }
    return true;
  }

  lemma ChainExtends(sha: Hasher, entries: seq<Entry>, e: Entry)
    requires VerifiedChain(sha, entries)
    ensures VerifiedChain(sha, entries + [e]) <==> SelfVerifies(sha, e) && Follows(Before(entries, |entries|), e)
  {
    hide SelfVerifies, Follows;
    var all, n := entries + [e], |entries|;
    assert all[n] == e && Before(all, n) == Before(entries, n);
    forall i | 0 <= i < n
      ensures all[i] == entries[i] && Before(all, i) == Before(entries, i)
    {
    }
  }

  lemma ChainPrefix(sha: Hasher, entries: seq<Entry>, n: nat)
    requires VerifiedChain(sha, entries) && n <= |entries|
    ensures VerifiedChain(sha, entries[..n])
  {
    hide SelfVerifies, Follows;
    forall i | 0 <= i < n
      ensures entries[..n][i] == entries[i] && Before(entries[..n], i) == Before(entries, i)
    {
    }
  }

  /** What `EntryChain` is documented to check: a contiguous part of a chain, starting anywhere. */
  ghost predicate Segment(sha: Hasher, entries: seq<Entry>)
  {
    && (forall i :: 0 <= i < |entries| ==> SelfVerifies(sha, entries[i]))
    && (forall i :: 0 < i < |entries| ==> Follows(Some(entries[i - 1]), entries[i]))
    && (entries != [] ==> (entries[0].prevHash == ZeroHash() <==> entries[0].index == 0))
  }

  /** Of the documented segments the code accepts exactly those that start at index 0. */
  lemma ChainIsFirstSegment(sha: Hasher, entries: seq<Entry>)
    requires entries != []
    ensures VerifiedChain(sha, entries) <==> Segment(sha, entries) && entries[0].index == 0
  {
    hide SelfVerifies;
    forall i | 0 < i < |entries|
      ensures Before(entries, i) == Some(entries[i - 1])
    {
    }
  }

  /** So every proper tail of a verified chain is a segment as documented, and is refused. */
  lemma TailRefused(sha: Hasher, entries: seq<Entry>, k: nat)
    requires VerifiedChain(sha, entries) && 0 < k < |entries| <= TWO_TO_64 && entries[k - 1].entryHash != ZeroHash()
    ensures Segment(sha, entries[k..]) && !VerifiedChain(sha, entries[k..])
  {
    hide SelfVerifies, VerifiedChain;
    var tail := entries[k..];
    ChainIndex(sha, entries, k);
    forall i | 0 <= i < |tail|
      ensures SelfVerifies(sha, tail[i]) && Follows(Some(entries[k + i - 1]), tail[i])
    {
      Link(sha, entries, k + i);
    }
    ChainIsFirstSegment(sha, tail);
  }

  lemma Link(sha: Hasher, entries: seq<Entry>, i: nat)
    requires VerifiedChain(sha, entries) && i < |entries|
    ensures SelfVerifies(sha, entries[i])
    ensures i == 0 ==> entries[i].index == 0 && entries[i].prevHash == ZeroHash()
    ensures i > 0 ==> entries[i].index == (entries[i - 1].index + 1) % TWO_TO_64
    ensures i > 0 ==> entries[i].prevHash == entries[i - 1].entryHash
  {
    hide SelfVerifies;
    assert Follows(Before(entries, i), entries[i]);
  }

  /** Positions are indices, as long as the list is no longer than the index type. */
  lemma {:induction false} ChainIndex(sha: Hasher, entries: seq<Entry>, i: nat)
    requires VerifiedChain(sha, entries) && i < |entries| <= TWO_TO_64
    ensures entries[i].index == i
  {
    hide SelfVerifies, VerifiedChain;
    Link(sha, entries, i);
    if i > 0 {
      ChainIndex(sha, entries, i - 1);
    }
  }

  /** The entry's hashes are those of its bytes. */
  predicate Sealed(sha: Hasher, e: Entry)
  {
    e.entryHash == sha(EntryBytes(sha, e)) && e.leafHash == sha([0] + EntryBytes(sha, e))
  }

  /** Its envelope was signed by the envelope's own keys, and evidence that comes along is the one signed. */
  ghost predicate Attested(sha: Hasher, e: Entry)
  {
    && e.envelope.Some?
    && var env := e.envelope.value;
       && |env.publicKey| == PUBLIC_KEY_SIZE && env.signature == Signed(Ed25519, env.publicKey, Canonical(env))
       && (if env.quantumPublicKey == [] then env.quantumSignature.Length() == 0
           else |env.quantumPublicKey| == QUANTUM_PUBLIC_KEY_SIZE
                && env.quantumSignature == Signed(Dilithium3, env.quantumPublicKey, Canonical(env)))
       && (env.evidence == [] || env.evidenceHash == sha(env.evidence))
  }

  /** The entry is numbered by its position and names the hash of the one before it. */
  predicate Placed(entries: seq<Entry>, i: nat)
    requires i < |entries|
  {
    && entries[i].index == i % TWO_TO_64
    && entries[i].prevHash == if i == 0 then seq(32, _ => 0) else entries[i - 1].entryHash
  }

  /** A chain is verified exactly when every entry is sealed, attested and in its place. */
  lemma VerifiedChainIff(sha: Hasher, entries: seq<Entry>)
    ensures VerifiedChain(sha, entries) <==>
            forall i :: 0 <= i < |entries| ==>
                          Sealed(sha, entries[i]) && Attested(sha, entries[i]) && Placed(entries, i)
  {
    hide SelfVerifies, Sealed, Attested, Placed, Follows, Before;
    if VerifiedChain(sha, entries) {
      forall i | 0 <= i < |entries|
        ensures Sealed(sha, entries[i]) && Attested(sha, entries[i]) && Placed(entries, i)
      {
        SelfVerifiesIff(sha, entries[i]);
        IsPlaced(sha, entries, i);
      }
    }
    if forall i :: 0 <= i < |entries| ==> Sealed(sha, entries[i]) && Attested(sha, entries[i]) && Placed(entries, i) {
      forall i | 0 <= i < |entries|
        ensures SelfVerifies(sha, entries[i]) && Follows(Before(entries, i), entries[i])
      {
        SelfVerifiesIff(sha, entries[i]);
        assert Placed(entries, i) && (i > 0 ==> Placed(entries, i - 1));
        PlacedFollows(entries, i);
      }
    }
  }

  lemma IsPlaced(sha: Hasher, entries: seq<Entry>, i: nat)
    requires VerifiedChain(sha, entries) && i < |entries|
    ensures Placed(entries, i)
  {
    hide SelfVerifies, VerifiedChain;
    Link(sha, entries, i);
    PlacedIndex(sha, entries, i);
  }

  lemma PlacedFollows(entries: seq<Entry>, i: nat)
    requires i < |entries| && Placed(entries, i) && (i > 0 ==> Placed(entries, i - 1))
    ensures Follows(Before(entries, i), entries[i])
  {
  }

  lemma {:induction false} PlacedIndex(sha: Hasher, entries: seq<Entry>, i: nat)
    requires VerifiedChain(sha, entries) && i < |entries|
    ensures entries[i].index == i % TWO_TO_64
  {
    hide SelfVerifies, VerifiedChain;
    Link(sha, entries, i);
    if i > 0 {
      PlacedIndex(sha, entries, i - 1);
    }
  }

  lemma SelfVerifiesIff(sha: Hasher, e: Entry)
    ensures SelfVerifies(sha, e) <==> Sealed(sha, e) && Attested(sha, e)
  {
    hide EntryBytes, Canonical;
  }

  // ---- What the head commits to ----

  /** Equal in everything the entry hash covers, down to the signed envelope fields. */
  ghost predicate SameEntry(a: Entry, b: Entry)
  {
    && a.index == b.index && a.timeNanos == b.timeNanos && a.prevHash == b.prevHash && a.honeypot == b.honeypot
    && a.entryHash == b.entryHash && a.leafHash == b.leafHash
    && a.envelope.Some? && b.envelope.Some? && SameSigned(a.envelope.value, b.envelope.value)
  }

  ghost predicate SameLog(a: seq<Entry>, b: seq<Entry>)
  {
    |a| == |b| && forall i :: 0 <= i < |a| ==> SameEntry(a[i], b[i])
  }

  /** `messages` holds the bytes hashed for the entry, and no envelope field is longer than the
      encoding can say. */
  ghost predicate Covered(sha: Hasher, e: Entry, messages: set<Bytes>)
  {
    && EntryBytes(sha, e) in messages
    && (e.envelope.Some? ==> Fitting(e.envelope.value) && Canonical(e.envelope.value) in messages)
  }

  ghost predicate AllCovered(sha: Hasher, entries: seq<Entry>, messages: set<Bytes>)
  {
    forall i :: 0 <= i < |entries| ==> Covered(sha, entries[i], messages)
  }

  lemma EntryFieldsFit(sha: Hasher, e: Entry)
    requires |e.prevHash| < TWO_TO_32
    ensures AllFit(EntryFields(sha, e))
  {
    hide EnvelopeDigest;
  }

  /** Equal entry bytes mean equal fields, an absent predecessor counting as the zero hash. */
  lemma BytesFixEntry(sha: Hasher, a: Entry, b: Entry, messages: set<Bytes>)
    requires CollisionFree(sha, messages) && Covered(sha, a, messages) && Covered(sha, b, messages)
    requires a.envelope.Some? && b.envelope.Some? && |a.prevHash| < TWO_TO_32 && |b.prevHash| < TWO_TO_32
    requires EntryBytes(sha, a) == EntryBytes(sha, b)
    ensures a.index == b.index && a.timeNanos == b.timeNanos && a.honeypot == b.honeypot && PrevOf(a) == PrevOf(b)
    ensures SameSigned(a.envelope.value, b.envelope.value)
  {
    hide Encode, Canonical, AllFit, Fitting;
    var f, g := EntryFields(sha, a), EntryFields(sha, b);
    EntryFieldsFit(sha, a);
    EntryFieldsFit(sha, b);
    Injective(f, g);
    assert f[0] == g[0] && f[1] == g[1] && f[2] == g[2] && f[3] == g[3] && f[4] == g[4];
    CanonicalInjective(a.envelope.value, b.envelope.value);
  }

  /** The entry hash fixes the entry. */
  lemma HashFixesEntry(sha: Hasher, a: Entry, b: Entry, messages: set<Bytes>)
    requires CollisionFree(sha, messages) && Covered(sha, a, messages) && Covered(sha, b, messages)
    requires SelfVerifies(sha, a) && SelfVerifies(sha, b)
    requires |a.prevHash| == 32 && |b.prevHash| == 32 && a.entryHash == b.entryHash
    ensures SameEntry(a, b)
  {
    hide EntryBytes, Canonical, Verifies, Fitting;
    assert EntryBytes(sha, a) == EntryBytes(sha, b);
    BytesFixEntry(sha, a, b, messages);
  }

  lemma ChainPrevIsDigest(sha: Hasher, entries: seq<Entry>, i: nat)
    requires VerifiedChain(sha, entries) && i < |entries|
    ensures |entries[i].prevHash| == 32
  {
    hide EntryBytes, Verifies, VerifiedChain;
    Link(sha, entries, i);
    if i > 0 {
      Link(sha, entries, i - 1);
    }
  }

  /** Going back from position `k`, where the two chains have the same entry hash. */
  lemma {:induction false} SameBackwards(sha: Hasher, a: seq<Entry>, b: seq<Entry>, k: nat, messages: set<Bytes>)
    requires VerifiedChain(sha, a) && VerifiedChain(sha, b) && k < |a| && k < |b|
    requires CollisionFree(sha, messages) && AllCovered(sha, a, messages) && AllCovered(sha, b, messages)
    requires a[k].entryHash == b[k].entryHash
    ensures forall i :: 0 <= i <= k ==> SameEntry(a[i], b[i])
  {
    hide SelfVerifies, SameEntry, Covered, CollisionFree, VerifiedChain;
    Link(sha, a, k);
    Link(sha, b, k);
    ChainPrevIsDigest(sha, a, k);
    ChainPrevIsDigest(sha, b, k);
    HashFixesEntry(sha, a[k], b[k], messages);
    if k > 0 {
      SameEntryPrev(a[k], b[k]);
      SameBackwards(sha, a, b, k - 1, messages);
    }
  }

  lemma SameEntryPrev(a: Entry, b: Entry)
    requires SameEntry(a, b)
    ensures a.prevHash == b.prevHash && a.index == b.index
  {
  }

  /** Two accepted entry lists with the same last entry hash are the same log. List lengths are
      bounded by the 64-bit index. */
  lemma HeadCommits(sha: Hasher, a: seq<Entry>, b: seq<Entry>, messages: set<Bytes>)
    requires VerifiedChain(sha, a) && VerifiedChain(sha, b)
    requires 0 < |a| <= TWO_TO_64 && 0 < |b| <= TWO_TO_64
    requires CollisionFree(sha, messages) && AllCovered(sha, a, messages) && AllCovered(sha, b, messages)
    requires a[|a| - 1].entryHash == b[|b| - 1].entryHash
    ensures SameLog(a, b)
  {
    hide SelfVerifies, SameEntry, Covered, CollisionFree, VerifiedChain;
    var m, n := |a| - 1, |b| - 1;
    Link(sha, a, m);
    Link(sha, b, n);
    ChainPrevIsDigest(sha, a, m);
    ChainPrevIsDigest(sha, b, n);
    HashFixesEntry(sha, a[m], b[n], messages);
    SameEntryPrev(a[m], b[n]);
    ChainIndex(sha, a, m);
    ChainIndex(sha, b, n);
    SameBackwards(sha, a, b, m, messages);
  }

  /** The leaf hashes a tree over the log is built from. */
  function Leaves(entries: seq<Entry>): seq<Bytes>
  {
    seq(|entries|, i requires 0 <= i < |entries| => entries[i].leafHash)
  }

  lemma SameLogSameLeaves(a: seq<Entry>, b: seq<Entry>)
    requires SameLog(a, b)
    ensures Leaves(a) == Leaves(b)
  {
  }
}
