/** `pkg/storage`: the key-value store under a log. A transaction happens entirely or not at all. */
module Storage {
  import opened Encoding
  import opened Hashing
  import opened Options
  import opened LogEntry
  import opened Producers
  import opened MerkleTree
  import Crypto
  import Attest

  // ---- Keys ----

  /** `entryKey`, `leafKey`, `checkpointKey`, `anchorKey`: a prefix and the big-endian number. */
  function NumberKey(prefix: Bytes, n: U64): Bytes { prefix + U64Bytes(n) }

  /** `replayKey`. */
  function ReplayKey(envelopeHash: Bytes): Bytes { Text("replay/") + Hex(envelopeHash) }

  /** Within one prefix, byte order is number order. */
  lemma KeyOrder(prefix: Bytes, i: U64, j: U64)
    ensures i < j <==> LexLess(NumberKey(prefix, i), NumberKey(prefix, j))
    ensures NumberKey(prefix, i) == NumberKey(prefix, j) <==> i == j
  {
    hide LexLess, BigEndian;
    WordSizes();
    if i < j {
      BigEndianMonotone(8, i, j);
      LexLessCommonPrefix(prefix, U64Bytes(i), U64Bytes(j));
    } else {
      if j < i {
        BigEndianMonotone(8, j, i);
        LexLessCommonPrefix(prefix, U64Bytes(j), U64Bytes(i));
      }
      LexLessAsymmetric(NumberKey(prefix, i), NumberKey(prefix, j));
    }
    if NumberKey(prefix, i) == NumberKey(prefix, j) {
      CancelPrefix(prefix, U64Bytes(i), U64Bytes(j));
      BigEndianInjective(8, i, j);
    }
  }

  /** Entries, leaves, replay rows and the two meta keys never share a key. */
  lemma KeyspacesDisjoint(i: U64, j: U64, h: Bytes)
    ensures NumberKey(Text("entry/"), i) != NumberKey(Text("leaf/"), j)
    ensures NumberKey(Text("entry/"), i) != ReplayKey(h) && NumberKey(Text("leaf/"), j) != ReplayKey(h)
    ensures forall m: string | m == "meta/size" || m == "meta/head_hash" ::
              && Text(m) != NumberKey(Text("entry/"), i) && Text(m) != NumberKey(Text("leaf/"), j)
              && Text(m) != ReplayKey(h)
  {
    hide U64Bytes, Hex;
    assert NumberKey(Text("entry/"), i)[0] == 'e' as int;
    assert NumberKey(Text("leaf/"), j)[0] == 'l' as int;
    assert ReplayKey(h)[0] == 'r' as int;
    assert Text("meta/size")[0] == 'm' as int && Text("meta/head_hash")[0] == 'm' as int;
  }

  lemma ReplayKeyInjective(a: Bytes, b: Bytes)
    requires ReplayKey(a) == ReplayKey(b)
    ensures a == b
  {
    CancelPrefix(Text("replay/"), Hex(a), Hex(b));
    HexInjective(a, b);
  }

  // ---- The store ----

  /** The entries from `from` on, in key order; `to` is above every key. */
  ghost function Scan(entries: map<nat, Entry>, from: nat, to: nat): seq<Entry>
    decreases to - from
  {
    if from >= to then []
    else (if from in entries then [entries[from]] else []) + Scan(entries, from + 1, to)
  }

  /** The least key at or above `from`, if there is one. */
  ghost predicate IsNext(entries: map<nat, Entry>, from: nat, k: Option<nat>)
  {
    match k
    case Some(n) => from <= n && n in entries && forall j :: from <= j < n ==> j !in entries
    case None => forall j :: from <= j ==> j !in entries
  }

  function EntryKey(i: U64): Bytes { NumberKey(Text("entry/"), i) }

  /** The row an iterator stands on after seeking the key of `from` among the keys of the entries, in
      byte order. */
  ghost predicate SeeksTo(entries: map<nat, Entry>, from: U64, k: Option<U64>)
  {
    match k
    case Some(n) =>
      && n in entries && !LexLess(EntryKey(n), EntryKey(from))
      && forall j: U64 :: j in entries && LexLess(EntryKey(j), EntryKey(n)) ==> LexLess(EntryKey(j), EntryKey(from))
    case None => forall j: U64 :: j in entries ==> LexLess(EntryKey(j), EntryKey(from))
  }

  /** Seeking in the byte order of the keys is finding the next index. */
  lemma SeekIsNext(entries: map<nat, Entry>, from: U64, k: Option<U64>)
    requires forall j :: j in entries ==> j < TWO_TO_64
    ensures SeeksTo(entries, from, k) <==> IsNext(entries, from, k)
  {
    hide LexLess, NumberKey;
    forall i: U64, j: U64
      ensures i < j <==> LexLess(EntryKey(i), EntryKey(j))
    {
      KeyOrder(Text("entry/"), i, j);
    }
  }

  /** The entry table holds exactly the log. */
  ghost predicate Tabulates(entries: map<nat, Entry>, log: seq<Entry>)
  {
    (forall i :: i in entries <==> 0 <= i < |log|) && (forall i :: 0 <= i < |log| ==> entries[i] == log[i])
  }

  /** Each mirrored leaf that belongs to an entry is that entry's leaf hash; an empty one is no leaf. */
  ghost predicate MirrorAgrees(leaves: map<nat, Bytes>, log: seq<Entry>)
  {
    forall k: nat :: k < |log| && Stored(leaves, k) ==> leaves[k] == log[k].leafHash
  }

  ghost function HeadOf(log: seq<Entry>): Option<Bytes>
  {
    if log == [] then None else Some(log[|log| - 1].entryHash)
  }

  /** Entries, size and head describe one verified log. */
  ghost predicate Consistent(sha: Hasher, entries: map<nat, Entry>, size: nat, head: Option<Bytes>, log: seq<Entry>)
  {
    size == |log| && head == HeadOf(log) && Tabulates(entries, log) && VerifiedChain(sha, log)
  }

  lemma ConsistentGrows(sha: Hasher, entries: map<nat, Entry>, size: nat, head: Option<Bytes>, log: seq<Entry>,
                        e: Entry)
    requires Consistent(sha, entries, size, head, log) && |log| < TWO_TO_63
    requires SelfVerifies(sha, e) && Follows(Before(log, |log|), e)
    ensures e.index == |log| && e.index !in entries
    ensures e.prevHash == if log == [] then ZeroHash() else log[|log| - 1].entryHash
    ensures Consistent(sha, entries[e.index := e], size + 1, Some(e.entryHash), log + [e])
  {
    hide VerifiedChain, SelfVerifies, Follows;
    NextFits(sha, log, e);
    ChainExtends(sha, log, e);
  }

  lemma MirrorGrows(leaves: map<nat, Bytes>, log: seq<Entry>, e: Entry)
    requires MirrorAgrees(leaves, log)
    ensures MirrorAgrees(leaves[|log| := e.leafHash], log + [e])
  {
    assert forall k: nat :: k < |log| ==> (Stored(leaves[|log| := e.leafHash], k) <==> Stored(leaves, k));
  }

  lemma NextFits(sha: Hasher, log: seq<Entry>, e: Entry)
    requires VerifiedChain(sha, log) && |log| < TWO_TO_63 && Follows(Before(log, |log|), e)
    ensures e.index == |log| && e.prevHash == if log == [] then ZeroHash() else log[|log| - 1].entryHash
  {
    hide VerifiedChain;
    if log != [] {
      ChainIndex(sha, log, |log| - 1);
    }
  }

  /** What the store takes on a log it holds is exactly what continues it, once it is sealed. */
  lemma TakenIff(sha: Hasher, entries: map<nat, Entry>, size: nat, head: Option<Bytes>, log: seq<Entry>, e: Entry)
    requires Consistent(sha, entries, size, head, log) && |log| < TWO_TO_63 && SelfVerifies(sha, e)
    ensures Takes(entries, size, head, e) <==> VerifiedChain(sha, log + [e])
  {
    hide VerifiedChain, SelfVerifies;
    ChainExtends(sha, log, e);
    SealedHashes(sha, e);
    if log != [] {
      ChainIndex(sha, log, |log| - 1);
    }
  }

  lemma SealedHashes(sha: Hasher, e: Entry)
    requires SelfVerifies(sha, e)
    ensures |e.entryHash| == 32 == |e.leafHash|
  {
    hide EntryBytes, Attest.Verifies;
  }

  /** What `AppendEntry` enforces. */
  ghost predicate Takes(entries: map<nat, Entry>, size: nat, head: Option<Bytes>, e: Entry)
  {
    && e.entryHash != [] && e.leafHash != [] && e.index == size && e.index !in entries
    && e.prevHash == if head.None? then ZeroHash() else head.value
  }

  datatype Recording = Recorded | Replayed(original: nat) | RecordFailed

  class Store {
    var entries: map<nat, Entry>
    var size: U64
    var head: Option<Bytes>
    var replay: map<Bytes, nat>
    var producers: map<Bytes, Producer>
    const leafDb: LeafStore

    constructor ()
      ensures entries == map[] && size == 0 && head == None && replay == map[] && producers == map[]
      ensures fresh(leafDb) && leafDb.durable && leafDb.leaves == map[]
    {
      entries, size, head, replay, producers := map[], 0, None, map[], map[];
      leafDb := new LeafStore(true);
    }

    /** Size, head and entries describe one verified log. */
    ghost predicate Holds(sha: Hasher, log: seq<Entry>)
      reads this
    {
      Consistent(sha, entries, size, head, log) && leafDb.durable
    }

    /** `HeadHash`: zeros before the first entry. */
    function HeadHash(): Bytes
      reads this
    {
      if head.None? then ZeroHash() else head.value
    }

    ghost predicate Appendable(e: Entry)
      reads this
    {
      Takes(entries, size, head, e)
    }

    /** `AppendEntry`: one transaction over entry, leaf mirror, size and head. */
    method AppendEntry(e: Entry, works: bool) returns (ok: bool)
      modifies this`entries, this`size, this`head, leafDb
      ensures ok <==> works && old(Appendable(e))
      ensures ok ==> e.entryHash != [] && e.leafHash != [] && e.index == old(size) && e.index !in old(entries)
      ensures ok ==> e.prevHash == old(HeadHash())
      ensures !ok ==> entries == old(entries) && size == old(size) && head == old(head)
      ensures !ok ==> leafDb.leaves == old(leafDb.leaves)
      ensures ok ==> entries == old(entries)[e.index := e] && leafDb.leaves == old(leafDb.leaves)[e.index := e.leafHash]
      ensures ok ==> size == (old(size) + 1) % TWO_TO_64 && head == Some(e.entryHash)
    {
      if e.entryHash == [] || e.leafHash == [] {
        return false;
      }
      if e.index != size || e.prevHash != HeadHash() || e.index in entries || !works {
        return false;
      }
      entries := entries[e.index := e];
      leafDb.leaves := leafDb.leaves[e.index := e.leafHash];
      size := (size + 1) % TWO_TO_64;
      head := Some(e.entryHash);
      return true;
    }

    /** A verified next entry always fits, and the store then holds the longer log. */
    method AppendVerified(sha: Hasher, e: Entry, works: bool, ghost log: seq<Entry>) returns (ok: bool)
      requires Holds(sha, log) && |log| < TWO_TO_63
      requires SelfVerifies(sha, e) && Follows(Before(log, |log|), e)
      modifies this`entries, this`size, this`head, leafDb
      ensures ok <==> works
      ensures Holds(sha, if ok then log + [e] else log)
      ensures leafDb.leaves == if ok then old(leafDb.leaves)[|log| := e.leafHash] else old(leafDb.leaves)
      ensures old(MirrorAgrees(leafDb.leaves, log)) ==> MirrorAgrees(leafDb.leaves, if ok then log + [e] else log)
    {
      hide VerifiedChain, EntryBytes, Attest.Verifies, Tabulates, MirrorAgrees;
      ConsistentGrows(sha, entries, size, head, log, e);
      if MirrorAgrees(leafDb.leaves, log) {
        MirrorGrows(leafDb.leaves, log, e);
      }
      ok := AppendEntry(e, works);
    }

    /** `GetEntry`: an entry of the log the table holds, and an error beyond its end. */
    method GetEntry(idx: nat, works: bool, ghost log: seq<Entry>) returns (r: Option<Entry>)
      ensures r.Some? <==> works && idx in entries
      ensures r.Some? ==> r.value == entries[idx]
      ensures Tabulates(entries, log) ==> r == if works && idx < |log| then Some(log[idx]) else None
    {
      r := if works && idx in entries then Some(entries[idx]) else None;
    }

    /** `PutLeafHash`. */
    method PutLeafHash(idx: nat, hash: Bytes, works: bool)
      modifies leafDb
      ensures leafDb.leaves == if works then old(leafDb.leaves)[idx := hash] else old(leafDb.leaves)
    {
      if works {
        leafDb.leaves := leafDb.leaves[idx := hash];
      }
    }

    /** `DeleteLeafHash`: the mirror may lose leaves, and stays a mirror. */
    method DeleteLeafHash(idx: nat, ghost log: seq<Entry>)
      modifies leafDb
      ensures leafDb.leaves == old(leafDb.leaves) - {idx}
      ensures old(MirrorAgrees(leafDb.leaves, log)) ==> MirrorAgrees(leafDb.leaves, log)
    {
      leafDb.leaves := leafDb.leaves - {idx};
    }

    /** `CheckAndRecordEnvelope` without expiry: check and record in one transaction. */
    method CheckAndRecordEnvelope(hash: Bytes, idx: nat, works: bool) returns (r: Recording)
      modifies this`replay
      ensures r == if !works then RecordFailed
                   else if hash in old(replay) then Replayed(old(replay)[hash])
                   else Recorded
      ensures replay == if r.Recorded? then old(replay)[hash := idx] else old(replay)
    {
      if !works {
        return RecordFailed;
      }
      if hash in replay {
        return Replayed(replay[hash]);
      }
      replay := replay[hash := idx];
      return Recorded;
    }

    /** `RegisterProducer`. */
    method RegisterProducer(p: Producer, works: bool) returns (ok: bool)
      modifies this`producers
      ensures ok <==> works && p.id != [] && |p.publicKey| == Crypto.PUBLIC_KEY_SIZE
      ensures producers == if ok then old(producers)[p.id := p] else old(producers)
    {
      if p.id == [] || |p.publicKey| != Crypto.PUBLIC_KEY_SIZE || !works {
        return false;
      }
      producers := producers[p.id := p];
      return true;
    }

    /** `RevokeProducer`: the record stays, marked. */
    method RevokeProducer(id: Bytes, works: bool) returns (ok: bool)
      modifies this`producers
      ensures ok <==> works && id in old(producers)
      ensures producers == if ok then old(producers)[id := old(producers)[id].(revoked := true)] else old(producers)
    {
      if id !in producers || !works {
        return false;
      }
      producers := producers[id := producers[id].(revoked := true)];
      return true;
    }

    /** The least key at or above `from`, as the iterator seeks it. */
    method Seek(from: nat) returns (k: Option<nat>)
      ensures IsNext(entries, from, k)
    {
      var rest := set j | j in entries.Keys && from <= j;
      if rest == {} {
        assert forall j :: from <= j && j in entries ==> j in rest;
        return None;
      }
      var least :| least in rest;
      var left := rest;
      while left != {}
        invariant least in rest && left <= rest
        invariant forall j :: j in rest && j !in left ==> least <= j
        decreases |left|
      {
        var j :| j in left;
        left := left - {j};
        if j < least {
          least := j;
        }
      }
      assert forall j :: from <= j && j in entries ==> j in rest;
      return Some(least);
    }
  }
}
