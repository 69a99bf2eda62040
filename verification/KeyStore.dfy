/** `pkg/fwdsec/keystore.go`: key files on a disk that remembers every state it went through, so that a
    crash at any point of any run is one of its snapshots. */
module KeyStore {
  import opened Encoding
  import opened Crypto
  import opened Options
  import opened KeyChain

  /** A key file holds a key pair, or noise after an interrupted write or an overwrite. */
  datatype KeyFile = KeyFile(publicKey: Bytes, quantumPublicKey: Bytes) | Noise

  datatype Snapshot = Snapshot(keys: map<Bytes, KeyFile>, chain: Option<Chain>)

  /** What `os.WriteFile` does: it works, is refused before touching the file, leaves it truncated, or
      writes everything and still reports an error. */
  datatype WriteCall = Works | Refused | Torn | Unconfirmed

  /** Which of the calls inside `Destroy` work. */
  datatype DestroyCalls = DestroyCalls(stat: bool, random: bool, overwrite: WriteCall, remove: bool)
  {
    /** The calls that leave nothing of the key in its file. */
    predicate Erase() { stat && (overwrite != Refused || remove) }
  }

  const ALL_WORK: DestroyCalls := DestroyCalls(true, true, Works, true)

  ghost predicate SameElsewhere(a: map<Bytes, KeyFile>, b: map<Bytes, KeyFile>, path: Bytes)
  {
    forall p :: p != path ==> (p in a <==> p in b) && (p in a && p in b ==> a[p] == b[p])
  }

  // ---- Which keys can still be read ----

  ghost predicate Holds(keys: map<Bytes, KeyFile>, path: Bytes, publicKey: Bytes)
  {
    path in keys && keys[path].KeyFile? && keys[path].publicKey == publicKey
  }

  ghost predicate Readable(keys: map<Bytes, KeyFile>, publicKey: Bytes)
  {
    exists path :: Holds(keys, path, publicKey)
  }

  ghost predicate Published(chain: Option<Chain>, publicKey: Bytes)
  {
    chain.Some? && exists e :: 0 <= e < |chain.value.certs| && chain.value.certs[e].publicKey == publicKey
  }

  /** A key nobody has drawn: in no file and in no certificate. */
  ghost predicate Novel(s: Snapshot, publicKey: Bytes)
  {
    !Readable(s.keys, publicKey) && !Published(s.chain, publicKey)
  }

  /** The next state publishes at least as much and makes no published key readable again. */
  ghost predicate Fades(s: Snapshot, t: Snapshot)
  {
    && (s.chain.Some? ==> t.chain.Some? && s.chain.value.certs <= t.chain.value.certs)
    && (forall k :: Published(s.chain, k) && Readable(t.keys, k) ==> Readable(s.keys, k))
  }

  /** Of the published epochs, only the last two and the spared ones can be read. */
  ghost predicate AtMostTwo(s: Snapshot, spared: set<nat>)
  {
    s.chain.Some? ==>
      var certs := s.chain.value.certs;
      forall e: nat :: e < |certs| && Readable(s.keys, certs[e].publicKey) ==> e >= |certs| - 2 || e in spared
  }

  ghost predicate Traced(history: seq<Snapshot>, spared: set<nat>)
  {
    && (forall i :: 0 <= i < |history| ==> AtMostTwo(history[i], spared))
    && (forall i :: 0 < i < |history| ==> Fades(history[i - 1], history[i]))
  }

  /** Between rotations: every key file has its own key, every epoch its own key, and of the past epochs
      exactly the spared ones can be read. */
  ghost predicate Settled(s: Snapshot, spared: set<nat>)
  {
    && (forall p, q, k :: Holds(s.keys, p, k) && Holds(s.keys, q, k) ==> p == q)
    && (s.chain.None? ==> spared == {})
    && (s.chain.Some? ==>
          var certs := s.chain.value.certs;
          && (forall d, e :: 0 <= d < e < |certs| ==> certs[d].publicKey != certs[e].publicKey)
          && (forall e :: e in spared ==> e < |certs| - 1)
          && (forall e: nat :: e < |certs| - 1 ==> (Readable(s.keys, certs[e].publicKey) <==> e in spared)))
  }

  lemma TracedGrows(history: seq<Snapshot>, t: Snapshot, spared: set<nat>)
    requires Traced(history, spared) && history != []
    requires Fades(history[|history| - 1], t) && AtMostTwo(t, spared)
    ensures Traced(history + [t], spared)
  {
    hide Fades, AtMostTwo;
    var longer := history + [t];
    forall i | 0 < i < |longer|
      ensures Fades(longer[i - 1], longer[i])
    {
      assert i < |history| ==> Fades(history[i - 1], history[i]);
    }
  }

  lemma TracedMore(history: seq<Snapshot>, spared: set<nat>, more: set<nat>)
    requires Traced(history, spared) && spared <= more
    ensures Traced(history, more)
  {
    hide Fades;
  }

  /** Over any stretch of a traced history a published key that cannot be read stays unreadable. */
  lemma {:induction false} GoneStaysGone(history: seq<Snapshot>, spared: set<nat>, i: nat, j: nat, publicKey: Bytes)
    requires Traced(history, spared) && i <= j < |history|
    requires Published(history[i].chain, publicKey) && !Readable(history[i].keys, publicKey)
    ensures Published(history[j].chain, publicKey) && !Readable(history[j].keys, publicKey)
    decreases j - i
  {
    if i < j {
      hide AtMostTwo;
      assert Fades(history[i + 1 - 1], history[i + 1]);
      GoneStaysGone(history, spared, i + 1, j, publicKey);
    }
  }

  /** With the chain unchanged, a state that fades keeps to the last two. */
  lemma FadedAtMostTwo(s: Snapshot, t: Snapshot, spared: set<nat>)
    requires AtMostTwo(s, spared) && Fades(s, t) && t.chain == s.chain
    ensures AtMostTwo(t, spared)
  {
  }

  /** Touching one file fades unless it brings back a published key. */
  lemma TouchFades(s: Snapshot, t: Snapshot, path: Bytes)
    requires t.chain == s.chain && SameElsewhere(t.keys, s.keys, path)
    requires path in t.keys && t.keys[path].KeyFile? ==>
               Holds(s.keys, path, t.keys[path].publicKey) || !Published(s.chain, t.keys[path].publicKey)
    ensures Fades(s, t)
  {
    hide Published;
    forall k | Published(s.chain, k) && Readable(t.keys, k)
      ensures Readable(s.keys, k)
    {
      var p :| Holds(t.keys, p, k);
      assert Holds(s.keys, p, k);
    }
  }

  /** Writing a new key beside the others leaves the past as it was. */
  lemma GeneratedSettled(s: Snapshot, t: Snapshot, path: Bytes, k: Bytes, spared: set<nat>)
    requires Settled(s, spared) && Novel(s, k) && t.chain == s.chain && SameElsewhere(t.keys, s.keys, path)
    requires path !in s.keys
    requires path in t.keys && t.keys[path].KeyFile? ==> t.keys[path].publicKey == k
    ensures Settled(t, spared)
  {
    forall p, q, x | Holds(t.keys, p, x) && Holds(t.keys, q, x)
      ensures p == q
    {
      if x == k {
        assert p != path ==> Holds(s.keys, p, k);
        assert q != path ==> Holds(s.keys, q, k);
      } else {
        assert Holds(s.keys, p, x) && Holds(s.keys, q, x);
      }
    }
    if s.chain.Some? {
      var certs := s.chain.value.certs;
      forall e: nat | e < |certs|
        ensures Readable(t.keys, certs[e].publicKey) <==> Readable(s.keys, certs[e].publicKey)
      {
        OtherReadable(s, t, path, certs[e].publicKey);
      }
    }
  }

  /** A key that is not in the touched file is readable as before. */
  lemma OtherReadable(s: Snapshot, t: Snapshot, path: Bytes, k: Bytes)
    requires SameElsewhere(t.keys, s.keys, path) && !Holds(s.keys, path, k) && !Holds(t.keys, path, k)
    ensures Readable(t.keys, k) <==> Readable(s.keys, k)
  {
    if Readable(t.keys, k) {
      var p :| Holds(t.keys, p, k);
      assert Holds(s.keys, p, k);
    }
    if Readable(s.keys, k) {
      var p :| Holds(s.keys, p, k);
      assert Holds(t.keys, p, k);
    }
  }

  /** Scrambling or removing the file of a key that is not published leaves the past as it was. */
  lemma DroppedSettled(s: Snapshot, t: Snapshot, path: Bytes, spared: set<nat>)
    requires Settled(s, spared) && t.chain == s.chain && SameElsewhere(t.keys, s.keys, path)
    requires path in s.keys && s.keys[path].KeyFile? ==> !Published(s.chain, s.keys[path].publicKey)
    requires path in t.keys && t.keys[path].KeyFile? ==> path in s.keys && t.keys[path] == s.keys[path]
    ensures Settled(t, spared)
  {
    forall p, q, x | Holds(t.keys, p, x) && Holds(t.keys, q, x)
      ensures p == q
    {
      assert Holds(s.keys, p, x) && Holds(s.keys, q, x);
    }
    if s.chain.Some? {
      var certs := s.chain.value.certs;
      forall e: nat | e < |certs|
        ensures Readable(t.keys, certs[e].publicKey) <==> Readable(s.keys, certs[e].publicKey)
      {
        OtherReadable(s, t, path, certs[e].publicKey);
      }
    }
  }

  /** Publishing the next epoch while the past is settled leaves at most two keys and the spared ones. */
  lemma GrownAtMostTwo(s: Snapshot, t: Snapshot, spared: set<nat>)
    requires Settled(s, spared) && s.chain.Some? && t.chain.Some? && t.keys == s.keys
    requires |t.chain.value.certs| == |s.chain.value.certs| + 1 && s.chain.value.certs <= t.chain.value.certs
    ensures Fades(s, t) && AtMostTwo(t, spared)
  {
  }

  /** A finished rotation is settled again; the epoch before joins the spared ones exactly when its file
      was not erased. */
  lemma GrownSettled(s: Snapshot, t: Snapshot, path: Bytes, erased: bool, spared: set<nat>)
    requires Settled(s, spared) && s.chain.Some? && t.chain.Some? && SameElsewhere(t.keys, s.keys, path)
    requires s.chain.value.certs != [] && |t.chain.value.certs| == |s.chain.value.certs| + 1
    requires s.chain.value.certs <= t.chain.value.certs
    requires !Published(s.chain, t.chain.value.certs[|s.chain.value.certs|].publicKey)
    requires Holds(s.keys, path, s.chain.value.certs[|s.chain.value.certs| - 1].publicKey)
    requires if erased then path !in t.keys || t.keys[path].Noise? else path in t.keys && t.keys[path] == s.keys[path]
    ensures Settled(t, spared + if erased then {} else {|s.chain.value.certs| - 1})
  {
    var certs, n := s.chain.value.certs, |s.chain.value.certs|;
    var last := certs[n - 1].publicKey;
    forall p, q, x | Holds(t.keys, p, x) && Holds(t.keys, q, x)
      ensures p == q
    {
      assert Holds(s.keys, p, x) && Holds(s.keys, q, x);
    }
    forall e: nat | e < n
      ensures t.chain.value.certs[e] == certs[e]
      ensures e < n - 1 ==> (Readable(t.keys, certs[e].publicKey) <==> Readable(s.keys, certs[e].publicKey))
    {
      if e < n - 1 {
        OtherReadable(s, t, path, certs[e].publicKey);
      }
    }
    assert Readable(t.keys, last) <==> !erased by {
      if erased {
        forall p
          ensures !Holds(t.keys, p, last)
        {
          assert Holds(t.keys, p, last) ==> Holds(s.keys, p, last);
        }
      } else {
        assert Holds(t.keys, path, last);
      }
    }
    forall d, e | 0 <= d < e < n + 1
      ensures t.chain.value.certs[d].publicKey != t.chain.value.certs[e].publicKey
    {
      assert e == n ==> Published(s.chain, certs[d].publicKey);
    }
  }

  /** Nothing but `publicKey` stopped being new. */
  ghost predicate NewOnly(s: Snapshot, t: Snapshot, publicKey: Bytes)
  {
    forall k :: k != publicKey && Novel(s, k) ==> Novel(t, k)
  }

  lemma TouchNewOnly(s: Snapshot, t: Snapshot, path: Bytes, publicKey: Bytes)
    requires t.chain == s.chain && SameElsewhere(t.keys, s.keys, path)
    requires path in t.keys && t.keys[path].KeyFile? ==>
               Holds(s.keys, path, t.keys[path].publicKey) || t.keys[path].publicKey == publicKey
    ensures NewOnly(s, t, publicKey)
  {
    hide Published;
    forall k | k != publicKey && Novel(s, k)
      ensures Novel(t, k)
    {
      forall p
        ensures !Holds(t.keys, p, k)
      {
        assert Holds(t.keys, p, k) ==> Holds(s.keys, p, k);
      }
    }
  }

  lemma GrowNewOnly(s: Snapshot, t: Snapshot, publicKey: Bytes)
    requires t.keys == s.keys && t.chain.Some?
    requires forall c :: c in t.chain.value.certs ==>
                           c.publicKey == publicKey || (s.chain.Some? && c in s.chain.value.certs)
    ensures NewOnly(s, t, publicKey)
  {
    forall k | k != publicKey && Novel(s, k)
      ensures Novel(t, k)
    {
      forall e | 0 <= e < |t.chain.value.certs|
        ensures t.chain.value.certs[e].publicKey != k
      {
        assert t.chain.value.certs[e] in t.chain.value.certs;
      }
    }
  }

  // ---- The files ----

  class Disk {
    var keys: map<Bytes, KeyFile>
    var chain: Option<Chain>
    ghost var history: seq<Snapshot>
    /** The past epochs whose key file outlived its destruction. */
    ghost var spared: set<nat>

    constructor ()
      ensures keys == map[] && chain == None && history == [Now()] && spared == {}
      ensures Guarded()
    {
      keys := map[];
      chain := None;
      history := [Snapshot(map[], None)];
      spared := {};
    }

    ghost function Now(): Snapshot
      reads this
    {
      Snapshot(keys, chain)
    }

    ghost predicate Tracked()
      reads this
    {
      history != [] && history[|history| - 1] == Now() && Traced(history, spared)
    }

    ghost predicate CanRecord()
      reads this
    {
      && history != [] && Traced(history, spared)
      && Fades(history[|history| - 1], Now()) && AtMostTwo(Now(), spared)
    }

    /** In every recorded state only the last two epochs and the spared ones can be read, none of them
        came back, and the present state is settled. */
    ghost predicate Guarded()
      reads this
    {
      Tracked() && Settled(Now(), spared)
    }

    ghost method Record()
      modifies this`history
      ensures history == old(history) + [Now()]
      ensures old(CanRecord()) ==> Tracked()
    {
      hide Fades, AtMostTwo, Traced;
      if CanRecord() {
        TracedGrows(history, Now(), spared);
      }
      history := history + [Now()];
    }

    method WriteKey(path: Bytes, file: KeyFile)
      modifies this`keys, this`history
      ensures keys == old(keys)[path := file] && history == old(history) + [Now()]
      ensures old(Tracked()) && (file.Noise? || !Published(chain, file.publicKey)) ==> Tracked()
    {
      hide Traced, Fades, AtMostTwo;
      ghost var start := Now();
      keys := keys[path := file];
      if old(Tracked()) && (file.Noise? || !Published(chain, file.publicKey)) {
        Touched(start, Now(), path, old(history), spared);
      }
      Record();
    }

    method RemoveKey(path: Bytes)
      modifies this`keys, this`history
      ensures keys == old(keys) - {path} && history == old(history) + [Now()]
      ensures old(Tracked()) ==> Tracked()
    {
      hide Traced, Fades, AtMostTwo;
      ghost var start := Now();
      keys := keys - {path};
      if old(Tracked()) {
        Touched(start, Now(), path, old(history), spared);
      }
      Record();
    }

    /** `writeChain`: written beside and renamed over, so it happens entirely or not at all. */
    method WriteChain(c: Chain, works: bool)
      modifies this`chain, this`history
      ensures chain == (if works then Some(c) else old(chain)) && history == old(history) + [Now()]
      ensures old(Tracked()) && (works ==> Fades(old(Now()), Now()) && AtMostTwo(Now(), spared)) ==> Tracked()
    {
      hide Traced, Fades, AtMostTwo;
      ghost var start := Now();
      if works {
        chain := Some(c);
      }
      if old(Tracked()) && !works {
        Touched(start, Now(), [], old(history), spared);
      }
      Record();
    }

    ghost method Spare(e: nat)
      modifies this`spared
      ensures spared == old(spared) + {e} && (old(Tracked()) ==> Tracked())
    {
      if Tracked() {
        TracedMore(history, spared, spared + {e});
      }
      spared := spared + {e};
    }
  }

  lemma Touched(s: Snapshot, t: Snapshot, path: Bytes, history: seq<Snapshot>, spared: set<nat>)
    requires Traced(history, spared) && history != [] && history[|history| - 1] == s
    requires t.chain == s.chain && SameElsewhere(t.keys, s.keys, path)
    requires path in t.keys && t.keys[path].KeyFile? ==>
               Holds(s.keys, path, t.keys[path].publicKey) || !Published(s.chain, t.keys[path].publicKey)
    ensures Fades(s, t) && AtMostTwo(t, spared)
  {
    hide SameElsewhere, Fades, AtMostTwo;
    TouchFades(s, t, path);
    FadedAtMostTwo(s, t, spared);
  }

  /** `fileLiveKey`. */
  class LiveKey {
    const publicKey: Bytes
    const quantumPublicKey: Bytes
    const path: Bytes
    var alive: bool

    constructor (publicKey: Bytes, quantumPublicKey: Bytes, path: Bytes)
      ensures this.publicKey == publicKey && this.quantumPublicKey == quantumPublicKey && this.path == path && alive
    {
      this.publicKey, this.quantumPublicKey, this.path, alive := publicKey, quantumPublicKey, path, true;
    }

    /** `Sign`: a live key gives what its public key verifies, a destroyed one nothing. */
    method Sign(msg: Bytes) returns (sig: Option<Signature>)
      ensures sig.Some? <==> alive
      ensures sig.Some? ==> EdVerify(publicKey, msg, sig.value)
    {
      sig := if alive then Some(Signed(Ed25519, publicKey, msg)) else None;
    }

    /** `QuantumSign`: nothing either for a key without a quantum half. */
    method QuantumSign(msg: Bytes) returns (sig: Option<Signature>)
      ensures sig.Some? <==> alive && quantumPublicKey != []
      ensures sig.Some? && |quantumPublicKey| == QUANTUM_PUBLIC_KEY_SIZE ==>
                QuantumVerify(quantumPublicKey, msg, sig.value)
    {
      sig := if alive && quantumPublicKey != [] then Some(Signed(Dilithium3, quantumPublicKey, msg)) else None;
    }

    /** `Destroy`: the key is gone from memory whatever happens to its file. A file that cannot be
        looked at is left as it is, and that is not an error. */
    method Destroy(disk: Disk, works: DestroyCalls) returns (ok: bool)
      modifies this, disk`keys, disk`history
      ensures !alive && SameElsewhere(disk.keys, old(disk.keys), path)
      ensures path == [] || !works.stat ==> ok && disk.keys == old(disk.keys)
      ensures path != [] && works.stat && path in old(disk.keys) ==>
                && (path !in disk.keys <==> works.remove)
                && (!works.remove ==>
                      disk.keys[path] == if works.overwrite == Refused then old(disk.keys)[path] else Noise)
                && (ok <==> works == ALL_WORK)
      ensures path !in old(disk.keys) ==> ok && disk.keys == old(disk.keys)
      ensures old(disk.history) <= disk.history
      ensures forall i :: old(|disk.history|) <= i < |disk.history| ==>
                            && disk.history[i].chain == disk.chain
                            && SameElsewhere(disk.history[i].keys, old(disk.keys), path)
      ensures old(disk.Tracked()) ==> disk.Tracked()
    {
      hide Traced;
      ok := true;
      if path != [] && works.stat && path in disk.keys {
        if !works.random {
          ok := false;
        }
        if works.overwrite != Refused {
          disk.WriteKey(path, Noise);
        }
        if works.overwrite != Works {
          ok := false;
        }
        if works.remove {
          disk.RemoveKey(path);
        } else {
          ok := false;
        }
      }
      alive := false;
    }
  }

  /** Key material and a file name, as the random source supplies them. */
  datatype NewKey = NewKey(publicKey: Bytes, quantumPublicKey: Bytes, path: Bytes)

  ghost predicate UsableKey(k: NewKey, keys: map<Bytes, KeyFile>, hybrid: bool)
  {
    KeysOk(k.publicKey, k.quantumPublicKey, hybrid) && k.path != [] && k.path !in keys
  }

  /** `FileKeyStore.Generate`; a write that fails may still leave a file. */
  method Generate(disk: Disk, k: NewKey, write: WriteCall) returns (key: Option<LiveKey>)
    requires k.path !in disk.keys
    modifies disk`keys, disk`history
    ensures key.Some? <==> write == Works
    ensures key.Some? ==> fresh(key.value) && key.value.alive && key.value.publicKey == k.publicKey
                          && key.value.quantumPublicKey == k.quantumPublicKey && key.value.path == k.path
    ensures k.path in disk.keys <==> write != Refused
    ensures k.path in disk.keys ==>
              disk.keys[k.path] == if write == Torn then Noise else KeyFile(k.publicKey, k.quantumPublicKey)
    ensures SameElsewhere(disk.keys, old(disk.keys), k.path)
    ensures old(disk.history) <= disk.history
    ensures forall i :: old(|disk.history|) <= i < |disk.history| ==>
                          && disk.history[i].chain == disk.chain
                          && SameElsewhere(disk.history[i].keys, old(disk.keys), k.path)
    ensures old(disk.Tracked()) && !Published(disk.chain, k.publicKey) ==> disk.Tracked()
  {
    hide Traced, Published;
    if write != Refused {
      disk.WriteKey(k.path, Noise);
    }
    if write == Works || write == Unconfirmed {
      disk.WriteKey(k.path, KeyFile(k.publicKey, k.quantumPublicKey));
    }
    if write != Works {
      return None;
    }
    var live := new LiveKey(k.publicKey, k.quantumPublicKey, k.path);
    return Some(live);
  }

  /** `FileKeyStore.Load`. */
  method Load(disk: Disk, locator: Bytes, works: bool) returns (key: Option<LiveKey>)
    ensures key.Some? <==> works && locator != [] && locator in disk.keys && disk.keys[locator].KeyFile?
    ensures key.Some? ==> fresh(key.value) && key.value.alive && key.value.path == locator
                          && disk.keys[locator] == KeyFile(key.value.publicKey, key.value.quantumPublicKey)
  {
    if locator == [] || !works || locator !in disk.keys || disk.keys[locator].Noise? {
      return None;
    }
    var file := disk.keys[locator];
    var live := new LiveKey(file.publicKey, file.quantumPublicKey, locator);
    return Some(live);
  }
}
