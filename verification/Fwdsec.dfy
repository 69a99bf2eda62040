/** `pkg/fwdsec/fwdsec.go`, the live side: the chain file, the signer that rotates between key files, and
    what a crash or a failing call at any point leaves. */
module Fwdsec {
  import opened Encoding
  import opened Hashing
  import opened Crypto
  import opened Options
  import opened KeyChain
  import opened KeyStore

  /** What `loadActive` needs: a chain whose locator names the key of its last certificate. A disk
      without a chain is started afresh. */
  ghost predicate Recoverable(s: Snapshot, origin: Bytes, hybrid: bool)
  {
    s.chain.Some? ==>
      var c := s.chain.value;
      && c.origin == origin && Linked(c.certs, hybrid) && c.activeLocator != [] && c.activeLocator in s.keys
      && var last := c.certs[|c.certs| - 1];
         s.keys[c.activeLocator] == KeyFile(last.publicKey, last.quantumPublicKey)
  }

  ghost predicate AllRecoverable(history: seq<Snapshot>, origin: Bytes, hybrid: bool)
  {
    forall i :: 0 <= i < |history| ==> Recoverable(history[i], origin, hybrid)
  }

  /** Touching a key file other than the active one does not endanger recovery. */
  lemma ElsewhereRecoverable(s: Snapshot, t: Snapshot, path: Bytes, origin: Bytes, hybrid: bool)
    requires Recoverable(s, origin, hybrid) && t.chain == s.chain && SameElsewhere(t.keys, s.keys, path)
    requires s.chain.Some? ==> s.chain.value.activeLocator != path
    ensures Recoverable(t, origin, hybrid)
  {
    hide Linked;
  }

  /** Snapshots added while only `path` was touched keep recovery possible. */
  lemma StillRecoverable(before: seq<Snapshot>, after: seq<Snapshot>, now: Snapshot, path: Bytes, origin: Bytes,
                         hybrid: bool)
    requires AllRecoverable(before, origin, hybrid) && Recoverable(now, origin, hybrid) && before <= after
    requires now.chain.Some? ==> now.chain.value.activeLocator != path
    requires forall i :: |before| <= i < |after| ==>
                           after[i].chain == now.chain && SameElsewhere(after[i].keys, now.keys, path)
    ensures AllRecoverable(after, origin, hybrid)
  {
    hide Recoverable, SameElsewhere;
    forall i | 0 <= i < |after|
      ensures Recoverable(after[i], origin, hybrid)
    {
      if i < |before| {
        assert after[i] == before[i];
      } else {
        ElsewhereRecoverable(now, after[i], path, origin, hybrid);
      }
    }
  }

  /** The key of the last epoch and the key of the one before are both there to be read. */
  ghost predicate BothReadable(s: Snapshot, c: Chain)
  {
    && s.chain == Some(c) && |c.certs| >= 2
    && Readable(s.keys, c.certs[|c.certs| - 1].publicKey) && Readable(s.keys, c.certs[|c.certs| - 2].publicKey)
  }

  /** `Generate` on a disk that can be recovered from: it still can, and nothing published is touched. */
  method GenerateBeside(origin: Bytes, hybrid: bool, disk: Disk, k: NewKey,
                        write: WriteCall) returns (key: Option<LiveKey>)
    requires UsableKey(k, disk.keys, hybrid)
    requires AllRecoverable(disk.history, origin, hybrid) && Recoverable(disk.Now(), origin, hybrid)
    modifies disk`keys, disk`history
    ensures AllRecoverable(disk.history, origin, hybrid) && Recoverable(disk.Now(), origin, hybrid)
    ensures old(disk.history) <= disk.history && NewOnly(old(disk.Now()), disk.Now(), k.publicKey)
    ensures old(disk.Guarded()) && old(Novel(disk.Now(), k.publicKey)) ==> disk.Guarded()
    ensures key.Some? <==> write == Works
    ensures key.Some? ==> fresh(key.value) && key.value.alive && key.value.publicKey == k.publicKey
                          && key.value.quantumPublicKey == k.quantumPublicKey && key.value.path == k.path
                          && k.path in disk.keys && disk.keys[k.path] == KeyFile(k.publicKey, k.quantumPublicKey)
  {
    hide KeyChain.Linked, SameElsewhere, AllRecoverable, Settled, Traced, Published, Readable, NewOnly;
    ghost var start, guarded := disk.Now(), disk.Guarded() && Novel(disk.Now(), k.publicKey);
    key := Generate(disk, k, write);
    StillRecoverable(old(disk.history), disk.history, start, k.path, origin, hybrid);
    ElsewhereRecoverable(start, disk.Now(), k.path, origin, hybrid);
    TouchNewOnly(start, disk.Now(), k.path, k.publicKey);
    if guarded {
      GeneratedSettled(start, disk.Now(), k.path, k.publicKey, disk.spared);
    }
  }

  datatype RotateCalls = RotateCalls(generate: WriteCall, write: bool, cleanup: DestroyCalls, destroy: DestroyCalls)

  class Signer {
    const origin: Bytes
    const hybrid: bool
    const disk: Disk
    var chain: Chain
    var active: LiveKey

    /** The chain in memory is the chain on disk, it links up from genesis, and a live active key is
        the key of its last certificate. Every state the disk ever had can be recovered from. */
    ghost predicate Valid()
      reads this, disk, active
    {
      && disk.chain == Some(chain)
      && AllRecoverable(disk.history, origin, hybrid) && Recoverable(disk.Now(), origin, hybrid)
      && (active.alive ==> ActiveMatches())
    }

    ghost predicate ActiveMatches()
      requires disk.chain == Some(chain) && Recoverable(disk.Now(), origin, hybrid)
      reads this, disk, active
    {
      var last := chain.certs[|chain.certs| - 1];
      && active.path == chain.activeLocator
      && active.publicKey == last.publicKey && active.quantumPublicKey == last.quantumPublicKey
    }

    constructor (origin: Bytes, hybrid: bool, disk: Disk, chain: Chain, active: LiveKey)
      ensures this.origin == origin && this.hybrid == hybrid && this.disk == disk
      ensures this.chain == chain && this.active == active
    {
      this.origin, this.hybrid, this.disk, this.chain, this.active := origin, hybrid, disk, chain, active;
    }

    /** `Sign`: a signature comes with the epoch whose published key verifies it, and there is none
        once the key is destroyed. */
    method Sign(msg: Bytes) returns (r: Option<(U64, Signature)>)
      requires Valid()
      ensures r.Some? <==> active.alive
      ensures r.Some? ==> PublicKeyAt(chain.certs, r.value.0).Some?
                          && EdVerify(PublicKeyAt(chain.certs, r.value.0).value, msg, r.value.1)
      ensures r.Some? ==> r.value == (|chain.certs| - 1, Signed(Ed25519, LastCert().publicKey, msg))
    {
      var n := |chain.certs|;
      var sig := active.Sign(msg);
      if sig.None? {
        return None;
      }
      NumberedKey(chain.certs, n - 1);
      return Some((chain.certs[n - 1].epoch, sig.value));
    }

    /** `QuantumSign`. */
    method QuantumSign(msg: Bytes) returns (r: Option<Signature>)
      requires Valid()
      ensures r.Some? <==> active.alive && hybrid
      ensures r.Some? ==> var e := |chain.certs| - 1;
                          QuantumPublicKeyAt(chain.certs, e).Some?
                          && QuantumVerify(QuantumPublicKeyAt(chain.certs, e).value, msg, r.value)
      ensures r.Some? ==> r.value == Signed(Dilithium3, LastCert().quantumPublicKey, msg)
    {
      var n := |chain.certs|;
      assert OwnCert(chain.certs[n - 1], hybrid);
      NumberedKey(chain.certs, n - 1);
      r := active.QuantumSign(msg);
    }

    /** The signing half of `Rotate`: the active key vouches for the next epoch's keys. */
    method SignNext(k: NewKey, now: I64) returns (r: Option<Cert>)
      requires Valid() && KeysOk(k.publicKey, k.quantumPublicKey, hybrid)
      ensures r == if active.alive then Some(NextCert(LastCert(), k.publicKey, k.quantumPublicKey, now)) else None
    {
      hide CertBytes, KeyChain.CertVerifies, AllRecoverable;
      var prev := chain.certs[|chain.certs| - 1];
      QuantumKeySize(prev, hybrid);
      var cert := UnsignedCert((prev.epoch + 1) % TWO_TO_64, k.publicKey, k.quantumPublicKey, now, prev.publicKey,
                               if k.quantumPublicKey == [] then [] else prev.quantumPublicKey);
      var canon := CertBytes(cert);
      var sig := active.Sign(canon);
      if sig.None? {
        return None;
      }
      cert := cert.(signature := sig.value);
      if |cert.quantumPublicKey| > 0 && |prev.quantumPublicKey| > 0 {
        var qsig := active.QuantumSign(canon);
        if qsig.None? {
          return None;
        }
        cert := cert.(quantumSignature := qsig.value);
      }
      return Some(cert);
    }

    ghost function LastCert(): Cert
      requires disk.chain == Some(chain) && Recoverable(disk.Now(), origin, hybrid)
      reads this, disk
    {
      chain.certs[|chain.certs| - 1]
    }

    /** `Rotate`. The chain grows by one certificate, or stays as it was; at every point in between the
        disk can be recovered from. Only a failed destruction of the old key leaves a grown chain
        without a live key. */
    method Rotate(k: NewKey, now: I64, works: RotateCalls) returns (r: Option<Cert>)
      requires Valid() && UsableKey(k, disk.keys, hybrid) && |chain.certs| < TWO_TO_64
      modifies this, disk, active
      ensures Valid() && old(disk.history) <= disk.history
      ensures old(active.alive) && works.generate == Works && works.write <==> chain != old(chain)
      ensures chain != old(chain) ==>
                chain.certs == old(chain.certs) + [NextCert(old(LastCert()), k.publicKey, k.quantumPublicKey, now)]
      ensures active == old(active) || fresh(active)
      ensures r.Some? <==> chain != old(chain) && (!works.destroy.stat || works.destroy == ALL_WORK)
      ensures r.Some? ==> active.alive && r.value == LastCert()
      ensures r.None? && chain != old(chain) ==> !active.alive
      ensures r.None? && chain == old(chain) ==> active == old(active) && active.alive == old(active.alive)
      // What becomes of the old key.
      ensures r.Some? ==> (old(chain.activeLocator) !in disk.keys <==> works.destroy.stat)
      ensures disk.spared == old(disk.spared) + if chain == old(chain) || works.destroy.Erase() then {}
                                                else {|old(chain.certs)| - 1}
      ensures old(disk.Guarded()) && old(Novel(disk.Now(), k.publicKey)) ==> disk.Guarded()
      ensures chain != old(chain) ==>
                exists i :: old(|disk.history|) <= i < |disk.history| && BothReadable(disk.history[i], chain)
      ensures NewOnly(old(disk.Now()), disk.Now(), k.publicKey)
    {
      hide KeyChain.Linked, NextCert, SameElsewhere, AllRecoverable, Settled, Traced, Published, Readable, NewOnly,
        BothReadable;
      ghost var start := disk.Now();
      var gen := GenerateBeside(origin, hybrid, disk, k, works.generate);
      if gen.None? {
        return None;
      }
      var cert := SignNext(k, now);
      ghost var made := disk.Now();
      if cert.None? {
        DropKey(gen.value, works.cleanup);
        NewOnlyTrans(start, made, disk.Now(), k.publicKey);
        return None;
      }
      r := Commit(k, now, gen.value, cert.value, works);
      NewOnlyTrans(start, made, disk.Now(), k.publicKey);
    }

    /** Destroying a key the chain does not name. */
    method DropKey(key: LiveKey, works: DestroyCalls)
      requires Valid() && key != active && key.path != chain.activeLocator && Holds(disk.keys, key.path, key.publicKey)
      modifies key, disk`keys, disk`history
      ensures Valid() && old(disk.history) <= disk.history && NewOnly(old(disk.Now()), disk.Now(), key.publicKey)
      ensures old(disk.Guarded()) && !Published(disk.chain, key.publicKey) ==> disk.Guarded()
    {
      hide KeyChain.Linked, SameElsewhere, AllRecoverable, Settled, Traced, Published, NewOnly;
      ghost var start := disk.Now();
      var _ := key.Destroy(disk, works);
      StillRecoverable(old(disk.history), disk.history, start, key.path, origin, hybrid);
      ElsewhereRecoverable(start, disk.Now(), key.path, origin, hybrid);
      TouchNewOnly(start, disk.Now(), key.path, key.publicKey);
      if old(disk.Guarded()) && !Published(disk.chain, key.publicKey) {
        DroppedSettled(start, disk.Now(), key.path, disk.spared);
      }
    }

    /** The persisting half of `Rotate`. */
    method Commit(k: NewKey, now: I64, newActive: LiveKey, cert: Cert, works: RotateCalls) returns (r: Option<Cert>)
      requires Valid() && active.alive && |chain.certs| < TWO_TO_64
      requires KeysOk(k.publicKey, k.quantumPublicKey, hybrid)
      requires newActive != active && newActive.alive && newActive.path == k.path != [] && k.path != chain.activeLocator
      requires newActive.publicKey == k.publicKey && newActive.quantumPublicKey == k.quantumPublicKey
      requires k.path in disk.keys && disk.keys[k.path] == KeyFile(k.publicKey, k.quantumPublicKey)
      requires cert == NextCert(LastCert(), k.publicKey, k.quantumPublicKey, now)
      modifies this, disk, active, newActive
      ensures Valid() && old(disk.history) <= disk.history
      ensures works.write <==> chain != old(chain)
      ensures active == old(active) || active == newActive
      ensures chain != old(chain) ==> chain.certs == old(chain.certs) + [cert]
      ensures r.Some? <==> works.write && (!works.destroy.stat || works.destroy == ALL_WORK)
      ensures r.Some? ==> active.alive && r.value == LastCert()
      ensures r.None? && works.write ==> !active.alive
      ensures !works.write ==> active == old(active) && active.alive
      ensures r.Some? ==> (old(chain.activeLocator) !in disk.keys <==> works.destroy.stat)
      ensures disk.spared == old(disk.spared) + if !works.write || works.destroy.Erase() then {}
                                                else {|old(chain.certs)| - 1}
      ensures old(disk.Guarded()) && !Published(old(disk.chain), k.publicKey) ==> disk.Guarded()
      ensures works.write ==>
                exists i :: old(|disk.history|) <= i < |disk.history| && BothReadable(disk.history[i], chain)
      ensures NewOnly(old(disk.Now()), disk.Now(), k.publicKey)
    {
      hide KeyChain.Linked, NextCert, SameElsewhere, AllRecoverable, Settled, Traced, Published, NewOnly, BothReadable,
        Retires;
      var prev := active;
      ghost var start, guarded := disk.Now(), disk.Guarded() && !Published(disk.chain, k.publicKey);
      var published := Publish(k, now, newActive, cert, works.write, works.cleanup);
      if !published {
        return None;
      }
      ghost var grown := |disk.history| - 1;
      r := Retire(prev, newActive, works.destroy, start, guarded);
      assert BothReadable(disk.history[grown], chain);
    }

    /** Writing the grown chain, and going back to the one before when that fails. */
    method Publish(k: NewKey, now: I64, newActive: LiveKey, cert: Cert, write: bool, cleanup: DestroyCalls)
      returns (ok: bool)
      requires Valid() && active.alive && |chain.certs| < TWO_TO_64
      requires KeysOk(k.publicKey, k.quantumPublicKey, hybrid)
      requires newActive != active && newActive.alive && newActive.path == k.path != [] && k.path != chain.activeLocator
      requires newActive.publicKey == k.publicKey
      requires k.path in disk.keys && disk.keys[k.path] == KeyFile(k.publicKey, k.quantumPublicKey)
      requires cert == NextCert(LastCert(), k.publicKey, k.quantumPublicKey, now)
      modifies this`chain, disk`keys, disk`chain, disk`history, newActive
      ensures ok == write && old(disk.history) <= disk.history
      ensures !ok ==> Valid() && chain == old(chain) && NewOnly(old(disk.Now()), disk.Now(), k.publicKey)
      ensures !ok && old(disk.Guarded()) && !Published(old(disk.chain), k.publicKey) ==> disk.Guarded()
      ensures ok ==> chain.certs == old(chain.certs) + [cert] && chain.activeLocator == k.path && newActive.alive
      ensures ok ==> disk.chain == Some(chain) && disk.keys == old(disk.keys) && cert.publicKey == k.publicKey
      ensures ok ==> Recoverable(disk.Now(), origin, hybrid) && AllRecoverable(disk.history, origin, hybrid)
      ensures ok ==> Retires(old(disk.Now()), disk.Now(), chain, active.path, active.publicKey)
      ensures ok ==> |disk.history| == |old(disk.history)| + 1 && BothReadable(disk.history[|old(disk.history)|], chain)
      ensures ok && old(disk.Guarded()) ==> disk.Tracked()
    {
      hide KeyChain.Linked, NextCert, SameElsewhere, AllRecoverable, Settled, Traced, Published, NewOnly, Fades,
        AtMostTwo, BothReadable, Retires, Recoverable;
      ghost var start, guarded := disk.Now(), disk.Guarded();
      chain := chain.(certs := chain.certs + [cert], activeLocator := newActive.path);
      ChainGrown(start, chain, k, now, origin, hybrid);
      disk.WriteChain(chain, write);
      HistoryGrows(old(disk.history), disk.Now(), origin, hybrid);
      if !write {
        chain := chain.(certs := chain.certs[..|chain.certs| - 1], activeLocator := active.path);
        assert chain == old(chain);
        DropKey(newActive, cleanup);
        return false;
      }
      if guarded {
        RetiresAtMostTwo(start, chain, active.path, active.publicKey, disk.spared);
      }
      return true;
    }

    /** The destroying half of `Rotate`, after the chain already names the new key. */
    method Retire(prev: LiveKey, newActive: LiveKey, works: DestroyCalls, ghost start: Snapshot,
                  ghost guarded: bool) returns (r: Option<Cert>)
      requires disk.chain == Some(chain) && Recoverable(disk.Now(), origin, hybrid)
      requires AllRecoverable(disk.history, origin, hybrid)
      requires active == prev && newActive.alive && Retires(start, disk.Now(), chain, prev.path, prev.publicKey)
      requires newActive.path == chain.activeLocator
      requires disk.keys[newActive.path] == KeyFile(newActive.publicKey, newActive.quantumPublicKey)
      requires guarded ==> disk.Tracked() && Settled(start, disk.spared)
      requires guarded ==> !Published(start.chain, LastCert().publicKey)
      modifies this`active, prev, disk
      ensures Valid() && disk.chain == old(disk.chain) && old(disk.history) <= disk.history
      ensures r.Some? <==> !works.stat || works == ALL_WORK
      ensures r.Some? ==> active == newActive && active.alive && r.value == LastCert()
      ensures r.None? ==> active == prev && !active.alive
      ensures prev.path !in disk.keys <==> works.stat && works.remove
      ensures disk.spared == old(disk.spared) + if works.Erase() then {} else {|start.chain.value.certs| - 1}
      ensures guarded ==> disk.Guarded()
      ensures NewOnly(start, disk.Now(), LastCert().publicKey)
    {
      hide KeyChain.Linked, SameElsewhere, AllRecoverable, Settled, Traced, Published, NewOnly;
      ghost var written, history := disk.Now(), disk.history;
      var destroyed := prev.Destroy(disk, works);
      StillRecoverable(history, disk.history, written, prev.path, origin, hybrid);
      ElsewhereRecoverable(written, disk.Now(), prev.path, origin, hybrid);
      RetiredNewOnly(start, disk.Now(), chain, prev.path, prev.publicKey);
      if guarded {
        GrownSettled(start, disk.Now(), prev.path, works.Erase(), disk.spared);
      }
      if !works.Erase() {
        disk.Spare(|chain.certs| - 2);
      }
      if !destroyed {
        return None;
      }
      active := newActive;
      return Some(chain.certs[|chain.certs| - 1]);
    }
  }

  /** The chain has grown by one epoch, and the file at `path` still holds the key of the epoch before. */
  ghost predicate Retires(s: Snapshot, t: Snapshot, c: Chain, path: Bytes, publicKey: Bytes)
  {
    && s.chain.Some? && t == Snapshot(s.keys, Some(c))
    && var certs := s.chain.value.certs;
       && certs != [] && |c.certs| == |certs| + 1 && certs <= c.certs
       && path != [] && path != c.activeLocator && Holds(s.keys, path, publicKey)
       && publicKey == certs[|certs| - 1].publicKey
  }

  lemma RetiredNewOnly(s: Snapshot, t: Snapshot, c: Chain, path: Bytes, publicKey: Bytes)
    requires Retires(s, Snapshot(s.keys, Some(c)), c, path, publicKey)
    requires t.chain == Some(c) && SameElsewhere(t.keys, s.keys, path)
    requires path in t.keys && t.keys[path].KeyFile? ==> t.keys[path] == s.keys[path]
    ensures NewOnly(s, t, c.certs[|c.certs| - 1].publicKey)
  {
    hide SameElsewhere, NewOnly;
    var mid, last := Snapshot(s.keys, Some(c)), c.certs[|c.certs| - 1];
    assert forall x :: x in c.certs ==> x == last || x in s.chain.value.certs;
    GrowNewOnly(s, mid, last.publicKey);
    TouchNewOnly(mid, t, path, last.publicKey);
    NewOnlyTrans(s, mid, t, last.publicKey);
  }

  lemma RetiresAtMostTwo(s: Snapshot, c: Chain, path: Bytes, publicKey: Bytes, spared: set<nat>)
    requires Retires(s, Snapshot(s.keys, Some(c)), c, path, publicKey) && Settled(s, spared)
    ensures Fades(s, Snapshot(s.keys, Some(c))) && AtMostTwo(Snapshot(s.keys, Some(c)), spared)
  {
    hide Settled, Fades, AtMostTwo;
    GrownAtMostTwo(s, Snapshot(s.keys, Some(c)), spared);
  }

  lemma NewOnlyTrans(s: Snapshot, t: Snapshot, u: Snapshot, publicKey: Bytes)
    requires NewOnly(s, t, publicKey) && NewOnly(t, u, publicKey)
    ensures NewOnly(s, u, publicKey)
  {
    hide Novel;
  }

  /** The chain with the next certificate, beside the key files of both its last epochs. */
  lemma ChainGrown(s: Snapshot, d: Chain, k: NewKey, now: I64, origin: Bytes, hybrid: bool)
    requires s.chain.Some? && Recoverable(s, origin, hybrid) && |s.chain.value.certs| < TWO_TO_64
    requires KeysOk(k.publicKey, k.quantumPublicKey, hybrid) && k.path != [] && k.path != s.chain.value.activeLocator
    requires k.path in s.keys && s.keys[k.path] == KeyFile(k.publicKey, k.quantumPublicKey)
    requires var certs := s.chain.value.certs;
             d == s.chain.value.(certs := certs + [NextCert(certs[|certs| - 1], k.publicKey, k.quantumPublicKey, now)],
                                 activeLocator := k.path)
    ensures var t, c := Snapshot(s.keys, Some(d)), s.chain.value;
            && Recoverable(t, origin, hybrid) && BothReadable(t, d) && d != c
            && Retires(s, t, d, c.activeLocator, c.certs[|c.certs| - 1].publicKey)
            && d.certs[|c.certs|].publicKey == k.publicKey && d.certs[|c.certs|].quantumPublicKey == k.quantumPublicKey
  {
    hide OwnCert, LinksTo, Numbered, GenesisOf, NextCert;
    var c, n := s.chain.value, |s.chain.value.certs|;
    NextStarted(c.certs[n - 1], k, now);
    NextLinked(c.certs, k.publicKey, k.quantumPublicKey, now, hybrid);
    assert d.certs[n - 1] == c.certs[n - 1];
    assert Holds(s.keys, k.path, k.publicKey) && Holds(s.keys, c.activeLocator, c.certs[n - 1].publicKey);
  }

  lemma HistoryGrows(history: seq<Snapshot>, now: Snapshot, origin: Bytes, hybrid: bool)
    requires AllRecoverable(history, origin, hybrid) && Recoverable(now, origin, hybrid)
    ensures AllRecoverable(history + [now], origin, hybrid)
  {
    hide Recoverable;
  }

  datatype OpenCalls = OpenCalls(read: bool, load: bool, generate: WriteCall, write: bool, destroy: DestroyCalls)

  /** A first epoch leaves nothing behind. */
  lemma GenesisSettled(s: Snapshot, t: Snapshot, spared: set<nat>)
    requires Settled(s, spared) && s.chain.None? && t.keys == s.keys && t.chain.Some? && |t.chain.value.certs| == 1
    ensures Settled(t, spared) && Fades(s, t) && AtMostTwo(t, spared)
  {
  }

  /** `createGenesis`. */
  method CreateGenesis(origin: Bytes, hybrid: bool, disk: Disk, k: NewKey, now: I64,
                       works: OpenCalls) returns (s: Option<Signer>)
    requires disk.chain.None? && UsableKey(k, disk.keys, hybrid) && AllRecoverable(disk.history, origin, hybrid)
    modifies disk`keys, disk`chain, disk`history
    ensures AllRecoverable(disk.history, origin, hybrid) && Recoverable(disk.Now(), origin, hybrid)
    ensures old(disk.history) <= disk.history
    ensures s.Some? <==> works.generate == Works && works.write
    ensures s.None? ==> disk.chain == None
    ensures s.Some? ==> Opened(s.value, origin, hybrid, disk) && fresh(s.value) && fresh(s.value.active)
    ensures s.Some? ==> s.value.chain == Chain(origin, [GenesisCert(k.publicKey, k.quantumPublicKey, now)], k.path)
    ensures old(disk.Guarded()) && old(Novel(disk.Now(), k.publicKey)) ==> disk.Guarded()
    ensures NewOnly(old(disk.Now()), disk.Now(), k.publicKey)
  {
    hide KeyChain.Linked, SameElsewhere, AllRecoverable, CertBytes, Settled, Traced, Published, Readable, NewOnly,
      Fades,
      AtMostTwo;
    ghost var start, guarded := disk.Now(), disk.Guarded() && Novel(disk.Now(), k.publicKey);
    var gen := GenerateBeside(origin, hybrid, disk, k, works.generate);
    ghost var made := disk.Now();
    if gen.None? {
      return None;
    }
    var key := gen.value;
    var cert := SelfSign(key, k, now, hybrid);
    GenesisLinked(k.publicKey, k.quantumPublicKey, now, hybrid);
    var chain := Chain(origin, [cert], key.path);
    disk.WriteChain(chain, works.write);
    HistoryGrows(disk.history[..|disk.history| - 1], disk.Now(), origin, hybrid);
    if !works.write {
      return None;
    }
    GrowNewOnly(made, disk.Now(), k.publicKey);
    NewOnlyTrans(start, made, disk.Now(), k.publicKey);
    if guarded {
      GenesisSettled(made, disk.Now(), disk.spared);
    }
    var signer := new Signer(origin, hybrid, disk, chain, key);
    return Some(signer);
  }

  /** The signing part of `createGenesis`. */
  method SelfSign(key: LiveKey, k: NewKey, now: I64, hybrid: bool) returns (cert: Cert)
    requires key.alive && key.publicKey == k.publicKey && key.quantumPublicKey == k.quantumPublicKey
    requires KeysOk(k.publicKey, k.quantumPublicKey, hybrid)
    ensures cert == GenesisCert(k.publicKey, k.quantumPublicKey, now)
  {
    hide CertBytes;
    cert := UnsignedCert(0, k.publicKey, k.quantumPublicKey, now, k.publicKey, k.quantumPublicKey);
    var canon := CertBytes(cert);
    var sig := key.Sign(canon);
    cert := cert.(signature := sig.value);
    if |k.quantumPublicKey| > 0 {
      var qsig := key.QuantumSign(canon);
      cert := cert.(quantumSignature := qsig.value);
    }
  }

  ghost predicate Opened(s: Signer, origin: Bytes, hybrid: bool, disk: Disk)
    reads s, s.disk, s.active
  {
    s.Valid() && s.active.alive && s.origin == origin && s.hybrid == hybrid && s.disk == disk
  }

  /** Exactly what `loadActive` checks of the files it finds. */
  ghost predicate Loadable(s: Snapshot, origin: Bytes)
  {
    && s.chain.Some?
    && var c := s.chain.value;
       && c.certs != [] && (c.origin == [] || c.origin == origin) && c.activeLocator != []
       && c.activeLocator in s.keys && s.keys[c.activeLocator].KeyFile?
       && s.keys[c.activeLocator].publicKey == c.certs[|c.certs| - 1].publicKey
  }

  /** The locator names a key that is not the one the chain ends with. */
  ghost predicate Mismatched(s: Snapshot, origin: Bytes)
  {
    && s.chain.Some?
    && var c := s.chain.value;
       && c.certs != [] && (c.origin == [] || c.origin == origin) && c.activeLocator != []
       && c.activeLocator in s.keys && s.keys[c.activeLocator].KeyFile?
       && s.keys[c.activeLocator].publicKey != c.certs[|c.certs| - 1].publicKey
  }

  /** `loadActive`: refuses files that do not fit together, and always opens a recoverable disk. A key
      that does not match the chain is destroyed; otherwise nothing on disk changes. */
  method LoadActive(origin: Bytes, hybrid: bool, disk: Disk, works: OpenCalls) returns (s: Option<Signer>)
    requires disk.chain.Some?
    modifies disk`keys, disk`history
    ensures s.Some? <==> works.read && works.load && Loadable(old(disk.Now()), origin)
    ensures Recoverable(old(disk.Now()), origin, hybrid) ==> Loadable(old(disk.Now()), origin)
    ensures works.read && works.load && Mismatched(old(disk.Now()), origin) ==>
              var locator := disk.chain.value.activeLocator;
              && SameElsewhere(disk.keys, old(disk.keys), locator)
              && (Holds(disk.keys, locator, old(disk.keys)[locator].publicKey) <==> !works.destroy.Erase())
    ensures !works.read || !works.load || !Mismatched(old(disk.Now()), origin) ==> unchanged(disk)
    ensures s.Some? ==> fresh(s.value) && fresh(s.value.active) && Some(s.value.chain) == disk.chain
    ensures s.Some? ==> var c, key := s.value.chain, s.value.active;
                        && (c.origin == [] || c.origin == origin) && c.certs != []
                        && key.alive && key.path == c.activeLocator != [] && key.path in old(disk.keys)
                        && key.publicKey == c.certs[|c.certs| - 1].publicKey
                        && old(disk.keys)[key.path] == KeyFile(key.publicKey, key.quantumPublicKey)
    ensures s.Some? && Recoverable(disk.Now(), origin, hybrid) && AllRecoverable(disk.history, origin, hybrid) ==>
              Opened(s.value, origin, hybrid, disk)
  {
    hide OwnCert, LinksTo, Numbered, GenesisOf, AllRecoverable, Traced, SameElsewhere;
    if !works.read {
      return None;
    }
    var chain := disk.chain.value;
    if |chain.certs| == 0 || (chain.origin != [] && chain.origin != origin) || chain.activeLocator == [] {
      return None;
    }
    var key := Load(disk, chain.activeLocator, works.load);
    if key.None? {
      return None;
    }
    if key.value.publicKey != chain.certs[|chain.certs| - 1].publicKey {
      var _ := key.value.Destroy(disk, works.destroy);
      return None;
    }
    var signer := new Signer(origin, hybrid, disk, chain, key.value);
    return Some(signer);
  }

  /** `NewSignerWithStore`: from any state a crash can leave, opening succeeds unless a call fails, and
      it continues the chain that is on disk. */
  method Open(origin: Bytes, hybrid: bool, disk: Disk, k: NewKey, now: I64,
              works: OpenCalls) returns (s: Option<Signer>)
    requires UsableKey(k, disk.keys, hybrid)
    requires AllRecoverable(disk.history, origin, hybrid) && Recoverable(disk.Now(), origin, hybrid)
    modifies disk`keys, disk`chain, disk`history
    ensures AllRecoverable(disk.history, origin, hybrid) && Recoverable(disk.Now(), origin, hybrid)
    ensures old(disk.history) <= disk.history
    ensures s.Some? <==> if old(disk.chain).Some? then works.read && works.load
                         else works.generate == Works && works.write
    ensures s.Some? ==> Opened(s.value, origin, hybrid, disk) && fresh(s.value) && fresh(s.value.active)
    ensures old(disk.chain).Some? ==> unchanged(disk)
    ensures old(disk.chain).None? ==>
              disk.chain == if s.None? then None
                            else Some(Chain(origin, [GenesisCert(k.publicKey, k.quantumPublicKey, now)], k.path))
    ensures old(disk.Guarded()) && old(Novel(disk.Now(), k.publicKey)) ==> disk.Guarded()
    ensures NewOnly(old(disk.Now()), disk.Now(), k.publicKey)
  {
    hide KeyChain.Linked, AllRecoverable, GenesisCert, UsableKey, Settled, Traced, Novel;
    if disk.chain.None? {
      s := CreateGenesis(origin, hybrid, disk, k, now, works);
    } else {
      s := LoadActive(origin, hybrid, disk, works);
    }
  }

  // ---- Whole runs ----

  /** A rotation attempt, or a crash followed by an attempt to reopen, with the calls that work. */
  datatype Step =
    | RotateStep(k: NewKey, now: I64, rotate: RotateCalls)
    | RestartStep(k: NewKey, now: I64, open: OpenCalls)

  ghost predicate ClockForward(steps: seq<Step>)
  {
    forall i, j :: 0 <= i < j < |steps| ==> steps[i].now <= steps[j].now
  }

  /** The chain's times are in order and not ahead of any clock reading still to come. */
  ghost predicate InTime(chain: Option<Chain>, steps: seq<Step>, from: nat)
  {
    chain.Some? && chain.value.certs != [] ==>
      var certs := chain.value.certs;
      TimesInOrder(certs) && forall j :: from <= j < |steps| ==> certs[|certs| - 1].startedAt <= steps[j].now
  }

  lemma StillInTime(c: Chain, d: Chain, steps: seq<Step>, i: nat)
    requires i < |steps| && ClockForward(steps) && InTime(Some(c), steps, i) && c.certs != []
    requires |d.certs| == |c.certs| + 1 && d.certs[..|c.certs|] == c.certs
    requires d.certs[|c.certs|].startedAt == steps[i].now
    ensures InTime(Some(d), steps, i + 1)
  {
    var n := |c.certs|;
    assert d.certs[n - 1] == c.certs[n - 1];
    forall j | 0 < j < |d.certs|
      ensures d.certs[j - 1].startedAt <= d.certs[j].startedAt
    {
      if j < n {
        assert d.certs[j - 1] == c.certs[j - 1] && d.certs[j] == c.certs[j];
      }
    }
  }

  /** The keys still to be drawn are new and different from each other. */
  ghost predicate KeysFresh(steps: seq<Step>, s: Snapshot, from: nat)
  {
    && (forall j :: from <= j < |steps| ==> Novel(s, steps[j].k.publicKey))
    && (forall i, j :: from <= i < j < |steps| ==> steps[i].k.publicKey != steps[j].k.publicKey)
  }

  lemma StillFresh(steps: seq<Step>, s: Snapshot, t: Snapshot, i: nat)
    requires i < |steps| && KeysFresh(steps, s, i) && (s == t || NewOnly(s, t, steps[i].k.publicKey))
    ensures KeysFresh(steps, t, i + 1)
  {
    hide Novel;
  }

  lemma NextFresh(steps: seq<Step>, s: Snapshot, i: nat)
    requires i < |steps| && KeysFresh(steps, s, i)
    ensures Novel(s, steps[i].k.publicKey)
  {
  }

  /** Every rotation's destruction finds the old file and overwrites or removes it. */
  ghost predicate AllErase(steps: seq<Step>)
  {
    forall i :: 0 <= i < |steps| && steps[i].RotateStep? ==> steps[i].rotate.destroy.Erase()
  }

  /** Any mix of rotations, failures and crashes: every state on the way can be recovered from, what
      was published stays, and if the clock does not go back the chain verifies. If no key is drawn twice,
      then in every state at most the keys of the last two epochs and the spared ones can be read, none
      of them comes back, and at the end of the past epochs exactly the spared ones can be read. */
  method RunSigner(sha: Hasher, origin: Bytes, hybrid: bool, disk: Disk, steps: seq<Step>) returns (up: Option<Signer>)
    requires AllRecoverable(disk.history, origin, hybrid) && Recoverable(disk.Now(), origin, hybrid)
    modifies disk
    ensures AllRecoverable(disk.history, origin, hybrid) && Recoverable(disk.Now(), origin, hybrid)
    ensures old(disk.history) <= disk.history
    ensures up.Some? ==> up.value.Valid() && up.value.disk == disk
    ensures old(disk.chain).Some? ==> disk.chain.Some? && old(disk.chain).value.certs <= disk.chain.value.certs
    ensures ClockForward(steps) && old(InTime(disk.chain, steps, 0)) && disk.chain.Some? ==>
              ChainVerifies(sha, disk.chain.value.certs, disk.chain.value.certs[0].publicKey, None)
    ensures old(disk.Guarded()) && KeysFresh(steps, old(disk.Now()), 0) ==> disk.Guarded()
    ensures old(disk.spared) <= disk.spared && (AllErase(steps) ==> disk.spared == old(disk.spared))
  {
    hide OwnCert, LinksTo, Numbered, GenesisOf, AllRecoverable, TimesInOrder, InTime, ClockForward, CertBytes, NextCert,
      KeysFresh, Settled, Traced;
    up := None;
    for i := 0 to |steps|
      invariant AllRecoverable(disk.history, origin, hybrid) && Recoverable(disk.Now(), origin, hybrid)
      invariant old(disk.history) <= disk.history
      invariant up.Some? ==> fresh(up.value) && fresh(up.value.active)
      invariant up.Some? ==> Mine(up.value, origin, hybrid, disk)
      invariant old(disk.chain).Some? ==> disk.chain.Some? && old(disk.chain).value.certs <= disk.chain.value.certs
      invariant ClockForward(steps) && old(InTime(disk.chain, steps, 0)) ==> InTime(disk.chain, steps, i)
      invariant old(disk.Guarded()) && KeysFresh(steps, old(disk.Now()), 0) ==>
                  disk.Guarded() && KeysFresh(steps, disk.Now(), i)
      invariant old(disk.spared) <= disk.spared && (AllErase(steps) ==> disk.spared == old(disk.spared))
    {
      up := TakeStep(origin, hybrid, disk, up, steps, i);
    }
    if disk.chain.Some? {
      var certs := disk.chain.value.certs;
      LinkedVerifiesIff(sha, certs, hybrid);
      if ClockForward(steps) && old(InTime(disk.chain, steps, 0)) {
        InTimeMeans(disk.chain, steps, |steps|);
      }
    }
  }

  ghost predicate Mine(s: Signer, origin: Bytes, hybrid: bool, disk: Disk)
    reads s, s.disk, s.active
  {
    s.Valid() && s.origin == origin && s.hybrid == hybrid && s.disk == disk
  }

  lemma InTimeMeans(chain: Option<Chain>, steps: seq<Step>, from: nat)
    requires InTime(chain, steps, from) && chain.Some? && chain.value.certs != []
    ensures TimesInOrder(chain.value.certs)
  {
  }

  lemma InTimeLater(chain: Option<Chain>, steps: seq<Step>, i: nat)
    requires InTime(chain, steps, i)
    ensures InTime(chain, steps, i + 1)
  {
  }

  lemma GenesisInTime(origin: Bytes, k: NewKey, steps: seq<Step>, i: nat)
    requires i < |steps| && ClockForward(steps)
    ensures var genesis := GenesisCert(k.publicKey, k.quantumPublicKey, steps[i].now);
            InTime(Some(Chain(origin, [genesis], k.path)), steps, i + 1)
  {
    hide CertBytes;
  }

  lemma NextStarted(prev: Cert, k: NewKey, now: I64)
    ensures var c := NextCert(prev, k.publicKey, k.quantumPublicKey, now);
            c.startedAt == now && c.publicKey == k.publicKey && c.quantumPublicKey == k.quantumPublicKey
  {
    hide CertBytes;
  }

  /** A rotation inside a run. */
  method RotateIn(signer: Signer, k: NewKey, now: I64, works: RotateCalls, ghost steps: seq<Step>, ghost i: nat)
    requires signer.Valid() && UsableKey(k, signer.disk.keys, signer.hybrid) && |signer.chain.certs| < TWO_TO_64
    requires i < |steps| && steps[i].now == now
    modifies signer, signer.disk, signer.active
    ensures signer.Valid() && old(signer.disk.history) <= signer.disk.history
    ensures signer.active == old(signer.active) || fresh(signer.active)
    ensures old(signer.chain.certs) <= signer.chain.certs
    ensures ClockForward(steps) && old(InTime(signer.disk.chain, steps, i)) ==> InTime(signer.disk.chain, steps, i + 1)
    ensures old(signer.disk.Guarded()) && old(Novel(signer.disk.Now(), k.publicKey)) ==> signer.disk.Guarded()
    ensures NewOnly(old(signer.disk.Now()), signer.disk.Now(), k.publicKey)
    ensures old(signer.disk.spared) <= signer.disk.spared
    ensures works.destroy.Erase() ==> signer.disk.spared == old(signer.disk.spared)
  {
    hide OwnCert, LinksTo, Numbered, GenesisOf, AllRecoverable, TimesInOrder, InTime, ClockForward, CertBytes, NextCert,
      Novel, NewOnly, Settled, Traced, BothReadable;
    ghost var before := signer.chain;
    ghost var last := signer.LastCert();
    var _ := signer.Rotate(k, now, works);
    if ClockForward(steps) && old(InTime(signer.disk.chain, steps, i)) {
      InTimeLater(Some(before), steps, i);
      if signer.chain != before {
        NextStarted(last, k, now);
        StillInTime(before, signer.chain, steps, i);
      }
    }
  }

  /** A restart inside a run. */
  method OpenIn(origin: Bytes, hybrid: bool, disk: Disk, k: NewKey, now: I64, works: OpenCalls,
                ghost steps: seq<Step>, ghost i: nat)
    returns (up: Option<Signer>)
    requires AllRecoverable(disk.history, origin, hybrid) && Recoverable(disk.Now(), origin, hybrid)
    requires UsableKey(k, disk.keys, hybrid) && i < |steps| && steps[i].now == now
    modifies disk`keys, disk`chain, disk`history
    ensures AllRecoverable(disk.history, origin, hybrid) && Recoverable(disk.Now(), origin, hybrid)
    ensures old(disk.history) <= disk.history
    ensures up.Some? ==> Mine(up.value, origin, hybrid, disk) && fresh(up.value) && fresh(up.value.active)
    ensures old(disk.chain).Some? ==> disk.chain == old(disk.chain)
    ensures ClockForward(steps) && old(InTime(disk.chain, steps, i)) ==> InTime(disk.chain, steps, i + 1)
    ensures old(disk.Guarded()) && old(Novel(disk.Now(), k.publicKey)) ==> disk.Guarded()
    ensures NewOnly(old(disk.Now()), disk.Now(), k.publicKey)
  {
    hide KeyChain.Linked, AllRecoverable, InTime, ClockForward, GenesisCert, Novel, NewOnly, Settled, Traced;
    up := Open(origin, hybrid, disk, k, now, works);
    if ClockForward(steps) && old(InTime(disk.chain, steps, i)) {
      InTimeLater(old(disk.chain), steps, i);
      NothingInTime(steps, i + 1);
      GenesisInTime(origin, k, steps, i);
    }
  }

  lemma NothingInTime(steps: seq<Step>, i: nat)
    ensures InTime(None, steps, i)
  {
  }

  /** One step of a run. A step whose file name is taken draws another name, so it is skipped here. */
  method TakeStep(origin: Bytes, hybrid: bool, disk: Disk, s: Option<Signer>, steps: seq<Step>,
                  i: nat) returns (up: Option<Signer>)
    requires i < |steps|
    requires AllRecoverable(disk.history, origin, hybrid) && Recoverable(disk.Now(), origin, hybrid)
    requires s.Some? ==> Mine(s.value, origin, hybrid, disk)
    modifies disk, if s.Some? then {s.value, s.value.active} else {}
    ensures AllRecoverable(disk.history, origin, hybrid) && Recoverable(disk.Now(), origin, hybrid)
    ensures old(disk.history) <= disk.history
    ensures up.Some? ==> Mine(up.value, origin, hybrid, disk)
    ensures up.Some? ==> up == s || fresh(up.value)
    ensures up.Some? ==> fresh(up.value.active) || (up == s && up.value.active == old(up.value.active))
    ensures old(disk.chain).Some? ==> disk.chain.Some? && old(disk.chain).value.certs <= disk.chain.value.certs
    ensures ClockForward(steps) && old(InTime(disk.chain, steps, i)) ==> InTime(disk.chain, steps, i + 1)
    ensures old(disk.Guarded()) && KeysFresh(steps, old(disk.Now()), i) ==>
              disk.Guarded() && KeysFresh(steps, disk.Now(), i + 1)
    ensures old(disk.spared) <= disk.spared && (AllErase(steps) ==> disk.spared == old(disk.spared))
  {
    hide KeyChain.Linked, AllRecoverable, InTime, ClockForward, KeysFresh, Settled, Traced, NewOnly, Novel;
    up := s;
    var step := steps[i];
    ghost var start := disk.Now();
    if KeysFresh(steps, start, i) {
      NextFresh(steps, start, i);
      StillFresh(steps, start, start, i);
    }
    if old(InTime(disk.chain, steps, i)) {
      InTimeLater(disk.chain, steps, i);
    }
    if step.k.path == [] || step.k.path in disk.keys || !KeysOk(step.k.publicKey, step.k.quantumPublicKey, hybrid) {
      return;
    }
    match step {
      case RestartStep(k, now, open) =>
        up := OpenIn(origin, hybrid, disk, k, now, open, steps, i);
      case RotateStep(k, now, rotate) =>
        if s.Some? && |s.value.chain.certs| < TWO_TO_64 {
          RotateIn(s.value, k, now, rotate, steps, i);
        }
    }
    if KeysFresh(steps, start, i) && disk.Now() != start {
      StillFresh(steps, start, disk.Now(), i);
    }
  }
}
