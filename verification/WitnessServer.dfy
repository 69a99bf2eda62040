/** `pkg/witness`, as the server runs it: fields under a lock, files rewritten one by one. Every method
    is one step, or a sequence of steps, of the protocol. */
module WitnessServer {
  import opened Encoding
  import opened Hashing
  import opened Crypto
  import opened Options
  import opened Threshold
  import opened KeyChain
  import opened Checkpoints
  import opened Witnessing
  import opened TextLines

  datatype Evidence = Evidence(size: U64, ours: Option<Checkpoint>, theirs: Option<Checkpoint>, peer: Bytes)

  /** The witness's directory, and what its key has signed. */
  class Files {
    var operators: map<Bytes, Bytes>
    var seen: map<Spot, Bytes>
    var checkpoints: map<Spot, Checkpoint>
    var forks: map<Bytes, Evidence>
    var latest: map<Heard, Statement>
    /** Every statement received, oldest first; in the same file as `latest`. */
    var history: seq<Statement>
    var crossAtts: seq<CrossAttestation>
    /** Every root key an operator was ever watched under. */
    ghost var roots: set<(Bytes, Bytes)>
    ghost var cosigned: set<Checkpoint>
    ghost var statements: set<Statement>
    ghost var cross: set<Bytes>
  }

  // ---- Texts ----

  /** The least size of a set, as a sort would put it first. */
  method Least(sizes: set<U64>) returns (least: U64)
    requires sizes != {}
    ensures least in sizes && forall s :: s in sizes ==> least <= s
  {
    least :| least in sizes;
    var rest := sizes;
    while rest != {}
      invariant least in sizes && rest <= sizes && forall s :: s in sizes && s !in rest ==> least <= s
      decreases |rest|
    {
      var s :| s in rest;
      rest := rest - {s};
      if s < least {
        least := s;
      }
    }
  }

  lemma {:induction false} LinesTo(seen: map<U64, Bytes>, from: nat, end: nat)
    requires from <= end <= TWO_TO_64
    requires forall s: U64 :: from <= s < end ==> s !in seen
    ensures LinesFrom(seen, from) == LinesFrom(seen, end)
    decreases end - from
  {
    if from < end {
      LinesTo(seen, from + 1, end);
      assert [] + LinesFrom(seen, from + 1) == LinesFrom(seen, from + 1);
    }
  }

  /** The sorted lines of a statement, written one after another. */
  method WriteLines(seen: map<U64, Bytes>) returns (buf: Bytes)
    ensures buf == LinesFrom(seen, 0)
  {
    hide EntryLine, RenderLine, LinesFrom;
    buf := [];
    var rest := seen.Keys;
    assert [] + LinesFrom(seen, 0) == LinesFrom(seen, 0);
    ghost var from: nat := 0;
    while rest != {}
      invariant from <= TWO_TO_64 && forall s: U64 :: s in rest <==> s in seen && from <= s
      invariant LinesFrom(seen, 0) == buf + LinesFrom(seen, from)
      decreases |rest|
    {
      var size := Least(rest);
      LinesNext(seen, from, size, buf);
      buf := buf + RenderLine(EntryLine(size, seen[size]));
      rest := rest - {size};
      from := size;
      from := from + 1;
    }
    LinesTo(seen, from, TWO_TO_64);
    NoLines(seen);
  }

  lemma LinesNext(seen: map<U64, Bytes>, from: nat, size: nat, buf: Bytes)
    requires from <= size < TWO_TO_64 && size in seen && forall s: U64 :: from <= s < size ==> s !in seen
    ensures buf + LinesFrom(seen, from) == buf + RenderLine(EntryLine(size, seen[size])) + LinesFrom(seen, size + 1)
  {
    hide EntryLine, RenderLine;
    LinesTo(seen, from, size);
    assert LinesFrom(seen, size) == RenderLine(EntryLine(size, seen[size])) + LinesFrom(seen, size + 1);
  }

  lemma NoLines(seen: map<U64, Bytes>)
    ensures LinesFrom(seen, TWO_TO_64) == []
  {
  }

  /** `SignedSeen.Canonical`. */
  method WriteStatement(s: Statement) returns (buf: Bytes)
    ensures buf == StatementText(s)
  {
    hide LinesFrom, StatementLines, Render;
    var lines := WriteLines(s.seen);
    buf := Render(StatementLines(s)) + lines;
  }

  /** `findContradiction`, and the loop of `CompareWithPeer`: maps are walked in any order, and a
      differing size is found exactly when there is one. */
  method FindContradiction(a: map<U64, Bytes>, b: map<U64, Bytes>) returns (size: Option<U64>)
    ensures size.Some? <==> Contradicts(a, b)
    ensures size.Some? ==> size.value in a && size.value in b && a[size.value] != b[size.value]
  {
    var rest := a.Keys;
    while rest != {}
      invariant rest <= a.Keys && forall s :: s in a && s !in rest && s in b ==> a[s] == b[s]
      decreases |rest|
    {
      var s :| s in rest;
      rest := rest - {s};
      if s in b && b[s] != a[s] {
        return Some(s);
      }
    }
    return None;
  }

  /** `CrossAttestation.Canonical`. */
  method WriteCross(c: CrossAttestation) returns (buf: Bytes)
    ensures buf == CrossText(c)
  {
    hide LinesFrom, CrossLines, Render;
    var lines := WriteLines(c.overlap);
    buf := Render(CrossLines(c)) + lines;
  }

  /** The tests of `gossipOne` on a reply: `SignedSeen.Verify`, then the peer's own key and name. */
  method CheckReply(peer: Peer, stmt: Statement) returns (ok: bool)
    ensures ok <==> Trusted(peer, stmt)
  {
    hide StatementText;
    var text := WriteStatement(stmt);
    if |stmt.publicKey| != PUBLIC_KEY_SIZE || stmt.signature.Length() != SIGNATURE_SIZE {
      return false;
    }
    if !EdVerify(stmt.publicKey, text, stmt.signature) {
      return false;
    }
    return stmt.publicKey == peer.publicKey && stmt.witnessId == peer.id;
  }

  /** The loop of `issueCrossAttestation`, over the peer's sizes in any order. */
  method FindOverlap(mine: map<U64, Bytes>, theirs: map<U64, Bytes>) returns (overlap: map<U64, Bytes>)
    ensures overlap == Agreement(mine, theirs)
  {
    overlap := map[];
    var rest := theirs.Keys;
    while rest != {}
      invariant rest <= theirs.Keys
      invariant forall s :: s in overlap <==> s in theirs && s !in rest && s in mine && mine[s] == theirs[s]
      invariant forall s :: s in overlap ==> overlap[s] == mine[s]
      decreases |rest|
    {
      var s :| s in rest;
      rest := rest - {s};
      if s in mine && mine[s] == theirs[s] {
        overlap := overlap[s := mine[s]];
      }
    }
  }

  lemma CosignStep(sha: Hasher, w: Witness, c: Checkpoint, chain: Option<Chain>, group: Option<Group>,
                   works: CosignCalls)
    ensures Step(sha, w, Event.Cosign(c, chain, group, works.saveSeen, works.saveCheckpoints, works.saveForks))
         == if !Presentable(sha, w, c, chain, group) then w
            else if Conflicts(w, c) then Flag(w, c.origin, works.saveForks)
            else Accept(w, c, works.saveSeen, works.saveCheckpoints)
  {
    hide Presentable, Conflicts, Flag, Accept;
  }

  /** What a server signs is counted by a client that trusts its keys. */
  lemma OwnSignatureCounts(server: Server, c: Checkpoint, trust: Bytes -> Option<Trust>)
    requires |server.key| == PUBLIC_KEY_SIZE && trust(server.id) == Some(Trust(server.key, server.quantumKey))
    requires server.quantumKey == [] || |server.quantumKey| == QUANTUM_PUBLIC_KEY_SIZE
    ensures SignedByWitness(server.SignatureOn(c), WitnessText(c), trust)
  {
    hide WitnessText;
  }

  lemma AcceptSigns(w: Witness, c: Checkpoint)
    ensures c in Accept(w, c, true, true).cosigned
  {
  }

  // ---- Evidence ----

  /** What the witness remembers about checkpoints and forks, in memory or in its files. */
  datatype Memory = Memory(operators: map<Bytes, Bytes>, seen: map<Spot, Bytes>, checkpoints: map<Spot, Checkpoint>,
                           forks: map<Bytes, Evidence>)

  /** The checkpoint was signed under a root key its origin was watched under. */
  ghost predicate Shown(sha: Hasher, roots: set<(Bytes, Bytes)>, c: Checkpoint)
  {
    exists chain, rootKey, group :: (c.origin, rootKey) in roots && OperatorSigned(sha, c, chain, rootKey, group)
  }

  /** A remembered checkpoint is a signed one for its place, with the root in the seen map. */
  ghost predicate Remembered(sha: Hasher, roots: set<(Bytes, Bytes)>, seen: map<Spot, Bytes>, spot: Spot, c: Checkpoint)
  {
    SpotOf(c) == spot && spot in seen && seen[spot] == Hex(c.rootHash) && Shown(sha, roots, c)
  }

  /** Evidence against an origin: its own side is a signed checkpoint of that origin and size. Evidence that
      names no peer has the other side too, with a different root. What a peer sent along is not checked. */
  ghost predicate Convicts(sha: Hasher, roots: set<(Bytes, Bytes)>, origin: Bytes, e: Evidence)
  {
    && (e.ours.Some? ==> SpotOf(e.ours.value) == Spot(origin, e.size) && Shown(sha, roots, e.ours.value))
    && (e.peer == [] ==>
          && e.theirs.Some? && SpotOf(e.theirs.value) == Spot(origin, e.size) && Shown(sha, roots, e.theirs.value)
          && (e.ours.Some? ==> e.ours.value.rootHash != e.theirs.value.rootHash))
  }

  ghost predicate Sound(sha: Hasher, roots: set<(Bytes, Bytes)>, m: Memory)
  {
    && (forall o :: o in m.operators ==> (o, m.operators[o]) in roots)
    && (forall spot :: spot in m.checkpoints ==> Remembered(sha, roots, m.seen, spot, m.checkpoints[spot]))
    && (forall o :: o in m.forks ==> Convicts(sha, roots, o, m.forks[o]))
  }

  /** Memory and files are sound, and memory has what is on file about roots. */
  ghost predicate Kept(sha: Hasher, roots: set<(Bytes, Bytes)>, m: Memory, files: Memory)
  {
    && Sound(sha, roots, m) && Sound(sha, roots, files)
    && (forall spot :: spot in files.seen ==> spot in m.seen && m.seen[spot] == files.seen[spot])
  }

  lemma ForkKept(sha: Hasher, roots: set<(Bytes, Bytes)>, m: Memory, files: Memory, origin: Bytes, e: Evidence,
                 saved: bool)
    requires Kept(sha, roots, m, files) && Convicts(sha, roots, origin, e)
    ensures var forks := m.forks[origin := e];
            Kept(sha, roots, m.(forks := forks), if saved then files.(forks := forks) else files)
  {
    hide Remembered, Convicts;
  }

  lemma ClearedKept(sha: Hasher, roots: set<(Bytes, Bytes)>, m: Memory, files: Memory, origin: Bytes, saved: bool)
    requires Kept(sha, roots, m, files)
    ensures var forks := m.forks - {origin};
            Kept(sha, roots, m.(forks := forks), if saved then files.(forks := forks) else files)
  {
    hide Remembered, Convicts;
  }

  lemma OperatorKept(sha: Hasher, roots: set<(Bytes, Bytes)>, m: Memory, files: Memory, origin: Bytes, rootKey: Bytes,
                     saved: bool)
    requires Kept(sha, roots, m, files)
    ensures var operators := m.operators[origin := rootKey];
            Kept(sha, roots + {(origin, rootKey)}, m.(operators := operators),
                 if saved then files.(operators := operators) else files)
  {
    hide OperatorSigned, Hex;
    var more := roots + {(origin, rootKey)};
    SoundUnderMore(sha, roots, more, m);
    SoundUnderMore(sha, roots, more, files);
  }

  lemma ShownUnderMore(sha: Hasher, roots: set<(Bytes, Bytes)>, more: set<(Bytes, Bytes)>, c: Checkpoint)
    requires roots <= more && Shown(sha, roots, c)
    ensures Shown(sha, more, c)
  {
    hide OperatorSigned;
  }

  lemma SoundUnderMore(sha: Hasher, roots: set<(Bytes, Bytes)>, more: set<(Bytes, Bytes)>, m: Memory)
    requires Sound(sha, roots, m) && roots <= more
    ensures Sound(sha, more, m)
  {
    hide Shown, Hex;
    forall spot | spot in m.checkpoints
      ensures Remembered(sha, more, m.seen, spot, m.checkpoints[spot])
    {
      assert Remembered(sha, roots, m.seen, spot, m.checkpoints[spot]);
      ShownUnderMore(sha, roots, more, m.checkpoints[spot]);
    }
    forall o | o in m.forks
      ensures Convicts(sha, more, o, m.forks[o])
    {
      var e := m.forks[o];
      assert Convicts(sha, roots, o, e);
      if e.ours.Some? {
        ShownUnderMore(sha, roots, more, e.ours.value);
      }
      if e.peer == [] {
        ShownUnderMore(sha, roots, more, e.theirs.value);
      }
    }
  }

  /** A checkpoint that is shown and does not conflict can be remembered, with any saves failing. */
  lemma AdmittedKept(sha: Hasher, roots: set<(Bytes, Bytes)>, m: Memory, files: Memory, c: Checkpoint, saveSeen: bool,
                     saveCheckpoints: bool)
    requires Kept(sha, roots, m, files) && Shown(sha, roots, c)
    requires SpotOf(c) in m.seen ==> m.seen[SpotOf(c)] == Hex(c.rootHash)
    ensures var m' := m.(seen := m.seen[SpotOf(c) := Hex(c.rootHash)], checkpoints := m.checkpoints[SpotOf(c) := c]);
            Kept(sha, roots, m',
                 if !saveSeen then files
                 else if !saveCheckpoints then files.(seen := m'.seen)
                 else files.(seen := m'.seen, checkpoints := m'.checkpoints))
  {
    hide Shown, Convicts, Hex;
  }

  /** The evidence of a conflict: the checkpoint remembered for the place, if any, and the one just shown. */
  function ConflictEvidence(checkpoints: map<Spot, Checkpoint>, c: Checkpoint): Evidence
  {
    Evidence(c.size, if SpotOf(c) in checkpoints then Some(checkpoints[SpotOf(c)]) else None, Some(c), [])
  }

  lemma ConflictConvicts(sha: Hasher, roots: set<(Bytes, Bytes)>, m: Memory, c: Checkpoint)
    requires Sound(sha, roots, m) && Shown(sha, roots, c)
    requires SpotOf(c) in m.seen && m.seen[SpotOf(c)] != Hex(c.rootHash)
    ensures Convicts(sha, roots, c.origin, ConflictEvidence(m.checkpoints, c))
  {
    hide Shown, Hex;
    if SpotOf(c) in m.checkpoints {
      assert Remembered(sha, roots, m.seen, SpotOf(c), m.checkpoints[SpotOf(c)]);
    }
  }

  /** The evidence of a differing size in a peer's statement: what is remembered for it and what the peer
      sent. */
  function PeerEvidence(checkpoints: map<Spot, Checkpoint>, origin: Bytes, size: U64, theirs: Option<Checkpoint>,
                        peer: Bytes): Evidence
  {
    var spot := Spot(origin, size);
    Evidence(size, if spot in checkpoints then Some(checkpoints[spot]) else None, theirs, peer)
  }

  lemma PeerOurs(sha: Hasher, roots: set<(Bytes, Bytes)>, m: Memory, origin: Bytes, size: U64, root: Bytes)
    requires Sound(sha, roots, m) && Spot(origin, size) in m.seen && m.seen[Spot(origin, size)] != root
    ensures Spot(origin, size) in m.checkpoints ==> Hex(m.checkpoints[Spot(origin, size)].rootHash) != root
  {
    hide Shown, Hex, Convicts;
    if Spot(origin, size) in m.checkpoints {
      assert Remembered(sha, roots, m.seen, Spot(origin, size), m.checkpoints[Spot(origin, size)]);
    }
  }

  /** A size on which the peer's last statement and the new one differ. */
  ghost predicate Differing(latest: map<Heard, Statement>, peer: Bytes, stmt: Statement, size: U64)
  {
    var k := Heard(peer, stmt.origin);
    k in latest && size in latest[k].seen && size in stmt.seen && latest[k].seen[size] != stmt.seen[size]
  }

  lemma PeerConvicts(sha: Hasher, roots: set<(Bytes, Bytes)>, m: Memory, origin: Bytes, size: U64,
                     theirs: Option<Checkpoint>, peer: Bytes)
    requires Sound(sha, roots, m) && peer != []
    ensures var e := PeerEvidence(m.checkpoints, origin, size, theirs, peer);
            Convicts(sha, roots, origin, e)
  {
    hide Shown, Hex;
    if Spot(origin, size) in m.checkpoints {
      assert Remembered(sha, roots, m.seen, Spot(origin, size), m.checkpoints[Spot(origin, size)]);
    }
  }

  datatype CosignCalls = CosignCalls(saveSeen: bool, saveCheckpoints: bool, saveForks: bool)

  class Server {
    const sha: Hasher
    const id: Bytes
    const key: Bytes
    const quantumKey: Bytes
    const files: Files
    var operators: map<Bytes, Bytes>
    var seen: map<Spot, Bytes>
    var checkpoints: map<Spot, Checkpoint>
    var forks: map<Bytes, Evidence>
    var latest: map<Heard, Statement>
    var history: seq<Statement>
    var crossAtts: seq<CrossAttestation>

    /** The protocol state this server and its directory are in. */
    ghost function State(): Witness
      reads this, files
    {
      Witness(id, key, View(operators, seen, forks.Keys, latest),
              View(files.operators, files.seen, files.forks.Keys, files.latest),
              files.cosigned, files.statements, files.cross)
    }

    ghost function InMemory(): Memory
      reads this
    {
      Memory(operators, seen, checkpoints, forks)
    }

    ghost function OnFile(): Memory
      reads this, files
    {
      Memory(files.operators, files.seen, files.checkpoints, files.forks)
    }

    /** Whatever is remembered or held against an origin, in memory or on file, is as it should be. */
    ghost predicate Valid()
      reads this, files
    {
      Kept(sha, files.roots, InMemory(), OnFile())
    }

    /** `newServer` on an existing directory: memory is what the files say. */
    constructor (sha: Hasher, id: Bytes, key: Bytes, quantumKey: Bytes, files: Files)
      ensures this.sha == sha && this.id == id && this.key == key && this.quantumKey == quantumKey
      ensures this.files == files
      ensures State() == Step(sha, State(), Restart) && checkpoints == files.checkpoints
      ensures history == files.history && crossAtts == files.crossAtts && forks == files.forks
      ensures operators == files.operators && seen == files.seen && latest == files.latest
      ensures Sound(sha, files.roots, OnFile()) ==> Valid()
    {
      this.sha, this.id, this.key, this.quantumKey, this.files := sha, id, key, quantumKey, files;
      operators, seen, checkpoints := files.operators, files.seen, files.checkpoints;
      forks, latest, history, crossAtts := files.forks, files.latest, files.history, files.crossAtts;
    }

    /** `recordForkLocked`. */
    method RecordFork(origin: Bytes, evidence: Evidence, saved: bool)
      modifies this`forks, files`forks
      ensures State() == Flag(old(State()), origin, saved)
      ensures forks == old(forks)[origin := evidence]
      ensures files.forks == if saved then forks else old(files.forks)
      ensures old(Valid()) && Convicts(sha, files.roots, origin, evidence) ==> Valid()
    {
      hide Sound, Convicts;
      if Valid() && Convicts(sha, files.roots, origin, evidence) {
        ForkKept(sha, files.roots, InMemory(), OnFile(), origin, evidence, saved);
      }
      hide Kept;
      forks := forks[origin := evidence];
      assert forks.Keys == old(forks).Keys + {origin};
      if saved {
        files.forks := forks;
      }
    }

    /** The checks of `Cosign` before the fork check. */
    method CheckPresentable(c: Checkpoint, chain: Option<Chain>, group: Option<Group>) returns (ok: bool)
      ensures ok <==> Presentable(sha, State(), c, chain, group)
    {
      hide OperatorSigned;
      if c.origin in forks || c.origin !in operators {
        return false;
      }
      ok := Verify(sha, c, chain, operators[c.origin], group);
    }

    /** Remembering, saving, and signing last. */
    method Admit(c: Checkpoint, works: CosignCalls) returns (r: Option<WitnessSig>)
      modifies this, files
      ensures State() == Accept(old(State()), c, works.saveSeen, works.saveCheckpoints)
      ensures r == if works.saveSeen && works.saveCheckpoints then Some(SignatureOn(c)) else None
      ensures checkpoints == old(checkpoints)[SpotOf(c) := c] && forks == old(forks) && files.forks == old(files.forks)
      ensures old(Valid()) && Shown(sha, old(files.roots), c) && !Conflicts(old(State()), c) ==> Valid()
    {
      hide WitnessText, Hex, Sound, Shown;
      var spot := SpotOf(c);
      if Valid() && Shown(sha, files.roots, c) && !Conflicts(State(), c) {
        AdmittedKept(sha, files.roots, InMemory(), OnFile(), c, works.saveSeen, works.saveCheckpoints);
      }
      hide Kept;
      seen := seen[spot := Hex(c.rootHash)];
      checkpoints := checkpoints[spot := c];
      if !works.saveSeen {
        return None;
      }
      files.seen := seen;
      if !works.saveCheckpoints {
        return None;
      }
      files.checkpoints := checkpoints;
      files.cosigned := files.cosigned + {c};
      return Some(SignatureOn(c));
    }

    /** The witness's countersignature, in both halves when it has a quantum key. */
    function SignatureOn(c: Checkpoint): (w: WitnessSig)
      ensures w.witnessId == id && w.publicKey == key && EdVerify(key, WitnessText(c), w.signature)
      ensures |quantumKey| == QUANTUM_PUBLIC_KEY_SIZE ==> QuantumVerify(quantumKey, WitnessText(c), w.quantumSignature)
    {
      var text := WitnessText(c);
      WitnessSig(id, key, Signed(Ed25519, key, text), quantumKey,
                 if quantumKey == [] then NoSignature else Signed(Dilithium3, quantumKey, text))
    }

    /** `Cosign`: one protocol step, and a signature exactly when that step countersigned. */
    method Cosign(c: Checkpoint, chain: Option<Chain>, group: Option<Group>,
                  works: CosignCalls) returns (r: Option<WitnessSig>)
      modifies this, files
      ensures var e := Event.Cosign(c, chain, group, works.saveSeen, works.saveCheckpoints, works.saveForks);
              State() == Step(sha, old(State()), e)
      ensures r == if old(Presentable(sha, State(), c, chain, group) && !Conflicts(State(), c))
                      && works.saveSeen && works.saveCheckpoints
                   then Some(SignatureOn(c)) else None
      ensures r.Some? ==> c in files.cosigned
      ensures forks == if old(Presentable(sha, State(), c, chain, group) && Conflicts(State(), c))
                       then old(forks)[c.origin := ConflictEvidence(old(checkpoints), c)] else old(forks)
      ensures files.forks == if old(Presentable(sha, State(), c, chain, group) && Conflicts(State(), c))
                                && works.saveForks
                             then forks else old(files.forks)
      ensures old(Valid()) ==> Valid()
    {
      hide Presentable, WitnessText, Hex, Accept, Flag, Step, SignatureOn, Kept, Shown;
      if Valid() && Presentable(sha, State(), c, chain, group) {
        PresentableShown(c, chain, group);
      }
      CosignStep(sha, State(), c, chain, group, works);
      var presentable := CheckPresentable(c, chain, group);
      if !presentable {
        return None;
      }
      var spot, rootHex := SpotOf(c), Hex(c.rootHash);
      if spot in seen && seen[spot] != rootHex {
        var ours := if spot in checkpoints then Some(checkpoints[spot]) else None;
        RecordFork(c.origin, Evidence(c.size, ours, Some(c), []), works.saveForks);
        return None;
      }
      r := Admit(c, works);
      AcceptSigns(old(State()), c);
    }

    /** What passes the checks was signed under a watched root, and a conflict with it convicts. */
    lemma PresentableShown(c: Checkpoint, chain: Option<Chain>, group: Option<Group>)
      requires Valid() && Presentable(sha, State(), c, chain, group)
      ensures Shown(sha, files.roots, c)
      ensures Conflicts(State(), c) ==> Convicts(sha, files.roots, c.origin, ConflictEvidence(checkpoints, c))
    {
      hide OperatorSigned, Hex, Remembered, Convicts;
      assert Shown(sha, files.roots, c) by {
        assert (c.origin, operators[c.origin]) in files.roots;
      }
      if Conflicts(State(), c) {
        ConflictConvicts(sha, files.roots, InMemory(), c);
      }
    }

    /** `AddOperator`. */
    method AddOperator(origin: Bytes, rootKey: Bytes, saved: bool) returns (ok: bool)
      modifies this, files
      ensures State() == Step(sha, old(State()), Event.AddOperator(origin, rootKey, saved))
      ensures ok <==> origin != [] && |rootKey| == PUBLIC_KEY_SIZE && saved
      ensures old(Valid()) ==> Valid()
    {
      if origin == [] || |rootKey| != PUBLIC_KEY_SIZE {
        return false;
      }
      hide Sound;
      if Valid() {
        OperatorKept(sha, files.roots, InMemory(), OnFile(), origin, rootKey, saved);
      }
      hide Kept;
      files.roots := files.roots + {(origin, rootKey)};
      operators := operators[origin := rootKey];
      if !saved {
        return false;
      }
      files.operators := operators;
      return true;
    }

    /** `ClearFork`; a failing save is ignored. */
    method ClearFork(origin: Bytes, saved: bool)
      modifies this, files
      ensures State() == Step(sha, old(State()), Event.ClearFork(origin, saved))
      ensures old(Valid()) ==> Valid()
    {
      hide Sound;
      if Valid() {
        ClearedKept(sha, files.roots, InMemory(), OnFile(), origin, saved);
      }
      hide Kept;
      forks := forks - {origin};
      assert forks.Keys == old(forks).Keys - {origin};
      if saved {
        files.forks := forks;
      }
    }

    /** `IssueSignedSeen`. */
    method IssueSignedSeen(origin: Bytes, now: I64) returns (s: Statement)
      modifies files`statements
      ensures s == StatementOf(State(), origin, now)
      ensures s.seen == SeenOf(seen, origin) && s.issuedAt == now
      ensures |key| == PUBLIC_KEY_SIZE ==> StatedBy(key, Heard(id, origin), s)
      ensures State() == Step(sha, old(State()), Issue(origin, now))
      ensures Valid() == old(Valid())
    {
      hide StatementText, SeenOf, Kept;
      var unsigned := Statement(id, key, origin, SeenOf(seen, origin), now, NoSignature);
      var text := WriteStatement(unsigned);
      s := unsigned.(signature := Signed(Ed25519, key, text));
      SameStatementText(unsigned, s);
      files.statements := files.statements + {s};
    }

    /** `recordAttestationLocked`. */
    method RecordAttestation(peer: Bytes, stmt: Statement, saveForks: bool, saveLatest: bool)
      modifies this, files
      ensures State() == Record(old(State()), peer, stmt, saveForks, saveLatest)
      ensures history == old(history) + [stmt] && checkpoints == old(checkpoints) && seen == old(seen)
      ensures files.history == if saveLatest then history else old(files.history)
      ensures forks == old(forks)
              || (exists size :: Differing(old(latest), peer, stmt, size)
                                 && forks == old(forks)[stmt.origin := Evidence(size, None, None, peer)])
      ensures old(Valid()) && peer != [] ==> Valid()
    {
      hide Contradicts, Kept;
      var k := Heard(peer, stmt.origin);
      if k in latest {
        var size := FindContradiction(latest[k].seen, stmt.seen);
        if size.Some? {
          assert Differing(latest, peer, stmt, size.value);
          RecordFork(stmt.origin, Evidence(size.value, None, None, peer), saveForks);
        }
      }
      latest := latest[k := stmt];
      history := history + [stmt];
      if saveLatest {
        files.latest, files.history := latest, history;
      }
    }

    /** `CompareWithPeer`: a fork is recorded exactly when the two views differ at a common size, with
        that size as evidence. */
    method CompareWithPeer(origin: Bytes, peerSeen: map<U64, Bytes>, peer: Bytes,
                           theirs: U64 -> Option<Checkpoint>, saveForks: bool)
      returns (fork: Option<U64>)
      modifies this`forks, files`forks
      ensures fork.Some? <==> Contradicts(SeenOf(seen, origin), peerSeen)
      ensures State() == if fork.Some? then Flag(old(State()), origin, saveForks) else old(State())
      ensures fork.Some? ==> Spot(origin, fork.value) in seen && fork.value in peerSeen
                             && seen[Spot(origin, fork.value)] != peerSeen[fork.value]
      ensures forks == if fork.Some? then old(forks)[origin := PeerEvidence(checkpoints, origin, fork.value,
                                                                            theirs(fork.value), peer)]
                       else old(forks)
      ensures files.forks == if fork.Some? && saveForks then forks else old(files.forks)
      ensures old(Valid()) && peer != [] ==> Valid()
      ensures old(Valid()) && fork.Some? && forks[origin].ours.Some? ==>
                Hex(forks[origin].ours.value.rootHash) != peerSeen[fork.value]
    {
      hide Contradicts, SeenOf, Sound, Convicts;
      fork := FindContradiction(SeenOf(seen, origin), peerSeen);
      if fork.Some? {
        SeenOfHas(seen, origin, fork.value);
        if Valid() {
          PeerOurs(sha, files.roots, InMemory(), origin, fork.value, peerSeen[fork.value]);
          if peer != [] {
            PeerConvicts(sha, files.roots, InMemory(), origin, fork.value, theirs(fork.value), peer);
          }
        }
        hide Kept;
        var spot := Spot(origin, fork.value);
        var ours := if spot in checkpoints then Some(checkpoints[spot]) else None;
        RecordFork(origin, Evidence(fork.value, ours, theirs(fork.value), peer), saveForks);
      }
    }

    /** `issueCrossAttestation` and `recordCrossAttestationLocked`: the sizes on which both views agree, if
        there are any, signed, kept, and on disk exactly when the save works. */
    method CrossAttest(peer: Peer, stmt: Statement, now: I64, saved: bool) returns (att: Option<CrossAttestation>)
      modifies this`crossAtts, files`crossAtts, files`cross
      ensures att.Some? <==> Agreement(SeenOf(seen, stmt.origin), stmt.seen) != map[]
      ensures att.Some? ==>
                && att.value.(signature := NoSignature)
                   == CrossAttestation(id, key, peer.id, peer.publicKey, stmt.origin,
                                       Agreement(SeenOf(seen, stmt.origin), stmt.seen), now, stmt.issuedAt, NoSignature)
                && (|key| == PUBLIC_KEY_SIZE ==> CrossVerifies(att.value))
      ensures State() == if att.Some? then Step(sha, old(State()), Event.CrossAttest(CrossText(att.value)))
                         else old(State())
      ensures crossAtts == if att.Some? then old(crossAtts) + [att.value] else old(crossAtts)
      ensures files.crossAtts == if att.Some? && saved then crossAtts else old(files.crossAtts)
      ensures Valid() == old(Valid())
    {
      hide Agreement, SeenOf, CrossText, Kept;
      var overlap := FindOverlap(SeenOf(seen, stmt.origin), stmt.seen);
      if overlap == map[] {
        return None;
      }
      var unsigned := CrossAttestation(id, key, peer.id, peer.publicKey, stmt.origin, overlap, now, stmt.issuedAt,
                                       NoSignature);
      var text := WriteCross(unsigned);
      var signed := unsigned.(signature := Signed(Ed25519, key, text));
      SameCrossText(unsigned, signed);
      CrossTextStarts(signed);
      files.cross := files.cross + {text};
      crossAtts := crossAtts + [signed];
      if saved {
        files.crossAtts := crossAtts;
      }
      return Some(signed);
    }

    /** `gossipOne`: an untrusted reply changes nothing, a trusted one is recorded and then compared, and
        without a fork the agreeing sizes are confirmed. The comparison is under the origin asked for, the
        confirmation under the one the reply states. */
    method GossipOne(peer: Peer, origin: Bytes, reply: Option<Statement>, theirs: U64 -> Option<Checkpoint>, now: I64,
                     works: GossipCalls) returns (fork: Option<U64>, att: Option<CrossAttestation>)
      modifies this, files
      ensures reply.None? || !Trusted(peer, reply.value) ==> State() == old(State()) && fork.None? && att.None?
      ensures reply.Some? ==>
                var heard := Step(sha, old(State()), Hear(peer, reply.value, works.saveForks, works.saveLatest));
                var compared := Step(sha, heard, Compare(origin, peer, reply.value, works.saveForks));
                State() == if att.Some? then Step(sha, compared, Event.CrossAttest(CrossText(att.value))) else compared
      ensures fork.Some? ==> origin in forks
      ensures att.Some? <==> && reply.Some? && Trusted(peer, reply.value)
                             && !Contradicts(old(SeenOf(seen, origin)), reply.value.seen)
                             && Agreement(old(SeenOf(seen, reply.value.origin)), reply.value.seen) != map[]
      ensures att.Some? ==>
                var mine := old(SeenOf(seen, reply.value.origin));
                && att.value.origin == reply.value.origin && att.value.overlap == Agreement(mine, reply.value.seen)
                && (Covers(att.value.overlap, mine, reply.value.seen) <==> !Contradicts(mine, reply.value.seen))
      ensures old(Valid()) && peer.id != [] ==> Valid()
    {
      hide StatementText, Contradicts, SeenOf, Record, CrossText, Agreement, Trusted, Covers, EdVerify, Kept;
      fork, att := None, None;
      if reply.None? {
        return;
      }
      var stmt := reply.value;
      var trusted := CheckReply(peer, stmt);
      if !trusted {
        return;
      }
      RecordAttestation(peer.id, stmt, works.saveForks, works.saveLatest);
      fork := CompareWithPeer(origin, stmt.seen, peer.id, theirs, works.saveForks);
      if fork.None? {
        AgreementCoversIff(SeenOf(seen, stmt.origin), stmt.seen);
        att := CrossAttest(peer, stmt, now, works.saveCross);
      }
    }
  }

  datatype GossipCalls = GossipCalls(saveForks: bool, saveLatest: bool, saveCross: bool)

  lemma SameStatementText(s: Statement, t: Statement)
    requires t == s.(signature := t.signature)
    ensures StatementText(s) == StatementText(t)
  {
    hide LinesFrom, Hex, Dec, DecSigned;
    assert StatementLines(s) == StatementLines(t);
  }

  lemma SameCrossText(c: CrossAttestation, d: CrossAttestation)
    requires d == c.(signature := d.signature)
    ensures CrossText(c) == CrossText(d)
  {
    hide LinesFrom, Hex, Dec, DecSigned;
    assert CrossLines(c) == CrossLines(d);
  }

  // ---- Whole runs ----

  /** The calls a server answers, and a restart on its files. */
  datatype Call =
    | CosignCall(c: Checkpoint, chain: Option<Chain>, group: Option<Group>, cosign: CosignCalls)
    | AddOperatorCall(origin: Bytes, rootKey: Bytes, saved: bool)
    | ClearForkCall(origin: Bytes, saved: bool)
    | IssueCall(origin: Bytes, now: I64)
    | GossipCall(peer: Peer, origin: Bytes, reply: Option<Statement>, theirs: U64 -> Option<Checkpoint>, now: I64,
                 gossip: GossipCalls)
    | RestartCall

  ghost predicate NamedPeers(calls: seq<Call>)
  {
    forall i :: 0 <= i < |calls| && calls[i].GossipCall? ==> calls[i].peer.id != []
  }

  lemma RunOne(sha: Hasher, start: Witness, events: seq<Event>, e: Event)
    ensures Run(sha, start, events + [e]) == Step(sha, Run(sha, start, events), e)
  {
    hide Step;
    assert (events + [e])[..|events|] == events;
  }

  lemma RunSingle(sha: Hasher, start: Witness, e: Event)
    ensures Run(sha, start, []) == start && Run(sha, start, [e]) == Step(sha, start, e)
  {
    hide Step;
    RunOne(sha, start, [], e);
    assert [] + [e] == [e];
  }

  lemma {:induction false} RunAppend(sha: Hasher, start: Witness, events: seq<Event>, more: seq<Event>)
    ensures Run(sha, start, events + more) == Run(sha, Run(sha, start, events), more)
  {
    hide Step;
    if more == [] {
      assert events + more == events;
    } else {
      var n := |more| - 1;
      RunAppend(sha, start, events, more[..n]);
      assert events + more == (events + more[..n]) + [more[n]];
      RunOne(sha, start, events + more[..n], more[n]);
    }
  }

  /** A restart: a new server on the old one's files. */
  method Reopen(server: Server) returns (up: Server)
    ensures fresh(up) && up.sha == server.sha && up.id == server.id && up.key == server.key
    ensures up.files == server.files && up.State() == Step(server.sha, server.State(), Restart)
    ensures server.Valid() ==> up.Valid()
  {
    up := new Server(server.sha, server.id, server.key, server.quantumKey, server.files);
  }

  /** A gossip round with one peer: the reply is heard, compared and, without a fork, confirmed. */
  method ServeGossip(server: Server, peer: Peer, origin: Bytes, reply: Option<Statement>,
                     theirs: U64 -> Option<Checkpoint>, now: I64, works: GossipCalls)
    returns (ghost events: seq<Event>)
    modifies server, server.files
    ensures server.State() == Run(server.sha, old(server.State()), events)
    ensures old(server.Valid()) && peer.id != [] ==> server.Valid()
  {
    hide Step, Kept, SeenOf, Contradicts, Agreement, Trusted, Covers, CrossText;
    ghost var start := server.State();
    var _, att := server.GossipOne(peer, origin, reply, theirs, now, works);
    if reply.None? {
      events := [];
      RunSingle(server.sha, start, Restart);
    } else {
      events := [Hear(peer, reply.value, works.saveForks, works.saveLatest)];
      RunSingle(server.sha, start, events[0]);
      RunOne(server.sha, start, events, Compare(origin, peer, reply.value, works.saveForks));
      events := events + [Compare(origin, peer, reply.value, works.saveForks)];
      if att.Some? {
        RunOne(server.sha, start, events, Event.CrossAttest(CrossText(att.value)));
        events := events + [Event.CrossAttest(CrossText(att.value))];
      }
    }
  }

  /** One call: some events of the protocol. */
  method Serve(server: Server, call: Call) returns (up: Server, ghost events: seq<Event>)
    modifies server, server.files
    ensures up == server || fresh(up)
    ensures up.sha == server.sha && up.id == server.id && up.key == server.key && up.files == server.files
    ensures up.State() == Run(server.sha, old(server.State()), events)
    ensures old(server.Valid()) && (call.GossipCall? ==> call.peer.id != []) ==> up.Valid()
  {
    hide Step, Kept, Run, SeenOf, Presentable, Conflicts;
    ghost var start := server.State();
    up := server;
    match call
    case CosignCall(c, chain, group, cosign) =>
      var _ := server.Cosign(c, chain, group, cosign);
      events := [Event.Cosign(c, chain, group, cosign.saveSeen, cosign.saveCheckpoints, cosign.saveForks)];
      RunSingle(server.sha, start, events[0]);
    case AddOperatorCall(origin, rootKey, saved) =>
      var _ := server.AddOperator(origin, rootKey, saved);
      events := [Event.AddOperator(origin, rootKey, saved)];
      RunSingle(server.sha, start, events[0]);
    case ClearForkCall(origin, saved) =>
      server.ClearFork(origin, saved);
      events := [Event.ClearFork(origin, saved)];
      RunSingle(server.sha, start, events[0]);
    case IssueCall(origin, now) =>
      var _ := server.IssueSignedSeen(origin, now);
      events := [Issue(origin, now)];
      RunSingle(server.sha, start, events[0]);
    case GossipCall(peer, origin, reply, theirs, now, gossip) =>
      events := ServeGossip(server, peer, origin, reply, theirs, now, gossip);
    case RestartCall =>
      up := Reopen(server);
      events := [Restart];
      RunSingle(server.sha, start, events[0]);
  }

  /** A directory nothing was written to yet. */
  ghost predicate Blank(files: Files)
    reads files
  {
    && files.operators == map[] && files.seen == map[] && files.checkpoints == map[] && files.forks == map[]
    && files.latest == map[] && files.cosigned == {} && files.statements == {} && files.cross == {}
  }

  /** Any calls, with saves failing and restarts anywhere, are a run of the protocol; so no two roots are
      ever countersigned for one origin and size. And if peers have names, all evidence ever held convicts. */
  method RunServer(sha: Hasher, id: Bytes, key: Bytes, quantumKey: Bytes, files: Files, calls: seq<Call>)
    returns (up: Server, ghost events: seq<Event>)
    requires Blank(files)
    modifies files
    ensures up.files == files && up.sha == sha
    ensures up.State() == Run(sha, Witness(id, key, EMPTY_VIEW, EMPTY_VIEW, {}, {}, {}), events)
    ensures forall c, d :: c in files.cosigned && d in files.cosigned && SpotOf(c) == SpotOf(d) ==>
                             c.rootHash == d.rootHash
    ensures NamedPeers(calls) ==> up.Valid()
  {
    hide Step, Kept, Run;
    ghost var start := Witness(id, key, EMPTY_VIEW, EMPTY_VIEW, {}, {}, {});
    up := new Server(sha, id, key, quantumKey, files);
    events := [];
    StartsBlank(up, start);
    for i := 0 to |calls|
      invariant fresh(up) && up.files == files && up.sha == sha && up.id == id && up.key == key
      invariant up.State() == Run(sha, start, events)
      invariant NamedPeers(calls) ==> up.Valid()
    {
      ghost var more;
      up, more := Serve(up, calls[i]);
      RunAppend(sha, start, events, more);
      events := events + more;
    }
    forall c, d | c in files.cosigned && d in files.cosigned && SpotOf(c) == SpotOf(d)
      ensures c.rootHash == d.rootHash
    {
      NoDoubleCosign(sha, start, events, c, d);
    }
  }

  lemma StartsBlank(up: Server, start: Witness)
    requires Blank(up.files) && up.operators == map[] && up.seen == map[] && up.checkpoints == map[]
    requires up.forks == map[] && up.latest == map[]
    requires start == Witness(up.id, up.key, EMPTY_VIEW, EMPTY_VIEW, {}, {}, {})
    ensures up.State() == start == Run(up.sha, start, []) && up.Valid() && Fresh(start)
  {
  }
}
