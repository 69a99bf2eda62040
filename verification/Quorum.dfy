/** Quorum agreement: enough honest overlap between two sets of countersignatures leaves room for only
    one root. */
module Quorum {
  import opened Encoding
  import opened Hashing
  import opened Crypto
  import opened Options
  import opened Checkpoints
  import opened Witnessing
  import opened Anchors
  import Threshold

  // ---- What an honest key has signed ----

  /** Watch list and countersignatures only name origins that fit on one line. */
  ghost predicate SingleLines(w: Witness)
  {
    && (forall o :: o in w.mem.operators ==> OneLine(o))
    && (forall o :: o in w.files.operators ==> OneLine(o))
    && (forall c :: c in w.cosigned ==> OneLine(c.origin))
  }

  ghost predicate CrossOnly(w: Witness) { forall t :: t in w.cross ==> IsCrossText(t) }

  ghost predicate OneLineOperators(events: seq<Event>)
  {
    forall i :: 0 <= i < |events| && events[i].AddOperator? ==> OneLine(events[i].origin)
  }

  lemma StepKeepsLines(sha: Hasher, w: Witness, e: Event)
    requires SingleLines(w) && CrossOnly(w) && (e.AddOperator? ==> OneLine(e.origin))
    ensures SingleLines(Step(sha, w, e)) && CrossOnly(Step(sha, w, e))
  {
    hide OperatorSigned, Hex, StatementText, Contradicts, SeenOf, OneLine;
  }

  lemma {:induction false} RunKeepsLines(sha: Hasher, w: Witness, events: seq<Event>)
    requires SingleLines(w) && CrossOnly(w) && OneLineOperators(events)
    ensures SingleLines(Run(sha, w, events)) && CrossOnly(Run(sha, w, events))
  {
    hide SingleLines, CrossOnly, Step;
    if events != [] {
      RunKeepsLines(sha, w, events[..|events| - 1]);
      StepKeepsLines(sha, Run(sha, w, events[..|events| - 1]), events[|events| - 1]);
    }
  }

  /** A witness that runs the protocol from an empty directory and watches one-line origins. */
  ghost predicate Reachable(sha: Hasher, w: Witness)
  {
    exists start: Witness, events: seq<Event> {:trigger Run(sha, start, events)} ::
      Fresh(start) && OneLineOperators(events) && w == Run(sha, start, events)
  }

  lemma ReachableMeans(sha: Hasher, w: Witness)
    requires Reachable(sha, w)
    ensures Inv(w) && SingleLines(w) && CrossOnly(w)
  {
    hide Run;
    var start: Witness, events: seq<Event> :| Fresh(start) && OneLineOperators(events) && w == Run(sha, start, events);
    RunKeepsInv(sha, start, events);
    RunKeepsLines(sha, start, events);
  }

  /** Everything signed with the witness's key. */
  ghost predicate Issued(w: Witness, msg: Bytes)
  {
    || (exists c :: c in w.cosigned && msg == WitnessText(c))
    || (exists s :: s in w.statements && msg == StatementText(s))
    || msg in w.cross
  }

  /** A countersignature's text can only come from countersigning: the origin, size and root in it are
      those of a checkpoint the witness accepted. */
  lemma CosignedMeans(sha: Hasher, w: Witness, c: Checkpoint) returns (d: Checkpoint)
    requires Reachable(sha, w) && OneLine(c.origin) && Issued(w, WitnessText(c))
    ensures d in w.cosigned && d.origin == c.origin && d.size == c.size && d.rootHash == c.rootHash
  {
    hide WitnessText, StatementText, Inv, Reachable, IsCrossText;
    ReachableMeans(sha, w);
    assert exists d :: d in w.cosigned && WitnessText(c) == WitnessText(d) by {
      OnlyCosigned(w, c);
    }
    d :| d in w.cosigned && WitnessText(c) == WitnessText(d);
    WitnessTextDetermines(c, d);
  }

  lemma OnlyCosigned(w: Witness, c: Checkpoint)
    requires CrossOnly(w) && Issued(w, WitnessText(c))
    ensures exists d :: d in w.cosigned && WitnessText(c) == WitnessText(d)
  {
    hide WitnessText, StatementText, IsCrossText;
    forall s | s in w.statements
      ensures WitnessText(c) != StatementText(s)
    {
      CrossExists();
      TextsApart(c, s, CROSS());
    }
    if WitnessText(c) in w.cross {
      var s: Statement := Statement([], [], [], map[], 0, NoSignature);
      TextsApart(c, s, WitnessText(c));
    }
  }

  lemma CrossExists()
    ensures IsCrossText(CROSS())
  {
  }

  // ---- Counting ----

  /** No countersignature on the checkpoint was forged in an honest witness's name. */
  ghost predicate Unforged(honest: map<Bytes, Witness>, c: Checkpoint)
  {
    forall id, i :: id in honest && 0 <= i < |c.witnesses| && c.witnesses[i].signature.Signed?
                    && c.witnesses[i].signature.scheme == Ed25519 && c.witnesses[i].signature.key == honest[id].key ==>
                      Issued(honest[id], c.witnesses[i].signature.msg)
  }

  /** At least `n` distinct trusted witnesses have countersigned. */
  ghost predicate HasQuorum(c: Checkpoint, trust: Bytes -> Option<Trust>, n: nat)
  {
    |ValidIds(c.witnesses, WitnessText(c), trust)| >= n
  }

  /** The counted number is a quorum when each witness is listed once. */
  lemma CountIsQuorum(c: Checkpoint, trust: Bytes -> Option<Trust>)
    requires OneSigPerId(c.witnesses, WitnessText(c), trust)
    ensures HasQuorum(c, trust, CountValid(c.witnesses, WitnessText(c), trust))
  {
    hide WitnessText, OneSigPerId, CountValid, ValidIds;
    CountsDistinctIff(c.witnesses, WitnessText(c), trust);
  }

  /** The honest witnesses run the protocol under the keys the verifier trusts. */
  ghost predicate HonestMesh(sha: Hasher, honest: map<Bytes, Witness>, trust: Bytes -> Option<Trust>)
  {
    forall id :: id in honest ==>
                   Reachable(sha, honest[id]) && (trust(id).Some? ==> trust(id).value.classical == honest[id].key)
  }

  lemma ValidIdsTrusted(ws: seq<WitnessSig>, text: Bytes, trust: Bytes -> Option<Trust>, trusted: set<Bytes>)
    requires forall id :: trust(id).Some? ==> id in trusted
    ensures ValidIds(ws, text, trust) <= trusted
  {
  }

  /** Two quorums share an honest witness. */
  lemma QuorumsOverlap(c: Checkpoint, d: Checkpoint, trust: Bytes -> Option<Trust>, trusted: set<Bytes>,
                       honest: map<Bytes, Witness>, n: nat, f: nat) returns (id: Bytes)
    requires (forall x :: trust(x).Some? ==> x in trusted) && |trusted - honest.Keys| <= f && 2 * n > |trusted| + f
    requires HasQuorum(c, trust, n) && HasQuorum(d, trust, n)
    ensures id in honest && id in ValidIds(c.witnesses, WitnessText(c), trust)
    ensures id in ValidIds(d.witnesses, WitnessText(d), trust)
  {
    hide WitnessText, Cosigned;
    var s, t := ValidIds(c.witnesses, WitnessText(c), trust), ValidIds(d.witnesses, WitnessText(d), trust);
    ValidIdsTrusted(c.witnesses, WitnessText(c), trust, trusted);
    ValidIdsTrusted(d.witnesses, WitnessText(d), trust, trusted);
    Threshold.Overlap(s, t, trusted);
    if s * t <= trusted - honest.Keys {
      Threshold.SubsetSize(s * t, trusted - honest.Keys);
      assert false;
    }
    id :| id in s * t && id !in trusted - honest.Keys;
  }

  /** An honest witness among the valid IDs really countersigned this origin, size and root. */
  lemma HonestSignerMeans(sha: Hasher, c: Checkpoint, trust: Bytes -> Option<Trust>, honest: map<Bytes, Witness>,
                          id: Bytes)
    returns (d: Checkpoint)
    requires HonestMesh(sha, honest, trust) && Unforged(honest, c) && OneLine(c.origin)
    requires id in honest && id in ValidIds(c.witnesses, WitnessText(c), trust)
    ensures d in honest[id].cosigned && d.origin == c.origin && d.size == c.size && d.rootHash == c.rootHash
  {
    hide WitnessText, Reachable, Issued;
    var ws := c.witnesses;
    var i :| 0 <= i < |ws| && Cosigned(ws[i], WitnessText(c), trust) && ws[i].witnessId == id;
    assert c.witnesses[i].signature == Signed(Ed25519, honest[id].key, WitnessText(c));
    d := CosignedMeans(sha, honest[id], c);
  }

  /** With `2n > M + f` for `M` trusted witnesses of which at most `f` are dishonest, two checkpoints of
      one origin and size that each carry `n` countersignatures have the same root. */
  lemma QuorumAgreement(sha: Hasher, trust: Bytes -> Option<Trust>, trusted: set<Bytes>, honest: map<Bytes, Witness>,
                        n: nat, f: nat, c: Checkpoint, d: Checkpoint)
    requires (forall x :: trust(x).Some? ==> x in trusted) && |trusted - honest.Keys| <= f && 2 * n > |trusted| + f
    requires HonestMesh(sha, honest, trust) && Unforged(honest, c) && Unforged(honest, d)
    requires HasQuorum(c, trust, n) && HasQuorum(d, trust, n)
    requires c.origin == d.origin && c.size == d.size && OneLine(c.origin)
    ensures c.rootHash == d.rootHash
  {
    hide WitnessText, HasQuorum, Unforged, HonestMesh, Inv;
    var id := QuorumsOverlap(c, d, trust, trusted, honest, n, f);
    var c' := HonestSignerMeans(sha, c, trust, honest, id);
    var d' := HonestSignerMeans(sha, d, trust, honest, id);
    assert Reachable(sha, honest[id]) by { MeshReachable(sha, honest, trust, id); }
    ReachableMeans(sha, honest[id]);
    OneRoot(honest[id], c', d');
  }

  lemma MeshReachable(sha: Hasher, honest: map<Bytes, Witness>, trust: Bytes -> Option<Trust>, id: Bytes)
    requires HonestMesh(sha, honest, trust) && id in honest
    ensures Reachable(sha, honest[id])
  {
    hide Reachable;
  }

  lemma OneRoot(w: Witness, c: Checkpoint, d: Checkpoint)
    requires Inv(w) && c in w.cosigned && d in w.cosigned && c.origin == d.origin && c.size == d.size
    ensures c.rootHash == d.rootHash
  {
    hide Hex;
    HexAgree(c.rootHash, d.rootHash);
    assert w.files.seen[SpotOf(c)] == Hex(c.rootHash) && w.files.seen[SpotOf(d)] == Hex(d.rootHash);
  }

  lemma HexAgree(a: Bytes, b: Bytes)
    ensures Hex(a) == Hex(b) ==> a == b
  {
    hide Hex;
    if Hex(a) == Hex(b) {
      HexInjective(a, b);
    }
  }

  /** What the verifier's own check gives: two checkpoints it accepts at one size have one root. */
  lemma AcceptedCheckpointsAgree(sha: Hasher, v: Verifier, trusted: set<Bytes>, honest: map<Bytes, Witness>,
                                 f: nat, c: Checkpoint, d: Checkpoint)
    requires v.trust.Some? && v.minWitnesses > 0 && OneLine(v.origin)
    requires forall x :: v.trust.value(x).Some? ==> x in trusted
    requires |trusted - honest.Keys| <= f && 2 * v.minWitnesses > |trusted| + f
    requires HonestMesh(sha, honest, v.trust.value) && Unforged(honest, c) && Unforged(honest, d)
    requires OneSigPerId(c.witnesses, WitnessText(c), v.trust.value)
    requires OneSigPerId(d.witnesses, WitnessText(d), v.trust.value)
    requires CheckpointAccepted(sha, v, c) && CheckpointAccepted(sha, v, d) && c.size == d.size
    ensures c.rootHash == d.rootHash
  {
    hide WitnessText, Unforged, HonestMesh, OperatorSigned, OneSigPerId, CountValid;
    CountIsQuorum(c, v.trust.value);
    CountIsQuorum(d, v.trust.value);
    QuorumAgreement(sha, v.trust.value, trusted, honest, v.minWitnesses, f, c, d);
  }
}
