/** Several witnesses together: forks are found and stay flagged, and one append-only log never raises
    an alarm. */
module Mesh {
  import opened Encoding
  import opened Hashing
  import opened Rfc6962
  import opened Crypto
  import opened Options
  import opened Checkpoints
  import opened Witnessing
  import KeyChain
  import Threshold

  // ---- Fork detection ----

  /** A step never forgets a countersignature. */
  lemma StepKeepsCosigned(sha: Hasher, w: Witness, e: Event)
    ensures w.cosigned <= Step(sha, w, e).cosigned
    ensures Step(sha, w, e).id == w.id && Step(sha, w, e).key == w.key
  {
    hide OperatorSigned, Hex, StatementText, Contradicts, SeenOf;
  }

  lemma {:induction false} RunKeepsCosigned(sha: Hasher, w: Witness, events: seq<Event>)
    ensures w.cosigned <= Run(sha, w, events).cosigned
  {
    hide Step;
    if events != [] {
      RunKeepsCosigned(sha, w, events[..|events| - 1]);
      StepKeepsCosigned(sha, Run(sha, w, events[..|events| - 1]), events[|events| - 1]);
    }
  }

  /** What a witness has signed is in its memory, whatever saves failed and whenever it restarted. */
  lemma SignedIsRemembered(w: Witness, c: Checkpoint)
    requires Inv(w) && c in w.cosigned
    ensures SpotOf(c) in w.mem.seen && w.mem.seen[SpotOf(c)] == Hex(c.rootHash)
  {
    hide Hex;
  }

  lemma OwnStatementTrusted(w: Witness, origin: Bytes, now: I64)
    requires |w.key| == PUBLIC_KEY_SIZE
    ensures Trusted(Peer(w.id, w.key), StatementOf(w, origin, now))
  {
    hide LinesFrom, Hex, SeenOf;
    var s := Statement(w.id, w.key, origin, SeenOf(w.mem.seen, origin), now, NoSignature);
    assert StatementText(s) == StatementText(StatementOf(w, origin, now));
  }

  /** If two honest witnesses have signed different roots at one size, then once the first has heard
      the second's statement and compared it, the origin is flagged. What else happens in between, and
      in which order the maps are walked, makes no difference. */
  lemma ForkDetected(sha: Hasher, a: Witness, b: Witness, c: Checkpoint, d: Checkpoint, now: I64,
                     between: seq<Event>, saveForks: bool, saveLatest: bool)
    requires Inv(a) && Inv(b) && |b.key| == PUBLIC_KEY_SIZE
    requires c in a.cosigned && d in b.cosigned && SpotOf(c) == SpotOf(d) && c.rootHash != d.rootHash
    ensures var peer, stmt := Peer(b.id, b.key), StatementOf(b, c.origin, now);
            var heard := Run(sha, Step(sha, a, Hear(peer, stmt, saveForks, saveLatest)), between);
            c.origin in Step(sha, heard, Compare(c.origin, peer, stmt, saveForks)).mem.forks
  {
    hide Run, Inv, StatementText, Hex;
    var peer, stmt := Peer(b.id, b.key), StatementOf(b, c.origin, now);
    var first := Step(sha, a, Hear(peer, stmt, saveForks, saveLatest));
    var heard := Run(sha, first, between);
    StepKeepsInv(sha, a, Hear(peer, stmt, saveForks, saveLatest));
    StepKeepsCosigned(sha, a, Hear(peer, stmt, saveForks, saveLatest));
    RunKeepsInv(sha, first, between);
    RunKeepsCosigned(sha, first, between);
    OwnStatementTrusted(b, c.origin, now);
    assert Contradicts(SeenOf(heard.mem.seen, c.origin), stmt.seen) by {
      DifferentRoots(heard, b, c, d);
    }
  }

  lemma DifferentRoots(a: Witness, b: Witness, c: Checkpoint, d: Checkpoint)
    requires Inv(a) && Inv(b) && c in a.cosigned && d in b.cosigned && SpotOf(c) == SpotOf(d)
    requires c.rootHash != d.rootHash
    ensures Contradicts(SeenOf(a.mem.seen, c.origin), SeenOf(b.mem.seen, c.origin))
  {
    hide Inv, SeenOf;
    SignedIsRemembered(a, c);
    SignedIsRemembered(b, d);
    SeenOfHas(a.mem.seen, c.origin, c.size);
    SeenOfHas(b.mem.seen, c.origin, c.size);
    if Hex(c.rootHash) == Hex(d.rootHash) {
      HexInjective(c.rootHash, d.rootHash);
    }
  }

  // ---- Latching ----

  /** Flagged, and the flag is safe from the coming events: nobody clears it, and a restart finds it
      on disk. */
  ghost predicate Latched(w: Witness, origin: Bytes, events: seq<Event>)
  {
    && origin in w.mem.forks
    && (forall i :: 0 <= i < |events| ==> !(events[i].ClearFork? && events[i].origin == origin))
    && (origin in w.files.forks || forall i :: 0 <= i < |events| ==> !events[i].Restart?)
  }

  /** No step but `ClearFork` takes a flag away; a restart keeps it exactly when it is on disk. */
  lemma StepKeepsFlag(sha: Hasher, w: Witness, e: Event, origin: Bytes)
    requires origin in w.mem.forks && !(e.ClearFork? && e.origin == origin)
    ensures origin in w.files.forks ==> origin in Step(sha, w, e).files.forks
    ensures origin in Step(sha, w, e).mem.forks <==> !e.Restart? || origin in w.files.forks
    ensures forall c :: c in Step(sha, w, e).cosigned && c.origin == origin ==> c in w.cosigned
  {
    hide OperatorSigned, Hex, StatementText, Contradicts, SeenOf;
  }

  /** Until it is cleared, a flagged origin gets no countersignature at all. */
  lemma {:induction false} FlagLatches(sha: Hasher, w: Witness, origin: Bytes, events: seq<Event>)
    requires Latched(w, origin, events)
    ensures origin in Run(sha, w, events).mem.forks
    ensures origin in w.files.forks ==> origin in Run(sha, w, events).files.forks
    ensures forall c :: c in Run(sha, w, events).cosigned && c.origin == origin ==> c in w.cosigned
  {
    hide Step;
    if events != [] {
      var init, last := events[..|events| - 1], events[|events| - 1];
      assert forall i :: 0 <= i < |init| ==> init[i] == events[i];
      FlagLatches(sha, w, origin, init);
      StepKeepsFlag(sha, Run(sha, w, init), last, origin);
    }
  }

  /** A flag whose save failed is lost with the memory: after a restart the flagged origin gets a new
      countersignature exactly when the flag never reached the disk and the files know the operator and
      no other root of that size. */
  lemma UnsavedFlagLostIff(sha: Hasher, w: Witness, c: Checkpoint, chain: Option<KeyChain.Chain>,
                           group: Option<Threshold.Group>, saved: bool)
    requires c !in w.cosigned
    ensures var w' := Run(sha, Flag(w, c.origin, saved), [Restart, Cosign(c, chain, group, true, true, true)]);
            c in w'.cosigned <==>
              && !saved && c.origin !in w.files.forks && c.origin in w.files.operators
              && OperatorSigned(sha, c, chain, w.files.operators[c.origin], group)
              && (SpotOf(c) in w.files.seen ==> w.files.seen[SpotOf(c)] == Hex(c.rootHash))
  {
    hide OperatorSigned, Hex;
    var flagged, cosign := Flag(w, c.origin, saved), Cosign(c, chain, group, true, true, true);
    assert [Restart, cosign][..1] == [Restart] && [Restart][..0] == [];
    assert Run(sha, flagged, []) == flagged;
    var restarted := Step(sha, flagged, Restart);
    assert Run(sha, flagged, [Restart]) == restarted;
    assert Run(sha, flagged, [Restart, cosign]) == Step(sha, restarted, cosign);
  }

  // ---- No false alarms ----

  /** The root text one log has at a size. */
  ghost predicate TrueAt(sha: Hasher, logs: map<Bytes, seq<Digest>>, origin: Bytes, size: nat, root: Bytes)
  {
    origin in logs && size <= |logs[origin]| && root == Hex(RootOf(sha, logs[origin][..size]))
  }

  ghost predicate SeenTrue(sha: Hasher, logs: map<Bytes, seq<Digest>>, seen: map<Spot, Bytes>)
  {
    forall spot :: spot in seen ==> TrueAt(sha, logs, spot.origin, spot.size, seen[spot])
  }

  ghost predicate StatementTrue(sha: Hasher, logs: map<Bytes, seq<Digest>>, s: Statement)
  {
    forall size :: size in s.seen ==> TrueAt(sha, logs, s.origin, size, s.seen[size])
  }

  ghost predicate LatestTrue(sha: Hasher, logs: map<Bytes, seq<Digest>>, latest: map<Heard, Statement>)
  {
    forall k :: k in latest ==> latest[k].origin == k.origin && StatementTrue(sha, logs, latest[k])
  }

  ghost predicate ViewTrue(sha: Hasher, logs: map<Bytes, seq<Digest>>, v: View)
  {
    SeenTrue(sha, logs, v.seen) && LatestTrue(sha, logs, v.latest) && v.forks == {}
  }

  ghost predicate WitnessTrue(sha: Hasher, logs: map<Bytes, seq<Digest>>, w: Witness)
  {
    && ViewTrue(sha, logs, w.mem) && ViewTrue(sha, logs, w.files)
    && forall s :: s in w.statements ==> StatementTrue(sha, logs, s)
  }

  /** Two true statements about one origin never contradict each other. */
  lemma TruthsAgree(sha: Hasher, logs: map<Bytes, seq<Digest>>, a: Statement, b: Statement)
    requires StatementTrue(sha, logs, a) && StatementTrue(sha, logs, b) && a.origin == b.origin
    ensures !Contradicts(a.seen, b.seen)
  {
    hide RootOf, Hex;
  }

  lemma SeenAgrees(sha: Hasher, logs: map<Bytes, seq<Digest>>, seen: map<Spot, Bytes>, b: Statement)
    requires SeenTrue(sha, logs, seen) && StatementTrue(sha, logs, b)
    ensures !Contradicts(SeenOf(seen, b.origin), b.seen)
  {
    hide RootOf, Hex, SeenOf;
    forall size | size in SeenOf(seen, b.origin) && size in b.seen
      ensures SeenOf(seen, b.origin)[size] == b.seen[size]
    {
      SeenOfHas(seen, b.origin, size);
    }
  }

  lemma IssuedTrue(sha: Hasher, logs: map<Bytes, seq<Digest>>, w: Witness, origin: Bytes, now: I64)
    requires SeenTrue(sha, logs, w.mem.seen)
    ensures StatementTrue(sha, logs, StatementOf(w, origin, now))
  {
    hide TrueAt, StatementText, SeenOf;
    forall size | size in SeenOf(w.mem.seen, origin)
      ensures TrueAt(sha, logs, origin, size, SeenOf(w.mem.seen, origin)[size])
    {
      SeenOfHas(w.mem.seen, origin, size);
    }
  }

  /** What honest surroundings ask of a step: checkpoints that verify are true, and replies are true
      statements about the origin that was asked for. */
  ghost predicate HonestEvent(sha: Hasher, logs: map<Bytes, seq<Digest>>, w: Witness, e: Event)
  {
    && (e.Cosign? && Presentable(sha, w, e.c, e.chain, e.group) ==>
          TrueAt(sha, logs, e.c.origin, e.c.size, Hex(e.c.rootHash)))
    && (e.Hear? ==> StatementTrue(sha, logs, e.stmt))
    && (e.Compare? ==> StatementTrue(sha, logs, e.stmt) && e.stmt.origin == e.origin)
  }

  lemma CosignStaysTrue(sha: Hasher, logs: map<Bytes, seq<Digest>>, w: Witness, e: Event)
    requires e.Cosign? && WitnessTrue(sha, logs, w) && HonestEvent(sha, logs, w, e)
    ensures WitnessTrue(sha, logs, Step(sha, w, e))
  {
    hide OperatorSigned, RootOf, StatementTrue, Hex;
    if Presentable(sha, w, e.c, e.chain, e.group) {
      assert !Conflicts(w, e.c);
      AcceptStaysTrue(sha, logs, w, e.c, e.saveSeen, e.saveCheckpoints);
    }
  }

  lemma AcceptStaysTrue(sha: Hasher, logs: map<Bytes, seq<Digest>>, w: Witness, c: Checkpoint, saveSeen: bool,
                        saveCheckpoints: bool)
    requires WitnessTrue(sha, logs, w) && TrueAt(sha, logs, c.origin, c.size, Hex(c.rootHash))
    ensures WitnessTrue(sha, logs, Accept(w, c, saveSeen, saveCheckpoints))
  {
    hide TrueAt, StatementTrue, Hex;
  }

  lemma HearStaysTrue(sha: Hasher, logs: map<Bytes, seq<Digest>>, w: Witness, e: Event)
    requires e.Hear? && WitnessTrue(sha, logs, w) && HonestEvent(sha, logs, w, e)
    ensures WitnessTrue(sha, logs, Step(sha, w, e))
  {
    hide TrueAt, StatementTrue, Hex, Contradicts, Trusted;
    var k := Heard(e.peer.id, e.stmt.origin);
    if k in w.mem.latest {
      TruthsAgree(sha, logs, w.mem.latest[k], e.stmt);
    }
  }

  lemma StepStaysTrue(sha: Hasher, logs: map<Bytes, seq<Digest>>, w: Witness, e: Event)
    requires WitnessTrue(sha, logs, w) && HonestEvent(sha, logs, w, e)
    ensures WitnessTrue(sha, logs, Step(sha, w, e))
  {
    hide TrueAt, StatementTrue, Contradicts, Trusted, OperatorSigned, SeenOf, StatementText, SeenTrue, LatestTrue;
    match e
    case Cosign(_, _, _, _, _, _) => CosignStaysTrue(sha, logs, w, e);
    case Hear(_, _, _, _) => HearStaysTrue(sha, logs, w, e);
    case Compare(origin, peer, stmt, saveForks) => SeenAgrees(sha, logs, w.mem.seen, stmt);
    case Issue(origin, now) => IssuedTrue(sha, logs, w, origin, now);
    case _ =>
  }

  // ---- Runs of the whole mesh ----

  /** Size and root of a log, read together under its lock. */
  datatype Snap = Snap(origin: Bytes, size: nat, root: Bytes)

  /** The operators' logs, what was read of them, the checkpoints signed, and the witnesses. */
  datatype State = State(logs: map<Bytes, seq<Digest>>, snaps: set<Snap>, offered: set<Checkpoint>,
                         witnesses: map<Bytes, Witness>)

  datatype Move =
    | Grow(origin: Bytes, leaf: Digest)
    | Take(origin: Bytes)
    | Offer(c: Checkpoint)
    | At(id: Bytes, e: Event)

  /** A checkpoint is signed, under whatever epoch and time, for some earlier reading of the log; a
      witness is shown offered checkpoints, or ones it refuses; a reply to a gossip request is a
      statement some witness of the mesh made about the origin asked for. */
  ghost predicate Allowed(sha: Hasher, m: State, move: Move)
  {
    match move
    case Grow(origin, leaf) => origin in m.logs && |m.logs[origin]| + 1 < TWO_TO_64
    case Take(origin) => origin in m.logs
    case Offer(c) => Snap(c.origin, c.size, c.rootHash) in m.snaps
    case At(id, e) =>
      && id in m.witnesses
      && (e.Cosign? && Presentable(sha, m.witnesses[id], e.c, e.chain, e.group) ==> e.c in m.offered)
      && (e.Hear? ==> Made(m, e.stmt))
      && (e.Compare? ==> Made(m, e.stmt) && e.stmt.origin == e.origin)
  }

  ghost predicate Made(m: State, s: Statement)
  {
    exists id :: id in m.witnesses && s in m.witnesses[id].statements
  }

  ghost function Next(sha: Hasher, m: State, move: Move): State
    requires Allowed(sha, m, move)
  {
    match move
    case Grow(origin, leaf) => m.(logs := m.logs[origin := m.logs[origin] + [leaf]])
    case Take(origin) => m.(snaps := m.snaps + {Snap(origin, |m.logs[origin]|, RootOf(sha, m.logs[origin]))})
    case Offer(c) => m.(offered := m.offered + {c})
    case At(id, e) => m.(witnesses := m.witnesses[id := Step(sha, m.witnesses[id], e)])
  }

  /** A run: every move is allowed where it is made. */
  ghost predicate Trace(sha: Hasher, states: seq<State>, moves: seq<Move>)
  {
    && |states| == |moves| + 1
    && forall i :: 0 <= i < |moves| ==>
                     Allowed(sha, states[i], moves[i]) && states[i + 1] == Next(sha, states[i], moves[i])
  }

  ghost predicate Start(m: State)
  {
    m.snaps == {} && m.offered == {} && forall id :: id in m.witnesses ==> Fresh(m.witnesses[id])
  }

  ghost predicate AllTrue(sha: Hasher, m: State)
  {
    && (forall s :: s in m.snaps ==> TrueAt(sha, m.logs, s.origin, s.size, Hex(s.root)))
    && (forall c :: c in m.offered ==> TrueAt(sha, m.logs, c.origin, c.size, Hex(c.rootHash)))
    && (forall id :: id in m.witnesses ==> WitnessTrue(sha, m.logs, m.witnesses[id]))
  }

  /** Growing a log changes no root it already had. */
  lemma GrowKeepsTrue(sha: Hasher, logs: map<Bytes, seq<Digest>>, o: Bytes, leaf: Digest, origin: Bytes, size: nat,
                      root: Bytes)
    requires o in logs && TrueAt(sha, logs, origin, size, root)
    ensures TrueAt(sha, logs[o := logs[o] + [leaf]], origin, size, root)
  {
    hide RootOf, Hex;
    if o == origin {
      assert (logs[o] + [leaf])[..size] == logs[o][..size];
    }
  }

  lemma GrowKeepsWitness(sha: Hasher, logs: map<Bytes, seq<Digest>>, o: Bytes, leaf: Digest, w: Witness)
    requires o in logs && WitnessTrue(sha, logs, w)
    ensures WitnessTrue(sha, logs[o := logs[o] + [leaf]], w)
  {
    hide TrueAt;
    var grown := logs[o := logs[o] + [leaf]];
    forall origin, size: nat, root | TrueAt(sha, logs, origin, size, root)
      ensures TrueAt(sha, grown, origin, size, root)
    {
      GrowKeepsTrue(sha, logs, o, leaf, origin, size, root);
    }
  }

  lemma ReadingIsTrue(sha: Hasher, logs: map<Bytes, seq<Digest>>, origin: Bytes)
    requires origin in logs
    ensures TrueAt(sha, logs, origin, |logs[origin]|, Hex(RootOf(sha, logs[origin])))
  {
    hide RootOf, Hex;
    assert logs[origin][..|logs[origin]|] == logs[origin];
  }

  lemma GrowKeepsAll(sha: Hasher, m: State, origin: Bytes, leaf: Digest)
    requires AllTrue(sha, m) && origin in m.logs
    ensures AllTrue(sha, m.(logs := m.logs[origin := m.logs[origin] + [leaf]]))
  {
    hide TrueAt, WitnessTrue;
    var grown := m.logs[origin := m.logs[origin] + [leaf]];
    forall s | s in m.snaps
      ensures TrueAt(sha, grown, s.origin, s.size, Hex(s.root))
    {
      GrowKeepsTrue(sha, m.logs, origin, leaf, s.origin, s.size, Hex(s.root));
    }
    forall c | c in m.offered
      ensures TrueAt(sha, grown, c.origin, c.size, Hex(c.rootHash))
    {
      GrowKeepsTrue(sha, m.logs, origin, leaf, c.origin, c.size, Hex(c.rootHash));
    }
    forall id | id in m.witnesses
      ensures WitnessTrue(sha, grown, m.witnesses[id])
    {
      GrowKeepsWitness(sha, m.logs, origin, leaf, m.witnesses[id]);
    }
  }

  lemma MoveKeepsTrue(sha: Hasher, m: State, move: Move)
    requires AllTrue(sha, m) && Allowed(sha, m, move)
    ensures AllTrue(sha, Next(sha, m, move))
  {
    hide TrueAt, Step, StatementTrue, Presentable, RootOf;
    match move
    case Grow(origin, leaf) => GrowKeepsAll(sha, m, origin, leaf);
    case Take(origin) => ReadingIsTrue(sha, m.logs, origin);
    case Offer(c) =>
    case At(id, e) => StepStaysTrue(sha, m.logs, m.witnesses[id], e);
  }

  lemma StartIsTrue(sha: Hasher, m: State)
    requires Start(m)
    ensures AllTrue(sha, m)
  {
    hide TrueAt;
  }

  lemma {:induction false} TraceIsTrue(sha: Hasher, states: seq<State>, moves: seq<Move>, k: nat)
    requires Trace(sha, states, moves) && Start(states[0]) && k <= |moves|
    ensures AllTrue(sha, states[k])
  {
    hide AllTrue, Start, Allowed;
    if k == 0 {
      StartIsTrue(sha, states[0]);
    } else {
      TraceIsTrue(sha, states, moves, k - 1);
      assert Allowed(sha, states[k - 1], moves[k - 1]) && states[k - 1 + 1] == Next(sha, states[k - 1], moves[k - 1]);
      MoveKeepsTrue(sha, states[k - 1], moves[k - 1]);
    }
  }

  /** With one append-only log per origin, no interleaving of appends, checkpoints, countersignatures,
      failed saves, restarts and gossip ever makes a witness record a fork. */
  lemma NoFalseAlarms(sha: Hasher, states: seq<State>, moves: seq<Move>, k: nat, id: Bytes)
    requires Trace(sha, states, moves) && Start(states[0]) && k <= |moves| && id in states[k].witnesses
    ensures states[k].witnesses[id].mem.forks == {} && states[k].witnesses[id].files.forks == {}
  {
    hide Trace, TrueAt;
    assert |states| == |moves| + 1 by { TraceLength(sha, states, moves); }
    TraceIsTrue(sha, states, moves, k);
    assert WitnessTrue(sha, states[k].logs, states[k].witnesses[id]);
  }

  lemma TraceLength(sha: Hasher, states: seq<State>, moves: seq<Move>)
    requires Trace(sha, states, moves)
    ensures |states| == |moves| + 1
  {
  }

  /** `gossipOne` does not compare the statement's origin with the one it asked for. A true statement
      about another origin is then compared as if it were about this one, and two healthy logs that
      differ at a common size raise the alarm. Asking for the origins to be equal rules this out. */
  lemma MisroutedReplyFlagsIff(sha: Hasher, logs: map<Bytes, seq<Digest>>, w: Witness, origin: Bytes, peer: Peer,
                               stmt: Statement, saved: bool)
    requires WitnessTrue(sha, logs, w) && StatementTrue(sha, logs, stmt) && Trusted(peer, stmt)
    ensures origin in Step(sha, w, Compare(origin, peer, stmt, saved)).mem.forks
       <==> exists size :: && size in stmt.seen && Spot(origin, size) in w.mem.seen
                           && w.mem.seen[Spot(origin, size)] != stmt.seen[size]
    ensures origin in Step(sha, w, Compare(origin, peer, stmt, saved)).mem.forks ==> stmt.origin != origin
  {
    hide TrueAt, Trusted, SeenOf;
    SeenAgrees(sha, logs, w.mem.seen, stmt);
    forall size: U64
      ensures size in SeenOf(w.mem.seen, origin) <==> Spot(origin, size) in w.mem.seen
      ensures size in SeenOf(w.mem.seen, origin) ==> SeenOf(w.mem.seen, origin)[size] == w.mem.seen[Spot(origin, size)]
    {
      SeenOfHas(w.mem.seen, origin, size);
    }
  }

  /** For instance: two one-entry logs, a witness that has seen the first, a peer's reply about the
      second. */
  lemma MisroutedReplyExample(sha: Hasher, x: Digest, y: Digest, b: Witness, now: I64, saved: bool)
    requires x != y && |b.key| == PUBLIC_KEY_SIZE && b.mem.seen == map[Spot([2], 1) := Hex(y)]
    ensures var logs: map<Bytes, seq<Digest>> := map[[1] := [x], [2] := [y]];
            var a := Witness([7], b.key, EMPTY_VIEW.(seen := map[Spot([1], 1) := Hex(x)]), EMPTY_VIEW, {}, {}, {});
            var stmt := StatementOf(b, [2], now);
            && WitnessTrue(sha, logs, a) && StatementTrue(sha, logs, stmt)
            && [1] in Step(sha, a, Compare([1], Peer(b.id, b.key), stmt, saved)).mem.forks
  {
    hide StatementText, SeenOf;
    var logs: map<Bytes, seq<Digest>> := map[[1] := [x], [2] := [y]];
    var a := Witness([7], b.key, EMPTY_VIEW.(seen := map[Spot([1], 1) := Hex(x)]), EMPTY_VIEW, {}, {}, {});
    var stmt := StatementOf(b, [2], now);
    assert SeenTrue(sha, logs, a.mem.seen) by { OneEntryTrue(sha, logs, [1], x); }
    assert SeenTrue(sha, logs, b.mem.seen) by { OneEntryTrue(sha, logs, [2], y); }
    IssuedTrue(sha, logs, b, [2], now);
    OwnStatementTrusted(b, [2], now);
    SeenOfHas(b.mem.seen, [2], 1);
    assert Hex(x) != Hex(y) by { if Hex(x) == Hex(y) { HexInjective(x, y); } }
    MisroutedReplyFlagsIff(sha, logs, a, [1], Peer(b.id, b.key), stmt, saved);
  }

  lemma OneEntryTrue(sha: Hasher, logs: map<Bytes, seq<Digest>>, origin: Bytes, x: Digest)
    requires origin in logs && logs[origin] == [x]
    ensures TrueAt(sha, logs, origin, 1, Hex(x))
  {
    hide Hex;
    assert [x][..1] == [x];
  }
}
