/** `pkg/witness`, as a protocol: what one witness remembers in memory and on disk, what it has
    signed, and every step it can take, with failing saves, crashes and restarts. */
module Witnessing {
  import opened Encoding
  import opened Hashing
  import opened Crypto
  import opened Options
  import opened Threshold
  import opened KeyChain
  import opened Checkpoints
  import opened TextLines

  /** One size of one operator's log. */
  datatype Spot = Spot(origin: Bytes, size: U64)

  function SpotOf(c: Checkpoint): Spot { Spot(c.origin, c.size) }

  datatype Peer = Peer(id: Bytes, publicKey: Bytes)

  datatype Heard = Heard(peer: Bytes, origin: Bytes)

  /** `SignedSeen`: roots are kept as hexadecimal text. */
  datatype Statement = Statement(
    witnessId: Bytes, publicKey: Bytes, origin: Bytes, seen: map<U64, Bytes>, issuedAt: I64, signature: Signature)

  // ---- The signed text of a statement ----

  function EntryLine(size: U64, root: Bytes): Line { Line(Dec(size) + Text(":"), root) }

  /** One line per size, in increasing order. */
  ghost function LinesFrom(seen: map<U64, Bytes>, from: nat): Bytes
    decreases TWO_TO_64 - from
  {
    if from >= TWO_TO_64 then []
    else (if from in seen then RenderLine(EntryLine(from, seen[from])) else []) + LinesFrom(seen, from + 1)
  }

  function STATEMENT(): Bytes { Text("stele-seen/v0\nwitness_id: ") }

  function StatementLines(s: Statement): seq<Line>
  {
    [ Line(STATEMENT(), s.witnessId),
      Line(Text("origin: "), s.origin),
      Line(Text("issued_at: "), DecSigned(s.issuedAt)),
      Line(Text("pubkey: "), Hex(s.publicKey)),
      Line(Text("entries: "), Dec(|s.seen|)) ]
  }

  /** `SignedSeen.Canonical`. */
  ghost function StatementText(s: Statement): Bytes { Render(StatementLines(s)) + LinesFrom(s.seen, 0) }

  /** `SignedSeen.Verify`. */
  ghost predicate StatementVerifies(s: Statement)
  {
    |s.publicKey| == PUBLIC_KEY_SIZE && s.signature.Length() == SIGNATURE_SIZE
    && EdVerify(s.publicKey, StatementText(s), s.signature)
  }

  /** `CrossAttestation.Canonical` starts like this. */
  function CROSS(): Bytes { Text("stele-cross/v0\nattester: ") }

  ghost predicate IsCrossText(t: Bytes) { CROSS() <= t }

  /** `CrossAttestation`: one witness confirms another's view of an origin. */
  datatype CrossAttestation = CrossAttestation(
    attesterId: Bytes, attesterKey: Bytes, peerId: Bytes, peerKey: Bytes, origin: Bytes, overlap: map<U64, Bytes>,
    issuedAt: I64, peerIssuedAt: I64, signature: Signature)

  function CrossLines(c: CrossAttestation): seq<Line>
  {
    [ Line(CROSS(), c.attesterId),
      Line(Text("peer: "), c.peerId),
      Line(Text("origin: "), c.origin),
      Line(Text("issued_at: "), DecSigned(c.issuedAt)),
      Line(Text("peer_statement_issued_at: "), DecSigned(c.peerIssuedAt)),
      Line(Text("attester_key: "), Hex(c.attesterKey)),
      Line(Text("peer_key: "), Hex(c.peerKey)),
      Line(Text("overlap_count: "), Dec(|c.overlap|)) ]
  }

  /** `CrossAttestation.Canonical`. */
  ghost function CrossText(c: CrossAttestation): Bytes { Render(CrossLines(c)) + LinesFrom(c.overlap, 0) }

  lemma CrossTextStarts(c: CrossAttestation)
    ensures IsCrossText(CrossText(c))
  {
    hide LinesFrom, Hex, Dec, DecSigned, CROSS;
    var lines := CrossLines(c);
    assert Render(lines) == RenderLine(lines[0]) + Render(lines[1..]);
    assert CrossText(c)[..|CROSS()|] == CROSS();
  }

  /** `CrossAttestation.Verify`. */
  ghost predicate CrossVerifies(c: CrossAttestation)
  {
    |c.attesterKey| == PUBLIC_KEY_SIZE && c.signature.Length() == SIGNATURE_SIZE
    && EdVerify(c.attesterKey, CrossText(c), c.signature)
  }

  /** The sizes two views have in common with the same root. */
  function Agreement(a: map<U64, Bytes>, b: map<U64, Bytes>): map<U64, Bytes>
  {
    map size | size in a && size in b && a[size] == b[size] :: a[size]
  }

  /** A statement or a cross-attestation is never the text of a countersignature. */
  lemma TextsApart(c: Checkpoint, s: Statement, t: Bytes)
    requires IsCrossText(t)
    ensures WitnessText(c) != StatementText(s) && WitnessText(c) != t
  {
    hide LinesFrom, WitnessText, StatementText;
    assert HEADER()[5] == '/' as int && STATEMENT()[5] == '-' as int && CROSS()[5] == '-' as int;
    TextStart(c);
    StatementStart(s);
    assert t[5] == CROSS()[5];
  }

  lemma TextStart(c: Checkpoint)
    ensures |WitnessText(c)| > 5 && WitnessText(c)[5] == HEADER()[5]
  {
    hide Hex, Dec, DecSigned;
    var lines := FirstLines(c);
    assert |HEADER()| > 5 && Render(lines) == RenderLine(lines[0]) + Render(lines[1..]);
    assert Render(lines)[5] == RenderLine(lines[0])[5] == HEADER()[5];
  }

  lemma StatementStart(s: Statement)
    ensures |StatementText(s)| > 5 && StatementText(s)[5] == STATEMENT()[5]
  {
    hide Hex, Dec, DecSigned, LinesFrom;
    var lines := StatementLines(s);
    assert |STATEMENT()| > 5 && Render(lines) == RenderLine(lines[0]) + Render(lines[1..]);
    assert Render(lines)[5] == RenderLine(lines[0])[5] == STATEMENT()[5];
  }

  // ---- What a statement's text determines ----

  ghost predicate OneLineRoots(seen: map<U64, Bytes>) { forall size :: size in seen ==> OneLine(seen[size]) }

  /** The digits of a size cannot run into the separator. */
  lemma {:induction false} PeelDigits(a: Bytes, b: Bytes, x: Bytes, y: Bytes)
    requires (forall c :: c in a ==> 48 <= c <= 57) && (forall c :: c in b ==> 48 <= c <= 57)
    requires a + [58] + x == b + [58] + y
    ensures a == b && x == y
  {
    var s, t := a + [58] + x, b + [58] + y;
    assert s[|a|] == 58 && forall i :: 0 <= i < |a| ==> s[i] == a[i] && a[i] in a;
    assert t[|b|] == 58 && forall i :: 0 <= i < |b| ==> t[i] == b[i] && b[i] in b;
    CancelFixed(a + [58], b + [58], x, y);
    CancelSuffix(a, b, [58], [58]);
  }

  /** The line of a size tells the size. */
  lemma LineTellsSize(i: U64, j: U64, r: Bytes, s: Bytes, x: Bytes, y: Bytes)
    requires RenderLine(EntryLine(i, r)) + x == RenderLine(EntryLine(j, s)) + y
    ensures i == j && r + [NEWLINE] + x == s + [NEWLINE] + y
  {
    hide Dec;
    assert Text(":") == [58];
    assert RenderLine(EntryLine(i, r)) + x == Dec(i) + [58] + (r + [NEWLINE] + x);
    assert RenderLine(EntryLine(j, s)) + y == Dec(j) + [58] + (s + [NEWLINE] + y);
    PeelDigits(Dec(i), Dec(j), r + [NEWLINE] + x, s + [NEWLINE] + y);
    DecInjective(i, j);
  }

  /** The first size at or above `from`, and the text from there. */
  lemma {:induction false} FirstFrom(seen: map<U64, Bytes>, from: nat) returns (size: nat)
    requires from <= TWO_TO_64
    ensures from <= size <= TWO_TO_64 && LinesFrom(seen, from) == LinesFrom(seen, size)
    ensures forall k: U64 :: from <= k < size ==> k !in seen
    ensures size < TWO_TO_64 ==> size in seen
    ensures size < TWO_TO_64 ==>
              LinesFrom(seen, size) == RenderLine(EntryLine(size, seen[size])) + LinesFrom(seen, size + 1)
    ensures size == TWO_TO_64 ==> LinesFrom(seen, size) == []
    decreases TWO_TO_64 - from
  {
    hide RenderLine, EntryLine;
    size := from;
    if from < TWO_TO_64 && from !in seen {
      size := FirstFrom(seen, from + 1);
      assert [] + LinesFrom(seen, from + 1) == LinesFrom(seen, from + 1);
    }
  }

  lemma LineNotEmpty(size: U64, root: Bytes, rest: Bytes)
    ensures RenderLine(EntryLine(size, root)) + rest != []
  {
    hide Dec;
  }

  /** The lines determine the map. */
  lemma {:induction false} LinesDetermineSeen(a: map<U64, Bytes>, b: map<U64, Bytes>, from: nat)
    requires OneLineRoots(a) && OneLineRoots(b) && from <= TWO_TO_64 && LinesFrom(a, from) == LinesFrom(b, from)
    ensures forall k: U64 :: from <= k ==> (k in a <==> k in b) && (k in a && k in b ==> a[k] == b[k])
    decreases TWO_TO_64 - from
  {
    hide RenderLine, EntryLine, LinesFrom, OneLine;
    var i := FirstFrom(a, from);
    var j := FirstFrom(b, from);
    if i < TWO_TO_64 {
      LineNotEmpty(i, a[i], LinesFrom(a, i + 1));
    }
    if j < TWO_TO_64 {
      LineNotEmpty(j, b[j], LinesFrom(b, j + 1));
    }
    if i < TWO_TO_64 {
      LineTellsSize(i, j, a[i], b[j], LinesFrom(a, i + 1), LinesFrom(b, j + 1));
      PeelLine(a[i], b[j], LinesFrom(a, i + 1), LinesFrom(b, j + 1));
      LinesDetermineSeen(a, b, i + 1);
    }
  }

  /** A statement's text determines the statement, when the names and roots in it fit on a line. */
  lemma StatementTextDetermines(s: Statement, t: Statement)
    requires OneLine(s.witnessId) && OneLine(s.origin) && OneLineRoots(s.seen)
    requires OneLine(t.witnessId) && OneLine(t.origin) && OneLineRoots(t.seen)
    requires StatementText(s) == StatementText(t)
    ensures s.(signature := NoSignature) == t.(signature := NoSignature)
  {
    hide Render, LinesFrom, Hex, Dec, DecSigned, Text, STATEMENT, OneLineRoots;
    var a, b := StatementLines(s), StatementLines(t);
    StatementLinesFit(s);
    StatementLinesFit(t);
    LinesDetermined(a, b, LinesFrom(s.seen, 0), LinesFrom(t.seen, 0));
    assert a[0] == b[0] && a[1] == b[1] && a[2] == b[2] && a[3] == b[3];
    DecSignedInjective(s.issuedAt, t.issuedAt);
    HexInjective(s.publicKey, t.publicKey);
    LinesDetermineSeen(s.seen, t.seen, 0);
    assert s.seen == t.seen;
  }

  /** A cross-attestation's text determines it, when the names and roots in it fit on a line. */
  lemma CrossTextDetermines(c: CrossAttestation, d: CrossAttestation)
    requires OneLine(c.attesterId) && OneLine(c.peerId) && OneLine(c.origin) && OneLineRoots(c.overlap)
    requires OneLine(d.attesterId) && OneLine(d.peerId) && OneLine(d.origin) && OneLineRoots(d.overlap)
    requires CrossText(c) == CrossText(d)
    ensures c.(signature := NoSignature) == d.(signature := NoSignature)
  {
    hide Render, LinesFrom, Hex, Dec, DecSigned, Text, CROSS, OneLineRoots, OneLine;
    var a, b := CrossLines(c), CrossLines(d);
    CrossLinesFit(c);
    CrossLinesFit(d);
    LinesDetermined(a, b, LinesFrom(c.overlap, 0), LinesFrom(d.overlap, 0));
    assert a[0] == b[0] && a[1] == b[1] && a[2] == b[2] && a[3] == b[3] && a[4] == b[4] && a[5] == b[5] && a[6] == b[6];
    DecSignedInjective(c.issuedAt, d.issuedAt);
    DecSignedInjective(c.peerIssuedAt, d.peerIssuedAt);
    HexInjective(c.attesterKey, d.attesterKey);
    HexInjective(c.peerKey, d.peerKey);
    LinesDetermineSeen(c.overlap, d.overlap, 0);
    assert c.overlap == d.overlap;
  }

  lemma CrossLinesFit(c: CrossAttestation)
    requires OneLine(c.attesterId) && OneLine(c.peerId) && OneLine(c.origin)
    ensures AllOneLine(CrossLines(c))
  {
    hide Hex, Dec, DecSigned, Text, CROSS, OneLine;
    DigitsOneLine(|c.overlap|, c.issuedAt, c.attesterKey);
    DigitsOneLine(0, c.peerIssuedAt, c.peerKey);
  }

  lemma StatementLinesFit(s: Statement)
    requires OneLine(s.witnessId) && OneLine(s.origin)
    ensures AllOneLine(StatementLines(s))
  {
    hide Hex, Dec, DecSigned, Text, STATEMENT;
    DigitsOneLine(|s.seen|, s.issuedAt, s.publicKey);
  }

  // ---- Reading back ----

  /** Reads the sizes and roots of a statement, one per line. */
  function ReadSeen(b: Bytes): Option<map<int, Bytes>>
    decreases |b|
  {
    if b == [] then Some(map[])
    else
      match TakeUntil(58, b)
      case None => None
      case Some((size, rest)) =>
        match TakeUntil(NEWLINE, rest)
        case None => None
        case Some((root, rest')) =>
          TakenLess(58, b);
          TakenLess(NEWLINE, rest);
          match ReadSeen(rest')
          case None => None
          case Some(seen) => Some(seen[FromDec(size) := root])
  }

  lemma {:induction false} TakenLess(stop: Byte, b: Bytes)
    ensures TakeUntil(stop, b).Some? ==> |TakeUntil(stop, b).value.1| < |b|
  {
    if b != [] && b[0] != stop {
      TakenLess(stop, b[1..]);
    }
  }

  /** The part of a view from a size on. */
  ghost function SeenFrom(seen: map<U64, Bytes>, from: nat): map<int, Bytes>
  {
    map size: int | size in seen && from <= size :: seen[size]
  }

  lemma {:induction false} SeenReadBack(seen: map<U64, Bytes>, from: nat)
    requires OneLineRoots(seen)
    ensures ReadSeen(LinesFrom(seen, from)) == Some(SeenFrom(seen, from))
    decreases TWO_TO_64 - from
  {
    hide Dec, FromDec, TakeUntil;
    if from < TWO_TO_64 {
      SeenReadBack(seen, from + 1);
      var rest := LinesFrom(seen, from + 1);
      if from in seen {
        var b := LinesFrom(seen, from);
        assert Text(":") == [58];
        assert b == Dec(from) + ([58] + (seen[from] + ([NEWLINE] + rest)));
        TakenBack(58, Dec(from), seen[from] + ([NEWLINE] + rest));
        TakenBack(NEWLINE, seen[from], rest);
        DecReadBack(from);
        assert SeenFrom(seen, from) == SeenFrom(seen, from + 1)[from := seen[from]];
      } else {
        assert [] + rest == rest;
        assert SeenFrom(seen, from) == SeenFrom(seen, from + 1);
      }
    }
  }

  /** What the text of a statement says. */
  datatype StatementRead = StatementRead(witnessId: Bytes, origin: Bytes, issuedAt: int, publicKey: Bytes, count: int,
                                         seen: Option<map<int, Bytes>>)

  function ReadStatement(b: Bytes): Option<StatementRead>
  {
    match ReadLines([ Text("stele-seen/v0\nwitness_id: "), Text("origin: "), Text("issued_at: "), Text("pubkey: "),
                      Text("entries: ") ], b)
    case None => None
    case Some((vs, rest)) =>
      Some(StatementRead(vs[0], vs[1], FromDecSigned(vs[2]), FromHex(vs[3]), FromDec(vs[4]), ReadSeen(rest)))
  }

  /** Every field can be read from the signed text, when names and roots fit on a line. */
  lemma StatementReadBack(s: Statement)
    requires OneLine(s.witnessId) && OneLine(s.origin) && OneLineRoots(s.seen)
    ensures ReadStatement(StatementText(s))
         == Some(StatementRead(s.witnessId, s.origin, s.issuedAt, s.publicKey, |s.seen|, Some(SeenFrom(s.seen, 0))))
  {
    hide Hex, Dec, DecSigned, FromHex, FromDec, FromDecSigned, Text, Render, ReadLines, ReadSeen, LinesFrom, SeenFrom,
      OneLineRoots;
    StatementLinesFit(s);
    LinesReadBack([ Text("stele-seen/v0\nwitness_id: "), Text("origin: "), Text("issued_at: "), Text("pubkey: "),
                    Text("entries: ") ], StatementLines(s), LinesFrom(s.seen, 0));
    SeenReadBack(s.seen, 0);
    DecSignedReadBack(s.issuedAt);
    HexReadBack(s.publicKey);
    DecReadBack(|s.seen|);
  }

  /** What the text of a cross-attestation says. */
  datatype CrossRead = CrossRead(attesterId: Bytes, peerId: Bytes, origin: Bytes, issuedAt: int, peerIssuedAt: int,
                                 attesterKey: Bytes, peerKey: Bytes, count: int, overlap: Option<map<int, Bytes>>)

  function CROSS_CAPTIONS(): seq<Bytes>
  {
    [ Text("stele-cross/v0\nattester: "), Text("peer: "), Text("origin: "), Text("issued_at: "),
      Text("peer_statement_issued_at: "), Text("attester_key: "), Text("peer_key: "), Text("overlap_count: ") ]
  }

  function ReadCross(b: Bytes): Option<CrossRead>
  {
    match ReadLines(CROSS_CAPTIONS(), b)
    case None => None
    case Some((vs, rest)) =>
      Some(CrossRead(vs[0], vs[1], vs[2], FromDecSigned(vs[3]), FromDecSigned(vs[4]), FromHex(vs[5]), FromHex(vs[6]),
                     FromDec(vs[7]), ReadSeen(rest)))
  }

  lemma CrossReadBack(c: CrossAttestation)
    requires OneLine(c.attesterId) && OneLine(c.peerId) && OneLine(c.origin) && OneLineRoots(c.overlap)
    ensures ReadCross(CrossText(c))
         == Some(CrossRead(c.attesterId, c.peerId, c.origin, c.issuedAt, c.peerIssuedAt, c.attesterKey, c.peerKey,
                           |c.overlap|, Some(SeenFrom(c.overlap, 0))))
  {
    hide Hex, Dec, DecSigned, FromHex, FromDec, FromDecSigned, Text, Render, ReadLines, ReadSeen, LinesFrom, SeenFrom,
      OneLineRoots;
    CrossLinesFit(c);
    LinesReadBack(CROSS_CAPTIONS(), CrossLines(c), LinesFrom(c.overlap, 0));
    SeenReadBack(c.overlap, 0);
    DecSignedReadBack(c.issuedAt);
    DecSignedReadBack(c.peerIssuedAt);
    HexReadBack(c.attesterKey);
    HexReadBack(c.peerKey);
    DecReadBack(|c.overlap|);
  }

  // ---- State ----

  /** What a witness keeps, in memory and in its files. */
  datatype View = View(
    operators: map<Bytes, Bytes>, seen: map<Spot, Bytes>, forks: set<Bytes>, latest: map<Heard, Statement>)

  /** A witness and everything its key ever signed. */
  datatype Witness = Witness(id: Bytes, key: Bytes, mem: View, files: View, cosigned: set<Checkpoint>,
                             statements: set<Statement>, cross: set<Bytes>)

  const EMPTY_VIEW: View := View(map[], map[], {}, map[])

  ghost predicate Fresh(w: Witness)
  {
    w.mem == EMPTY_VIEW && w.files == EMPTY_VIEW && w.cosigned == {} && w.statements == {} && w.cross == {}
  }

  /** `SeenFor`. */
  function SeenOf(seen: map<Spot, Bytes>, origin: Bytes): map<U64, Bytes>
  {
    map spot | spot in seen && spot.origin == origin :: spot.size := seen[spot]
  }

  lemma SeenOfHas(seen: map<Spot, Bytes>, origin: Bytes, size: U64)
    ensures size in SeenOf(seen, origin) <==> Spot(origin, size) in seen
    ensures size in SeenOf(seen, origin) ==> SeenOf(seen, origin)[size] == seen[Spot(origin, size)]
  {
    if Spot(origin, size) in seen {
      assert Spot(origin, size).size == size;
    }
  }

  /** Two views give different roots for a common size. */
  ghost predicate Contradicts(a: map<U64, Bytes>, b: map<U64, Bytes>)
  {
    exists size :: size in a && size in b && a[size] != b[size]
  }

  /** What a confirmation is taken to say: no size the two views have in common is missing from it. */
  ghost predicate Covers(overlap: map<U64, Bytes>, a: map<U64, Bytes>, b: map<U64, Bytes>)
  {
    forall size :: size in a && size in b ==> size in overlap
  }

  lemma AgreementCoversIff(a: map<U64, Bytes>, b: map<U64, Bytes>)
    ensures Covers(Agreement(a, b), a, b) <==> !Contradicts(a, b)
  {
  }

  // ---- Steps ----

  datatype Event =
    | Cosign(c: Checkpoint, chain: Option<Chain>, group: Option<Group>,
             saveSeen: bool, saveCheckpoints: bool, saveForks: bool)
    | AddOperator(origin: Bytes, rootKey: Bytes, saved: bool)
    | ClearFork(origin: Bytes, saved: bool)
    | Issue(origin: Bytes, now: I64)
    | Hear(peer: Peer, stmt: Statement, saveForks: bool, saveLatest: bool)
    | Compare(origin: Bytes, peer: Peer, stmt: Statement, saveForks: bool)
    | CrossAttest(text: Bytes)
    | Restart

  /** `recordForkLocked`: the flag is set in memory even if it cannot be saved. */
  ghost function Flag(w: Witness, origin: Bytes, saved: bool): Witness
  {
    var forks := w.mem.forks + {origin};
    w.(mem := w.mem.(forks := forks), files := if saved then w.files.(forks := forks) else w.files)
  }

  /** A checkpoint that passes the checks before the fork check. */
  ghost predicate Presentable(sha: Hasher, w: Witness, c: Checkpoint, chain: Option<Chain>, group: Option<Group>)
  {
    && c.origin !in w.mem.forks && c.origin in w.mem.operators
    && OperatorSigned(sha, c, chain, w.mem.operators[c.origin], group)
  }

  /** A different root is already known for this size. */
  ghost predicate Conflicts(w: Witness, c: Checkpoint)
  {
    SpotOf(c) in w.mem.seen && w.mem.seen[SpotOf(c)] != Hex(c.rootHash)
  }

  /** Remember, save the seen map, save the checkpoint, and only then sign. */
  ghost function Accept(w: Witness, c: Checkpoint, saveSeen: bool, saveCheckpoints: bool): Witness
  {
    var seen := w.mem.seen[SpotOf(c) := Hex(c.rootHash)];
    var files := if saveSeen then w.files.(seen := seen) else w.files;
    w.(mem := w.mem.(seen := seen), files := files,
       cosigned := if saveSeen && saveCheckpoints then w.cosigned + {c} else w.cosigned)
  }

  /** The checks of `gossipOne` on a reply. */
  ghost predicate Trusted(peer: Peer, stmt: Statement)
  {
    StatementVerifies(stmt) && stmt.publicKey == peer.publicKey && stmt.witnessId == peer.id
  }

  ghost function StatementOf(w: Witness, origin: Bytes, now: I64): Statement
  {
    var s := Statement(w.id, w.key, origin, SeenOf(w.mem.seen, origin), now, NoSignature);
    s.(signature := Signed(Ed25519, w.key, StatementText(s)))
  }

  /** `recordAttestationLocked`. */
  ghost function Record(w: Witness, peer: Bytes, stmt: Statement, saveForks: bool, saveLatest: bool): Witness
  {
    var k := Heard(peer, stmt.origin);
    var v := if k in w.mem.latest && Contradicts(w.mem.latest[k].seen, stmt.seen)
             then Flag(w, stmt.origin, saveForks) else w;
    var latest := v.mem.latest[k := stmt];
    v.(mem := v.mem.(latest := latest), files := if saveLatest then v.files.(latest := latest) else v.files)
  }

  ghost function Step(sha: Hasher, w: Witness, e: Event): Witness
  {
    match e
    case Cosign(c, chain, group, saveSeen, saveCheckpoints, saveForks) =>
      if !Presentable(sha, w, c, chain, group) then w
      else if Conflicts(w, c) then Flag(w, c.origin, saveForks)
      else Accept(w, c, saveSeen, saveCheckpoints)
    case AddOperator(origin, rootKey, saved) =>
      if origin == [] || |rootKey| != PUBLIC_KEY_SIZE then w
      else
        var operators := w.mem.operators[origin := rootKey];
        w.(mem := w.mem.(operators := operators), files := if saved then w.files.(operators := operators) else w.files)
    case ClearFork(origin, saved) =>
      var forks := w.mem.forks - {origin};
      w.(mem := w.mem.(forks := forks), files := if saved then w.files.(forks := forks) else w.files)
    case Issue(origin, now) => w.(statements := w.statements + {StatementOf(w, origin, now)})
    case Hear(peer, stmt, saveForks, saveLatest) =>
      if Trusted(peer, stmt) then Record(w, peer.id, stmt, saveForks, saveLatest) else w
    case Compare(origin, peer, stmt, saveForks) =>
      if Trusted(peer, stmt) && Contradicts(SeenOf(w.mem.seen, origin), stmt.seen)
      then Flag(w, origin, saveForks) else w
    case CrossAttest(text) => if IsCrossText(text) then w.(cross := w.cross + {text}) else w
    case Restart => w.(mem := w.files)
  }

  ghost function Run(sha: Hasher, w: Witness, events: seq<Event>): Witness
  {
    if events == [] then w else Step(sha, Run(sha, w, events[..|events| - 1]), events[|events| - 1])
  }

  // ---- What is kept of peers ----

  /** Every peer is heard under one key. */
  ghost predicate OneKeyEach(events: seq<Event>, keys: map<Bytes, Bytes>)
  {
    forall i :: 0 <= i < |events| && events[i].Hear? ==>
                  events[i].peer.id in keys && keys[events[i].peer.id] == events[i].peer.publicKey
  }

  /** The peer's own statement about the origin it is kept for. */
  ghost predicate StatedBy(key: Bytes, k: Heard, s: Statement)
  {
    && s.witnessId == k.peer && s.origin == k.origin && s.publicKey == key && |key| == PUBLIC_KEY_SIZE
    && s.signature == Signed(Ed25519, key, StatementText(s))
  }

  ghost predicate AllStated(latest: map<Heard, Statement>, keys: map<Bytes, Bytes>)
  {
    forall k :: k in latest ==> k.peer in keys && StatedBy(keys[k.peer], k, latest[k])
  }

  lemma TrustedIff(peer: Peer, s: Statement)
    ensures Trusted(peer, s) <==> StatedBy(peer.publicKey, Heard(peer.id, s.origin), s)
  {
    hide StatementText;
  }

  lemma StepKeepsStated(sha: Hasher, w: Witness, e: Event, keys: map<Bytes, Bytes>)
    requires AllStated(w.mem.latest, keys) && AllStated(w.files.latest, keys)
    requires e.Hear? ==> e.peer.id in keys && keys[e.peer.id] == e.peer.publicKey
    ensures AllStated(Step(sha, w, e).mem.latest, keys) && AllStated(Step(sha, w, e).files.latest, keys)
  {
    hide OperatorSigned, Hex, StatementText, Contradicts, SeenOf, Trusted, StatedBy;
    if e.Hear? {
      TrustedIff(e.peer, e.stmt);
    }
  }

  /** Over any run, every statement kept for a peer and an origin is the peer's own, signed by its key. */
  lemma {:induction false} KeptIsStated(sha: Hasher, start: Witness, events: seq<Event>, keys: map<Bytes, Bytes>)
    requires Fresh(start) && OneKeyEach(events, keys)
    ensures AllStated(Run(sha, start, events).mem.latest, keys)
    ensures AllStated(Run(sha, start, events).files.latest, keys)
  {
    hide Step, AllStated;
    if events == [] {
      assert AllStated(map[], keys) by { NothingStated(keys); }
    } else {
      var n := |events| - 1;
      assert forall i :: 0 <= i < n ==> events[..n][i] == events[i];
      KeptIsStated(sha, start, events[..n], keys);
      StepKeepsStated(sha, Run(sha, start, events[..n]), events[n], keys);
    }
  }

  lemma NothingStated(keys: map<Bytes, Bytes>)
    ensures AllStated(map[], keys)
  {
  }

  /** An origin that hearing a peer gets flagged is flagged on proof: two statements of that peer about the
      origin, both signed by its one key, give different roots for one size. */
  lemma HearingProves(sha: Hasher, start: Witness, events: seq<Event>, keys: map<Bytes, Bytes>, peer: Peer,
                      stmt: Statement, saveForks: bool, saveLatest: bool)
    returns (earlier: Statement, size: U64)
    requires Fresh(start) && OneKeyEach(events, keys) && peer.id in keys && keys[peer.id] == peer.publicKey
    requires var w := Run(sha, start, events);
             stmt.origin !in w.mem.forks
             && stmt.origin in Step(sha, w, Hear(peer, stmt, saveForks, saveLatest)).mem.forks
    ensures StatedBy(peer.publicKey, Heard(peer.id, stmt.origin), earlier)
    ensures StatedBy(peer.publicKey, Heard(peer.id, stmt.origin), stmt)
    ensures size in earlier.seen && size in stmt.seen && earlier.seen[size] != stmt.seen[size]
  {
    hide Run, StatedBy, Trusted;
    KeptIsStated(sha, start, events, keys);
    TrustedIff(peer, stmt);
    var w := Run(sha, start, events);
    earlier := w.mem.latest[Heard(peer.id, stmt.origin)];
    size :| size in earlier.seen && size in stmt.seen && earlier.seen[size] != stmt.seen[size];
  }

  /** No other statement of the peer about the origin is heard in between, and what is in memory alone is
      not lost. */
  ghost predicate LeavesAlone(events: seq<Event>, k: Heard, saved: bool)
  {
    forall i :: 0 <= i < |events| ==>
                  && (events[i].Hear? ==> Heard(events[i].peer.id, events[i].stmt.origin) != k)
                  && (events[i].Restart? ==> saved)
  }

  ghost predicate Holds(w: Witness, k: Heard, s: Statement, saved: bool)
  {
    && k in w.mem.latest && w.mem.latest[k] == s
    && (saved ==> k in w.files.latest && w.files.latest[k] == s)
  }

  lemma StepHolds(sha: Hasher, w: Witness, e: Event, k: Heard, s: Statement, saved: bool)
    requires Holds(w, k, s, saved) && LeavesAlone([e], k, saved)
    ensures Holds(Step(sha, w, e), k, s, saved)
  {
    hide OperatorSigned, Hex, StatementText, Contradicts, SeenOf, Trusted;
    assert [e][0] == e;
  }

  lemma {:induction false} RunHolds(sha: Hasher, w: Witness, events: seq<Event>, k: Heard, s: Statement, saved: bool)
    requires Holds(w, k, s, saved) && LeavesAlone(events, k, saved)
    ensures Holds(Run(sha, w, events), k, s, saved)
  {
    hide Step, Holds;
    if events != [] {
      var n := |events| - 1;
      assert forall i :: 0 <= i < n ==> events[..n][i] == events[i];
      RunHolds(sha, w, events[..n], k, s, saved);
      StepHolds(sha, Run(sha, w, events[..n]), events[n], k, s, saved);
    }
  }

  /** A peer that contradicts its last statement gets the origin flagged, whatever happened in between: a
      restart too, if the earlier statement was saved. */
  lemma ContradictionFlagged(sha: Hasher, w: Witness, peer: Peer, s: Statement, saveForks: bool, saved: bool,
                             between: seq<Event>, t: Statement, saveForks': bool, saved': bool)
    requires Trusted(peer, s) && Trusted(peer, t) && s.origin == t.origin && Contradicts(s.seen, t.seen)
    requires LeavesAlone(between, Heard(peer.id, s.origin), saved)
    ensures var v := Run(sha, Step(sha, w, Hear(peer, s, saveForks, saved)), between);
            t.origin in Step(sha, v, Hear(peer, t, saveForks', saved')).mem.forks
  {
    hide Trusted, Contradicts, Run;
    var heard := Step(sha, w, Hear(peer, s, saveForks, saved));
    assert Holds(heard, Heard(peer.id, s.origin), s, saved);
    RunHolds(sha, heard, between, Heard(peer.id, s.origin), s, saved);
  }

  // ---- No double cosign ----

  /** Memory never disagrees with the files about a root. */
  ghost predicate FilesRemembered(w: Witness)
  {
    forall spot :: spot in w.files.seen ==> spot in w.mem.seen && w.mem.seen[spot] == w.files.seen[spot]
  }

  /** Whatever has been signed is already on disk. */
  ghost predicate SignedIsOnDisk(w: Witness)
  {
    forall c :: c in w.cosigned ==> SpotOf(c) in w.files.seen && w.files.seen[SpotOf(c)] == Hex(c.rootHash)
  }

  ghost predicate Inv(w: Witness) { FilesRemembered(w) && SignedIsOnDisk(w) }

  lemma AcceptKeepsInv(w: Witness, c: Checkpoint, saveSeen: bool, saveCheckpoints: bool)
    requires Inv(w) && !Conflicts(w, c)
    ensures Inv(Accept(w, c, saveSeen, saveCheckpoints))
  {
    hide Hex;
  }

  lemma StepKeepsInv(sha: Hasher, w: Witness, e: Event)
    requires Inv(w)
    ensures Inv(Step(sha, w, e))
  {
    hide OperatorSigned, Hex, StatementText, Contradicts, SeenOf;
    if e.Cosign? && Presentable(sha, w, e.c, e.chain, e.group) && !Conflicts(w, e.c) {
      AcceptKeepsInv(w, e.c, e.saveSeen, e.saveCheckpoints);
    }
  }

  lemma {:induction false} RunKeepsInv(sha: Hasher, w: Witness, events: seq<Event>)
    requires Inv(w)
    ensures Inv(Run(sha, w, events))
  {
    hide Inv, Step;
    if events != [] {
      RunKeepsInv(sha, w, events[..|events| - 1]);
      StepKeepsInv(sha, Run(sha, w, events[..|events| - 1]), events[|events| - 1]);
    }
  }

  /** Over any run whatever, a witness never signs two roots for one origin and size. */
  lemma NoDoubleCosign(sha: Hasher, start: Witness, events: seq<Event>, c: Checkpoint, d: Checkpoint)
    requires Fresh(start)
    requires c in Run(sha, start, events).cosigned && d in Run(sha, start, events).cosigned
    requires c.origin == d.origin && c.size == d.size
    ensures c.rootHash == d.rootHash
  {
    hide Run;
    RunKeepsInv(sha, start, events);
    var w := Run(sha, start, events);
    assert w.files.seen[SpotOf(c)] == Hex(c.rootHash) && w.files.seen[SpotOf(d)] == Hex(d.rootHash);
    HexInjective(c.rootHash, d.rootHash);
  }
}
