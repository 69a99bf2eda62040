/** `pkg/checkpoint`: the signed tree head, its signed text, and the counting of witness signatures. */
module Checkpoints {
  import opened Encoding
  import opened Hashing
  import opened Crypto
  import opened Options
  import opened Threshold
  import opened KeyChain
  import opened TextLines
  import GroupCanonical

  datatype Beacon = Beacon(source: Bytes, round: U64, value: Bytes)

  datatype WitnessSig = WitnessSig(witnessId: Bytes, publicKey: Bytes, signature: Signature,
                                   quantumPublicKey: Bytes, quantumSignature: Signature)

  datatype Checkpoint = Checkpoint(
    origin: Bytes, size: U64, rootHash: Bytes, headHash: Bytes, timeNanos: I64, epoch: U64, keyId: Bytes,
    beacon: Option<Beacon>, signature: Signature, quantumSignature: Signature,
    groupDigest: Bytes, memberSigs: seq<Option<MemberSig>>, witnesses: seq<WitnessSig>)

  /** The bytes of an ideal signature; any one-to-one rendering would do. */
  function SignatureBytes(s: Signature): Bytes
  {
    match s
    case NoSignature => []
    case Signed(Ed25519, key, msg) => [1] + Put(key) + msg
    case Signed(Dilithium3, key, msg) => [2] + Put(key) + msg
    case Junk(n) => [0] + Dec(n)
  }

  function BeaconText(b: Option<Beacon>): Bytes
  {
    if b.None? then NONE() else b.value.source + Text(":") + Dec(b.value.round) + Text(":") + Hex(b.value.value)
  }

  function HEADER(): Bytes { Text("stele/v1\norigin: ") }

  /** The lines up to the epoch; only the origin is free text. */
  function FirstLines(c: Checkpoint): seq<Line>
  {
    [ Line(HEADER(), c.origin),
      Line(Text("size: "), Dec(c.size)),
      Line(Text("root: "), Hex(c.rootHash)),
      Line(Text("head: "), Hex(c.headHash)),
      Line(Text("time: "), DecSigned(c.timeNanos)),
      Line(Text("epoch: "), Dec(c.epoch)) ]
  }

  function LastLines(c: Checkpoint): seq<Line>
  {
    [ Line(Text("beacon: "), BeaconText(c.beacon)),
      Line(Text("threshold_group: "), TextOrNone(c.groupDigest)) ]
  }

  /** `Checkpoint.Canonical`: one line per field. */
  function CheckpointText(c: Checkpoint): Bytes { Render(FirstLines(c)) + Render(LastLines(c)) }

  /** `CanonicalForWitness`: the operator's text and its signature. */
  function WitnessText(c: Checkpoint): Bytes
  {
    CheckpointText(c) + (Text("operator_sig: ") + Hex(SignatureBytes(c.signature)) + [NEWLINE])
  }

  lemma NumberLinesFit(c: Checkpoint)
    ensures AllOneLine(FirstLines(c)[1..])
  {
    hide Hex, Dec, DecSigned, HEADER, Text;
    DigitsOneLine(c.size, c.timeNanos, c.rootHash);
    DigitsOneLine(c.epoch, 0, c.headHash);
  }

  /** The fields of the lines up to the epoch. */
  predicate SameFields(c: Checkpoint, d: Checkpoint)
  {
    && c.origin == d.origin && c.size == d.size && c.rootHash == d.rootHash
    && c.headHash == d.headHash && c.timeNanos == d.timeNanos && c.epoch == d.epoch
  }

  /** Equal texts, whatever comes after them, agree on origin, size, root, head, time and epoch exactly
      when they agree on the origin. */
  lemma TextDetermines(c: Checkpoint, d: Checkpoint, x: Bytes, y: Bytes)
    requires CheckpointText(c) + x == CheckpointText(d) + y
    ensures SameFields(c, d) <==> c.origin == d.origin
    ensures c.origin == d.origin ==> Render(LastLines(c)) + x == Render(LastLines(d)) + y
  {
    hide HEADER, Hex, Dec, DecSigned, Text, Render, LastLines;
    var a, b := FirstLines(c), FirstLines(d);
    var u, v := Render(LastLines(c)) + x, Render(LastLines(d)) + y;
    if c.origin == d.origin {
      FirstLineOff(c, x);
      FirstLineOff(d, y);
      var first := RenderLine(a[0]);
      CancelPrefix(first, Render(a[1..]) + u, Render(b[1..]) + v);
      NumberLinesFit(c);
      NumberLinesFit(d);
      LinesDetermined(a[1..], b[1..], u, v);
      assert a[1..][0] == b[1..][0] && a[1..][1] == b[1..][1] && a[1..][2] == b[1..][2];
      assert a[1..][3] == b[1..][3] && a[1..][4] == b[1..][4];
      SameNumbers(c, d);
    }
  }

  lemma FirstLineOff(c: Checkpoint, x: Bytes)
    ensures CheckpointText(c) + x
         == RenderLine(FirstLines(c)[0]) + (Render(FirstLines(c)[1..]) + (Render(LastLines(c)) + x))
  {
    hide HEADER, Hex, Dec, DecSigned, Text, LastLines, RenderLine;
    var a := FirstLines(c);
    assert Render(a) == RenderLine(a[0]) + Render(a[1..]);
  }

  lemma SameNumbers(c: Checkpoint, d: Checkpoint)
    requires Dec(c.size) == Dec(d.size) && Hex(c.rootHash) == Hex(d.rootHash) && Hex(c.headHash) == Hex(d.headHash)
    requires DecSigned(c.timeNanos) == DecSigned(d.timeNanos) && Dec(c.epoch) == Dec(d.epoch)
    ensures c.size == d.size && c.rootHash == d.rootHash && c.headHash == d.headHash
    ensures c.timeNanos == d.timeNanos && c.epoch == d.epoch
  {
    hide Hex, Dec, DecSigned;
    DecInjective(c.size, d.size);
    HexInjective(c.rootHash, d.rootHash);
    HexInjective(c.headHash, d.headHash);
    DecSignedInjective(c.timeNanos, d.timeNanos);
    DecInjective(c.epoch, d.epoch);
  }

  /** Two single-line origins in equal texts are equal, so single-line texts agree throughout. */
  lemma OneLineTextDetermines(c: Checkpoint, d: Checkpoint, x: Bytes, y: Bytes)
    requires OneLine(c.origin) && OneLine(d.origin) && CheckpointText(c) + x == CheckpointText(d) + y
    ensures SameFields(c, d)
  {
    hide HEADER, Hex, Dec, DecSigned, Text, Render, LastLines, RenderLine, OneLine;
    FirstLineOff(c, x);
    FirstLineOff(d, y);
    PeelLabelled(FirstLines(c)[0], FirstLines(d)[0],
                 Render(FirstLines(c)[1..]) + (Render(LastLines(c)) + x),
                 Render(FirstLines(d)[1..]) + (Render(LastLines(d)) + y));
    TextDetermines(c, d, x, y);
  }

  /** The line of a beacon tells the beacon: round and value have no colon, and neither has "none". */
  lemma BeaconTextInjective(b: Option<Beacon>, c: Option<Beacon>)
    requires BeaconText(b) == BeaconText(c)
    ensures b == c
  {
    hide Hex, Dec;
    assert Text(":") == [58];
    assert 58 !in NONE();
    if b.Some? {
      assert 58 in BeaconText(b);
    }
    if c.Some? {
      assert 58 in BeaconText(c);
    }
    if b.Some? && c.Some? {
      var p, q := b.value, c.value;
      PeelLastColon(p.source + [58] + Dec(p.round), q.source + [58] + Dec(q.round), Hex(p.value), Hex(q.value));
      PeelLastColon(p.source, q.source, Dec(p.round), Dec(q.round));
      DecInjective(p.round, q.round);
      HexInjective(p.value, q.value);
    }
  }

  /** A beacon source without line breaks. */
  ghost predicate PlainBeacon(c: Checkpoint) { c.beacon.Some? ==> OneLine(c.beacon.value.source) }

  /** With the same origin, the operator's text agrees altogether exactly when the beacons agree, and they
      do when their sources have no line break. */
  lemma OperatorTextDetermines(c: Checkpoint, d: Checkpoint)
    requires c.origin == d.origin && CheckpointText(c) == CheckpointText(d)
    ensures SameFields(c, d)
    ensures c.beacon == d.beacon ==> TextOrNone(c.groupDigest) == TextOrNone(d.groupDigest)
    ensures PlainBeacon(c) && PlainBeacon(d) ==> c.beacon == d.beacon
  {
    hide CheckpointText, BeaconText, OneLine, Render, RenderLine;
    assert CheckpointText(c) + [] == CheckpointText(c) && CheckpointText(d) + [] == CheckpointText(d);
    TextDetermines(c, d, [], []);
    var a, b := LastLines(c), LastLines(d);
    assert Render(a) + [] == Render(a) && Render(b) + [] == Render(b);
    TwoLines(a[0], a[1]);
    TwoLines(b[0], b[1]);
    if c.beacon == d.beacon {
      CancelPrefix(RenderLine(a[0]), Render([a[1]]), Render([b[1]]));
      SameLastLine(a[1], b[1]);
    }
    if PlainBeacon(c) && PlainBeacon(d) {
      BeaconFits(c);
      BeaconFits(d);
      PeelLabelled(a[0], b[0], Render([a[1]]), Render([b[1]]));
      BeaconTextInjective(c.beacon, d.beacon);
    }
  }

  lemma TwoLines(l: Line, m: Line)
    ensures Render([l, m]) == RenderLine(l) + Render([m])
  {
    hide RenderLine;
    assert [l, m][1..] == [m];
  }

  lemma BeaconFits(c: Checkpoint)
    requires PlainBeacon(c)
    ensures OneLine(BeaconText(c.beacon))
  {
    hide Hex, Dec;
    if c.beacon.Some? {
      DigitsOneLine(c.beacon.value.round, 0, c.beacon.value.value);
    }
  }

  /** What a witness signs fixes origin, size and root of the checkpoint. */
  lemma WitnessTextDetermines(c: Checkpoint, d: Checkpoint)
    requires OneLine(c.origin) && OneLine(d.origin) && WitnessText(c) == WitnessText(d)
    ensures c.origin == d.origin && c.size == d.size && c.rootHash == d.rootHash
  {
    hide CheckpointText;
    OneLineTextDetermines(c, d, Text("operator_sig: ") + Hex(SignatureBytes(c.signature)) + [NEWLINE],
                          Text("operator_sig: ") + Hex(SignatureBytes(d.signature)) + [NEWLINE]);
  }

  /** It also fixes the operator's signature, when the free text of the checkpoint fits on a line. */
  lemma WitnessTextBinds(c: Checkpoint, d: Checkpoint)
    requires OneLine(c.origin) && PlainBeacon(c) && OneLine(c.groupDigest)
    requires OneLine(d.origin) && PlainBeacon(d) && OneLine(d.groupDigest)
    requires WitnessText(c) == WitnessText(d)
    ensures SameFields(c, d) && SignatureBytes(c.signature) == SignatureBytes(d.signature)
  {
    hide CheckpointText, Hex, Render, SignatureBytes, BeaconText;
    var x := Text("operator_sig: ") + Hex(SignatureBytes(c.signature)) + [NEWLINE];
    var y := Text("operator_sig: ") + Hex(SignatureBytes(d.signature)) + [NEWLINE];
    OneLineTextDetermines(c, d, x, y);
    TextDetermines(c, d, x, y);
    BeaconFits(c);
    BeaconFits(d);
    assert OneLine(Text("none"));
    LinesDetermined(LastLines(c), LastLines(d), x, y);
    var mark := Text("operator_sig: ");
    var a, b := Hex(SignatureBytes(c.signature)), Hex(SignatureBytes(d.signature));
    CancelSuffix(mark + a, mark + b, [NEWLINE], [NEWLINE]);
    CancelPrefix(mark, a, b);
    HexInjective(SignatureBytes(c.signature), SignatureBytes(d.signature));
  }

  /** A bare checkpoint of the given size whose last line is the given digest. */
  function Bare(origin: Bytes, size: U64, digest: Bytes): Checkpoint
  {
    Checkpoint(origin, size, [], [], 0, 0, [], None, NoSignature, NoSignature, digest, [], [])
  }

  /** What the text of a bare checkpoint has between the origin and the digest. */
  function Between(size: U64): Bytes
  {
    var c := Bare([], size, []);
    [NEWLINE] + Render(FirstLines(c)[1..]) + RenderLine(LastLines(c)[0]) + Text("threshold_group: ")
  }

  lemma BareText(origin: Bytes, size: U64, digest: Bytes)
    requires digest != []
    ensures CheckpointText(Bare(origin, size, digest)) == HEADER() + (origin + Between(size) + digest + [NEWLINE])
  {
    hide HEADER, Hex, Dec, DecSigned, Text, BeaconText;
    var c, e := Bare(origin, size, digest), Bare([], size, []);
    var first, last := FirstLines(c), LastLines(c);
    var middle, beacon := Render(first[1..]), RenderLine(last[0]);
    assert first[1..] == FirstLines(e)[1..] && last[0] == LastLines(e)[0];
    assert Render(first) == HEADER() + (origin + [NEWLINE]) + middle;
    assert Render(last) == beacon + Render(last[1..]);
    assert last[1..] == [Line(Text("threshold_group: "), digest)];
    var group := RenderLine(Line(Text("threshold_group: "), digest));
    assert Render(last[1..]) == group + Render([]) == group;
    assert group == Text("threshold_group: ") + (digest + [NEWLINE]);
    BareJoin(HEADER(), origin, middle, beacon, Text("threshold_group: "), digest);
  }

  lemma BareJoin(header: Bytes, origin: Bytes, middle: Bytes, beacon: Bytes, caption: Bytes, digest: Bytes)
    ensures header + (origin + [NEWLINE]) + middle + (beacon + (caption + (digest + [NEWLINE])))
         == header + (origin + ([NEWLINE] + middle + beacon + caption) + digest + [NEWLINE])
  {
  }

  /** An origin with line breaks can spell out the fields that follow, so the text alone does not fix the
      origin: here two checkpoints of sizes 1 and 2 have the same text. The pair needs a group digest
      with line breaks as well, to make up for the extra lines. */
  lemma BrokenOriginAmbiguous(origin: Bytes, x: Bytes, y: Bytes)
    requires x != [] && y != []
    ensures CheckpointText(Bare(origin, 1, x + Between(2) + y)) == CheckpointText(Bare(origin + Between(1) + x, 2, y))
  {
    hide HEADER, Between, CheckpointText;
    BareText(origin, 1, x + Between(2) + y);
    BareText(origin + Between(1) + x, 2, y);
    assert origin + Between(1) + (x + Between(2) + y) + [NEWLINE]
        == origin + Between(1) + x + Between(2) + y + [NEWLINE];
  }

  // ---- Reading a checkpoint ----

  /** What the text of a checkpoint says. */
  datatype TreeHead = TreeHead(origin: Bytes, size: int, root: Bytes, head: Bytes, time: int, epoch: int,
                               beacon: Option<(Bytes, int, Bytes)>, group: Bytes)

  function CAPTIONS(): seq<Bytes>
  {
    [ Text("stele/v1\norigin: "), Text("size: "), Text("root: "), Text("head: "), Text("time: "), Text("epoch: "),
      Text("beacon: "), Text("threshold_group: ") ]
  }

  /** Source, round and value are what the last two colons separate. */
  function ReadBeacon(b: Bytes): Option<(Bytes, int, Bytes)>
  {
    match SplitLast(58, b)
    case None => None
    case Some((x, value)) =>
      match SplitLast(58, x)
      case None => None
      case Some((source, round)) => Some((source, FromDec(round), FromHex(value)))
  }

  /** Reads a checkpoint line by line. */
  function ReadCheckpoint(b: Bytes): Option<TreeHead>
  {
    match ReadLines(CAPTIONS(), b)
    case None => None
    case Some((vs, rest)) =>
      if rest != [] then None
      else Some(TreeHead(vs[0], FromDec(vs[1]), FromHex(vs[2]), FromHex(vs[3]), FromDecSigned(vs[4]), FromDec(vs[5]),
                         ReadBeacon(vs[6]), vs[7]))
  }

  lemma BeaconReadBack(b: Option<Beacon>)
    ensures ReadBeacon(BeaconText(b)) == if b.None? then None else Some((b.value.source, b.value.round, b.value.value))
  {
    hide Hex, Dec, FromHex, FromDec, SplitLast;
    if b.None? {
      NoColon();
    } else {
      assert Text(":") == [58];
      var source, round, value := b.value.source, Dec(b.value.round), Hex(b.value.value);
      assert BeaconText(b) == (source + [58] + round) + [58] + value;
      SplitBack(58, source + [58] + round, value);
      SplitBack(58, source, round);
      DecReadBack(b.value.round);
      HexReadBack(b.value.value);
    }
  }

  lemma NoColon()
    ensures SplitLast(58, NONE()) == None
  {
    assert NONE() == ['n' as int, 'o' as int, 'n' as int, 'e' as int];
    var b := NONE();
    assert b[..3][..2] == b[..2] && b[..2][..1] == b[..1] && b[..1][..0] == [];
    assert SplitLast(58, b[..1]) == None;
    assert SplitLast(58, b[..2]) == None;
    assert SplitLast(58, b[..3]) == None;
  }

  /** Every field can be read from the signed text, when the free text in it fits on a line. */
  lemma CheckpointReadBack(c: Checkpoint)
    requires OneLine(c.origin) && PlainBeacon(c) && OneLine(c.groupDigest)
    ensures ReadCheckpoint(CheckpointText(c))
         == Some(TreeHead(c.origin, c.size, c.rootHash, c.headHash, c.timeNanos, c.epoch,
                          if c.beacon.None? then None
                          else Some((c.beacon.value.source, c.beacon.value.round, c.beacon.value.value)),
                          if c.groupDigest == [] then Text("none") else c.groupDigest))
  {
    hide Hex, Dec, DecSigned, FromHex, FromDec, FromDecSigned, Text, Render, ReadLines, ReadBeacon, BeaconText;
    var lines := FirstLines(c) + LastLines(c);
    AllLinesFit(c);
    RenderConcat(FirstLines(c), LastLines(c));
    LinesReadBack(CAPTIONS(), lines, []);
    assert CheckpointText(c) + [] == CheckpointText(c);
    BeaconReadBack(c.beacon);
    DecReadBack(c.size);
    HexReadBack(c.rootHash);
    HexReadBack(c.headHash);
    DecSignedReadBack(c.timeNanos);
    DecReadBack(c.epoch);
  }

  lemma AllLinesFit(c: Checkpoint)
    requires OneLine(c.origin) && PlainBeacon(c) && OneLine(c.groupDigest)
    ensures AllOneLine(FirstLines(c) + LastLines(c))
  {
    hide Hex, Dec, DecSigned, HEADER, BeaconText;
    NumberLinesFit(c);
    BeaconFits(c);
    assert FirstLines(c)[1..][0] == FirstLines(c)[1] && FirstLines(c)[1..][1] == FirstLines(c)[2];
    assert FirstLines(c)[1..][2] == FirstLines(c)[3] && FirstLines(c)[1..][3] == FirstLines(c)[4];
    assert FirstLines(c)[1..][4] == FirstLines(c)[5];
    assert OneLine(Text("none"));
  }

  /** `fwdsec.KeyID`. */
  function KeyId(sha: Hasher, key: Bytes): Bytes { Hex(sha(key)[..8]) }

  /** `checkpoint.Verify`: by the named group, or by the epoch key of the rotation chain. */
  ghost predicate OperatorSigned(sha: Hasher, c: Checkpoint, chain: Option<Chain>, rootKey: Bytes, group: Option<Group>)
  {
    if |c.memberSigs| > 0 then
      && group.Some?
      && c.groupDigest == Hex(sha(GroupCanonical.Canonical(group.value)))
      && Accepted(group.value, CheckpointText(c), c.memberSigs)
    else
      && chain.Some? && ChainVerifies(sha, chain.value.certs, rootKey, None)
      && SignedByEpoch(sha, c, chain.value.certs)
  }

  predicate SignedByEpoch(sha: Hasher, c: Checkpoint, certs: seq<Cert>)
  {
    var key := PublicKeyAt(certs, c.epoch);
    var quantumKey := QuantumPublicKeyAt(certs, c.epoch);
    && key.Some? && KeyId(sha, key.value) == c.keyId
    && EdVerify(key.value, CheckpointText(c), c.signature)
    && (if quantumKey.Some?
        then c.quantumSignature.Length() > 0 && QuantumVerify(quantumKey.value, CheckpointText(c), c.quantumSignature)
        else c.quantumSignature.Length() == 0)
  }

  /** `checkpoint.Verify`. */
  method Verify(sha: Hasher, c: Checkpoint, chain: Option<Chain>, rootKey: Bytes,
                group: Option<Group>) returns (ok: bool)
    ensures ok <==> OperatorSigned(sha, c, chain, rootKey, group)
  {
    hide CheckpointText, ValidGroup, Hex, ChainVerifies;
    if |c.memberSigs| > 0 {
      if group.None? {
        return false;
      }
      var valid := Validate(group);
      if !valid {
        return false;
      }
      var canon := GroupCanonical.WriteGroup(group.value);
      if c.groupDigest != Hex(sha(canon)) {
        return false;
      }
      ok := VerifyMulti(group, CheckpointText(c), c.memberSigs);
      return;
    }
    if chain.None? {
      return false;
    }
    ok := KeyChain.VerifyChain(sha, chain.value, rootKey, None);
    ok := ok && SignedByEpoch(sha, c, chain.value.certs);
  }

  // ---- What an accepted checkpoint means ----

  /** The keys of the checkpoint's epoch signed its text, in both halves if the epoch is hybrid. */
  ghost predicate MadeInEpoch(sha: Hasher, c: Checkpoint, certs: seq<Cert>)
  {
    && c.epoch < |certs|
    && var cert := certs[c.epoch];
       && c.keyId == Hex(sha(cert.publicKey)[..8])
       && c.signature == Signed(Ed25519, cert.publicKey, CheckpointText(c))
       && (if cert.quantumPublicKey == [] then c.quantumSignature.Length() == 0
           else c.quantumSignature == Signed(Dilithium3, cert.quantumPublicKey, CheckpointText(c)))
  }

  /** Enough members of the group the checkpoint names signed its text. */
  ghost predicate MadeByMembers(sha: Hasher, c: Checkpoint, group: Option<Group>)
  {
    && group.Some? && ValidGroup(group.value) && c.groupDigest == Hex(sha(GroupCanonical.Canonical(group.value)))
    && |Vouching(group.value, CheckpointText(c), c.memberSigs)| >= group.value.threshold
  }

  /** A checkpoint is accepted exactly when the members of its group signed it, or the keys its epoch has
      in a chain accepted from the root. */
  lemma OperatorSignedIff(sha: Hasher, c: Checkpoint, chain: Option<Chain>, rootKey: Bytes, group: Option<Group>)
    ensures OperatorSigned(sha, c, chain, rootKey, group) <==>
            if c.memberSigs != [] then MadeByMembers(sha, c, group)
            else chain.Some? && ChainVerifies(sha, chain.value.certs, rootKey, None)
                 && MadeInEpoch(sha, c, chain.value.certs)
  {
    hide CheckpointText, ChainVerifies, Vouching, ValidGroup, Accepted, SignedByEpoch, MadeInEpoch;
    if c.memberSigs != [] {
      if group.Some? {
        AcceptedIff(group.value, CheckpointText(c), c.memberSigs);
      }
    } else if chain.Some? && ChainVerifies(sha, chain.value.certs, rootKey, None) {
      SignedByEpochIff(sha, c, chain.value.certs, rootKey);
    }
  }

  lemma SignedByEpochIff(sha: Hasher, c: Checkpoint, certs: seq<Cert>, rootKey: Bytes)
    requires ChainVerifies(sha, certs, rootKey, None)
    ensures SignedByEpoch(sha, c, certs) <==> MadeInEpoch(sha, c, certs)
  {
    hide CheckpointText, ChainVerifies, PublicKeyAt, QuantumPublicKeyAt, Hex;
    AcceptedKeyAt(sha, certs, rootKey, None, c.epoch);
    if c.epoch < |certs| {
      AcceptedKeySizes(sha, certs, rootKey, c.epoch);
    }
  }

  /** One operator signature vouches for one origin, size, root, head, time and epoch, unless two origins
      are involved. */
  lemma OperatorSignatureBinds(sha: Hasher, c: Checkpoint, d: Checkpoint, chain: Option<Chain>, chain': Option<Chain>,
                               rootKey: Bytes, rootKey': Bytes)
    requires OperatorSigned(sha, c, chain, rootKey, None) && OperatorSigned(sha, d, chain', rootKey', None)
    requires c.signature == d.signature
    ensures SameFields(c, d) <==> c.origin == d.origin
    ensures c.origin == d.origin ==> c.keyId == d.keyId
    ensures c.origin == d.origin && c.beacon == d.beacon ==> TextOrNone(c.groupDigest) == TextOrNone(d.groupDigest)
  {
    hide CheckpointText, ChainVerifies, OperatorSigned, Hex;
    OperatorSignedIff(sha, c, chain, rootKey, None);
    OperatorSignedIff(sha, d, chain', rootKey', None);
    assert CheckpointText(c) + [] == CheckpointText(c) && CheckpointText(d) + [] == CheckpointText(d);
    TextDetermines(c, d, [], []);
    if c.origin == d.origin {
      OperatorTextDetermines(c, d);
    }
  }

  // ---- Witness signatures ----

  datatype Trust = Trust(classical: Bytes, quantum: Bytes)

  /** A witness signature that counts. */
  predicate Cosigned(w: WitnessSig, text: Bytes, trust: Bytes -> Option<Trust>)
  {
    var anchor := trust(w.witnessId);
    && anchor.Some?
    && |w.publicKey| == PUBLIC_KEY_SIZE && w.publicKey == anchor.value.classical
    && EdVerify(anchor.value.classical, text, w.signature)
    && (anchor.value.quantum != [] ==>
          && w.quantumPublicKey == anchor.value.quantum && w.quantumSignature.Length() > 0
          && QuantumVerify(w.quantumPublicKey, text, w.quantumSignature))
  }

  /** How many list elements count. */
  function CountValid(ws: seq<WitnessSig>, text: Bytes, trust: Bytes -> Option<Trust>): nat
  {
    if ws == [] then 0
    else CountValid(ws[..|ws| - 1], text, trust) + if Cosigned(ws[|ws| - 1], text, trust) then 1 else 0
  }

  /** The distinct witnesses among them. */
  ghost function ValidIds(ws: seq<WitnessSig>, text: Bytes, trust: Bytes -> Option<Trust>): set<Bytes>
  {
    set i | 0 <= i < |ws| && Cosigned(ws[i], text, trust) :: ws[i].witnessId
  }

  ghost predicate OneSigPerId(ws: seq<WitnessSig>, text: Bytes, trust: Bytes -> Option<Trust>)
  {
    forall i, j :: 0 <= i < j < |ws| && Cosigned(ws[i], text, trust) && Cosigned(ws[j], text, trust) ==>
                     ws[i].witnessId != ws[j].witnessId
  }

  /** A signature of the trusted witness itself: under its trusted key and, if a quantum key is trusted, under
      that one too. */
  predicate SignedByWitness(w: WitnessSig, text: Bytes, trust: Bytes -> Option<Trust>)
  {
    && trust(w.witnessId).Some?
    && var key, quantumKey := trust(w.witnessId).value.classical, trust(w.witnessId).value.quantum;
       && |key| == PUBLIC_KEY_SIZE && w.publicKey == key && w.signature == Signed(Ed25519, key, text)
       && (quantumKey != [] ==>
             && |quantumKey| == QUANTUM_PUBLIC_KEY_SIZE && w.quantumPublicKey == quantumKey
             && w.quantumSignature == Signed(Dilithium3, quantumKey, text))
  }

  /** The positions of such signatures. */
  ghost function SignedAt(ws: seq<WitnessSig>, text: Bytes, trust: Bytes -> Option<Trust>): set<nat>
  {
    set i | 0 <= i < |ws| && SignedByWitness(ws[i], text, trust)
  }

  /** The count is the number of list elements that are trusted witnesses' own signatures. */
  lemma {:induction false} CountsSigned(ws: seq<WitnessSig>, text: Bytes, trust: Bytes -> Option<Trust>)
    ensures CountValid(ws, text, trust) == |SignedAt(ws, text, trust)|
  {
    hide SignedByWitness, Cosigned;
    if ws != [] {
      var n := |ws| - 1;
      CountsSigned(ws[..n], text, trust);
      CosignedIff(ws[n], text, trust);
      assert forall i :: 0 <= i < n ==> ws[..n][i] == ws[i];
      assert SignedAt(ws, text, trust)
          == SignedAt(ws[..n], text, trust) + if SignedByWitness(ws[n], text, trust) then {n} else {};
    }
  }

  lemma CosignedIff(w: WitnessSig, text: Bytes, trust: Bytes -> Option<Trust>)
    ensures Cosigned(w, text, trust) <==> SignedByWitness(w, text, trust)
  {
  }

  /** `VerifyWitnessesHybrid`. */
  method VerifyWitnesses(c: Checkpoint, trust: Bytes -> Option<Trust>) returns (valid: nat)
    ensures valid == CountValid(c.witnesses, WitnessText(c), trust)
    ensures valid == |SignedAt(c.witnesses, WitnessText(c), trust)|
  {
    hide WitnessText, SignedAt;
    var text := WitnessText(c);
    CountsSigned(c.witnesses, text, trust);
    valid := 0;
    for i := 0 to |c.witnesses|
      invariant valid == CountValid(c.witnesses[..i], text, trust)
    {
      var w := c.witnesses[i];
      assert c.witnesses[..i + 1][..i] == c.witnesses[..i];
      var anchor := trust(w.witnessId);
      if anchor.None? {
        continue;
      }
      if |w.publicKey| != PUBLIC_KEY_SIZE || w.publicKey != anchor.value.classical {
        continue;
      }
      if !EdVerify(anchor.value.classical, text, w.signature) {
        continue;
      }
      if |anchor.value.quantum| > 0 {
        if |w.quantumPublicKey| == 0 || w.quantumSignature.Length() == 0 {
          continue;
        }
        if w.quantumPublicKey != anchor.value.quantum {
          continue;
        }
        if !QuantumVerify(w.quantumPublicKey, text, w.quantumSignature) {
          continue;
        }
      }
      valid := valid + 1;
    }
    assert c.witnesses[..|c.witnesses|] == c.witnesses;
  }

  lemma ValidIdsStep(ws: seq<WitnessSig>, text: Bytes, trust: Bytes -> Option<Trust>)
    requires ws != []
    ensures ValidIds(ws, text, trust)
         == ValidIds(ws[..|ws| - 1], text, trust)
            + if Cosigned(ws[|ws| - 1], text, trust) then {ws[|ws| - 1].witnessId} else {}
  {
    hide Cosigned;
    var rest := ws[..|ws| - 1];
    assert forall i :: 0 <= i < |rest| ==> rest[i] == ws[i];
  }

  lemma NoValidIds(text: Bytes, trust: Bytes -> Option<Trust>)
    ensures ValidIds([], text, trust) == {} && OneSigPerId([], text, trust)
  {
  }

  lemma OneSigPerIdStep(ws: seq<WitnessSig>, text: Bytes, trust: Bytes -> Option<Trust>)
    requires ws != []
    ensures OneSigPerId(ws, text, trust) <==>
              && OneSigPerId(ws[..|ws| - 1], text, trust)
              && (Cosigned(ws[|ws| - 1], text, trust) ==>
                    ws[|ws| - 1].witnessId !in ValidIds(ws[..|ws| - 1], text, trust))
  {
    hide Cosigned;
    var n := |ws| - 1;
    var rest := ws[..n];
    assert forall i :: 0 <= i < n ==> rest[i] == ws[i];
    if Cosigned(ws[n], text, trust) && ws[n].witnessId in ValidIds(rest, text, trust) {
      var i :| 0 <= i < n && Cosigned(rest[i], text, trust) && rest[i].witnessId == ws[n].witnessId;
      assert !OneSigPerId(ws, text, trust);
    }
  }

  /** The count is the number of distinct witnesses exactly when no witness ID counts twice: the loop
      counts list elements. */
  lemma {:induction false} CountsDistinctIff(ws: seq<WitnessSig>, text: Bytes, trust: Bytes -> Option<Trust>)
    ensures CountValid(ws, text, trust) >= |ValidIds(ws, text, trust)|
    ensures CountValid(ws, text, trust) == |ValidIds(ws, text, trust)| <==> OneSigPerId(ws, text, trust)
  {
    hide Cosigned, ValidIds, OneSigPerId;
    NoValidIds(text, trust);
    if ws != [] {
      var n := |ws| - 1;
      var last, rest := ws[n], ws[..n];
      CountsDistinctIff(rest, text, trust);
      ValidIdsStep(ws, text, trust);
      OneSigPerIdStep(ws, text, trust);
    }
  }

  /** One witness listed twice is counted twice. */
  lemma RepeatedWitnessCountsTwice(w: WitnessSig, text: Bytes, trust: Bytes -> Option<Trust>)
    requires Cosigned(w, text, trust)
    ensures CountValid([w, w], text, trust) == 2 && ValidIds([w, w], text, trust) == {w.witnessId}
  {
    hide Cosigned;
    var ws := [w, w];
    assert ws[..1] == [w] && ws[..1][..0] == [];
    assert CountValid([w], text, trust) == CountValid([], text, trust) + 1;
    assert ws[0] == w;
  }
}
