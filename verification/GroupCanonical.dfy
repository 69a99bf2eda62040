/** `Group.Canonical`: equal bytes mean the same group up to member order, and nothing less. */
module GroupCanonical {
  import opened Encoding
  import opened Fields
  import opened Options
  import opened Threshold

  /** What the encoding keeps of a member; endpoint and description are left out. */
  datatype Row = Row(id: Bytes, publicKey: Bytes, quantumPublicKey: Bytes)

  function RowOf(m: Member): Row { Row(m.id, m.publicKey, m.quantumPublicKey) }

  function Rows(ms: seq<Member>): seq<Row>
  {
    seq(|ms|, i requires 0 <= i < |ms| => RowOf(ms[i]))
  }

  // ---- Sorting by ID ----

  function InsertById(r: Row, rows: seq<Row>): seq<Row>
  {
    if rows == [] then [r]
    else if LexLess(r.id, rows[0].id) then [r] + rows
    else [rows[0]] + InsertById(r, rows[1..])
  }

  /** The members in ID order. The comparison looks at IDs only, so sorting the encoded parts is
      sorting the members. */
  function SortById(rows: seq<Row>): seq<Row>
  {
    if rows == [] then [] else InsertById(rows[0], SortById(rows[1..]))
  }

  /** Strictly increasing IDs. */
  predicate Ordered(rows: seq<Row>)
  {
    |rows| < 2 || (LexLess(rows[0].id, rows[1].id) && Ordered(rows[1..]))
  }

  predicate DistinctIds(rows: seq<Row>)
  {
    rows == [] || ((forall r :: r in rows[1..] ==> r.id != rows[0].id) && DistinctIds(rows[1..]))
  }

  lemma {:induction false} LexTotal(a: Bytes, b: Bytes)
    ensures LexLess(a, b) || a == b || LexLess(b, a)
    ensures !(LexLess(a, b) && LexLess(b, a)) && (a == b ==> !LexLess(a, b))
  {
    if a != [] && b != [] && a[0] == b[0] {
      LexTotal(a[1..], b[1..]);
      assert a == [a[0]] + a[1..] && b == [b[0]] + b[1..];
    }
  }

  lemma {:induction false} LexTransitive(a: Bytes, b: Bytes, c: Bytes)
    requires LexLess(a, b) && LexLess(b, c)
    ensures LexLess(a, c)
  {
    if a != [] && a[0] == b[0] == c[0] {
      LexTransitive(a[1..], b[1..], c[1..]);
    }
  }

  lemma {:induction false} InsertKeepsRows(r: Row, rows: seq<Row>)
    ensures multiset(InsertById(r, rows)) == multiset(rows) + multiset{r}
  {
    hide LexLess;
    if rows != [] {
      InsertKeepsRows(r, rows[1..]);
      assert rows == [rows[0]] + rows[1..];
    }
  }

  lemma {:induction false} SortKeepsRows(rows: seq<Row>)
    ensures multiset(SortById(rows)) == multiset(rows)
  {
    hide InsertById;
    if rows != [] {
      SortKeepsRows(rows[1..]);
      InsertKeepsRows(rows[0], SortById(rows[1..]));
      assert rows == [rows[0]] + rows[1..];
    }
  }

  lemma {:induction false} InsertOrdered(r: Row, rows: seq<Row>)
    requires Ordered(rows) && forall x :: x in rows ==> x.id != r.id
    ensures Ordered(InsertById(r, rows))
  {
    hide LexLess;
    if rows != [] {
      LexTotal(r.id, rows[0].id);
      if LexLess(r.id, rows[0].id) {
        assert ([r] + rows)[1..] == rows;
      } else {
        var rest := InsertById(r, rows[1..]);
        InsertOrdered(r, rows[1..]);
        assert rest[0] == r || rest[0] == rows[1];
        assert ([rows[0]] + rest)[1..] == rest;
      }
    }
  }

  lemma {:induction false} SortOrdered(rows: seq<Row>)
    requires DistinctIds(rows)
    ensures Ordered(SortById(rows))
  {
    hide InsertById, LexLess;
    if rows != [] {
      var rest := SortById(rows[1..]);
      SortOrdered(rows[1..]);
      SortKeepsRows(rows[1..]);
      assert forall x :: x in rest ==> x in multiset(rest);
      InsertOrdered(rows[0], rest);
    }
  }

  lemma {:induction false} HeadIsLeast(rows: seq<Row>, k: nat)
    requires Ordered(rows) && 0 < k < |rows|
    ensures LexLess(rows[0].id, rows[k].id)
  {
    hide LexLess;
    if k > 1 {
      HeadIsLeast(rows[1..], k - 1);
      LexTransitive(rows[0].id, rows[1].id, rows[k].id);
    }
  }

  lemma SameHead(a: seq<Row>, b: seq<Row>)
    requires Ordered(a) && Ordered(b) && multiset(a) == multiset(b) && a != [] && b != []
    ensures a[0] == b[0]
  {
    hide LexLess, Ordered;
    assert a[0] in multiset(b) && b[0] in multiset(a);
    var k :| 0 <= k < |b| && b[k] == a[0];
    var j :| 0 <= j < |a| && a[j] == b[0];
    LexTotal(a[0].id, b[0].id);
    if j > 0 { HeadIsLeast(a, j); }
    if k > 0 { HeadIsLeast(b, k); }
  }

  lemma SameTails(a: seq<Row>, b: seq<Row>)
    requires multiset(a) == multiset(b) && a != [] && b != [] && a[0] == b[0]
    ensures multiset(a[1..]) == multiset(b[1..])
  {
    assert a == [a[0]] + a[1..] && b == [b[0]] + b[1..];
    assert multiset(a[1..]) == multiset(a) - multiset{a[0]} == multiset(b) - multiset{b[0]} == multiset(b[1..]);
  }

  /** Ordered lists with the same rows are the same list. */
  lemma {:induction false} OrderedUnique(a: seq<Row>, b: seq<Row>)
    requires Ordered(a) && Ordered(b) && multiset(a) == multiset(b)
    ensures a == b
  {
    hide LexLess;
    assert |a| == |multiset(a)| == |multiset(b)| == |b|;
    if a != [] {
      SameHead(a, b);
      SameTails(a, b);
      OrderedUnique(a[1..], b[1..]);
      assert a == [a[0]] + a[1..] && b == [b[0]] + b[1..];
    }
  }

  // ---- The encoding ----

  function HeaderFields(g: Group): seq<Field>
  {
    [ Word32(g.version), Blob(g.origin), Word32(g.threshold), Word64(TwosComplement(g.createdAt)),
      Word32(|g.members|) ]
  }

  function RowFields(r: Row): seq<Field> { [Blob(r.id), Blob(r.publicKey), Blob(r.quantumPublicKey)] }

  function EncodeRows(rows: seq<Row>): Bytes
  {
    if rows == [] then [] else Encode(RowFields(rows[0])) + EncodeRows(rows[1..])
  }

  function Canonical(g: Group): Bytes { Encode(HeaderFields(g)) + EncodeRows(SortById(Rows(g.members))) }

  lemma {:induction false} EncodeRowsNext(rows: seq<Row>, k: nat)
    requires k < |rows|
    ensures EncodeRows(rows[..k + 1]) == EncodeRows(rows[..k]) + Encode(RowFields(rows[k]))
  {
    hide Encode;
    var a, b := rows[..k], rows[..k + 1];
    assert b[0] == rows[0];
    if k == 0 {
      assert b[1..] == [] && a == [];
    } else {
      EncodeRowsNext(rows[1..], k - 1);
      assert a[1..] == rows[1..][..k - 1] && b[1..] == rows[1..][..k] && a[0] == rows[0];
      var h, x, y := Encode(RowFields(rows[0])), EncodeRows(a[1..]), Encode(RowFields(rows[k]));
      assert h + (x + y) == h + x + y;
    }
  }

  lemma EncodeRowParts(r: Row)
    ensures Encode(RowFields(r)) == Put(r.id) + Put(r.publicKey) + Put(r.quantumPublicKey)
  {
    hide Put;
    var fs := RowFields(r);
    assert Encode(fs) == Put(r.id) + (Put(r.publicKey) + Encode(fs[1..][1..]));
    assert Encode(fs[1..][1..]) == Put(r.quantumPublicKey) + Encode([]);
  }

  lemma EncodeHeaderParts(g: Group)
    ensures Encode(HeaderFields(g)) == U32Bytes(g.version) + Put(g.origin) + U32Bytes(g.threshold)
                                    + I64Bytes(g.createdAt) + U32Bytes(|g.members|)
  {
    hide Put, U32Bytes, U64Bytes;
    var fs := HeaderFields(g);
    var tail := fs[1..][1..];
    assert Encode(fs) == U32Bytes(g.version) + (Put(g.origin) + Encode(tail));
    assert Encode(tail) == U32Bytes(g.threshold) + (I64Bytes(g.createdAt) + Encode(tail[1..][1..]));
    assert Encode(tail[1..][1..]) == U32Bytes(|g.members|) + Encode([]);
  }

  /** `Group.Canonical` as written: sort a copy, then grow the buffer member by member. */
  method WriteGroup(g: Group) returns (buf: Bytes)
    ensures buf == Canonical(g)
  {
    hide Encode, Put, U32Bytes, U64Bytes, SortById;
    var rows := SortById(Rows(g.members));
    buf := U32Bytes(g.version) + Put(g.origin) + U32Bytes(g.threshold) + I64Bytes(g.createdAt) + U32Bytes(|g.members|);
    EncodeHeaderParts(g);
    ghost var header := buf;
    for k := 0 to |rows|
      invariant buf == header + EncodeRows(rows[..k])
    {
      EncodeRowParts(rows[k]);
      EncodeRowsNext(rows, k);
      buf := buf + Put(rows[k].id);
      buf := buf + Put(rows[k].publicKey);
      buf := buf + Put(rows[k].quantumPublicKey);
      ghost var done, row := EncodeRows(rows[..k]), rows[k];
      ghost var a, b, c := Put(row.id), Put(row.publicKey), Put(row.quantumPublicKey);
      assert header + done + a + b + c == header + (done + (a + b + c));
    }
    assert rows[..|rows|] == rows;
  }

  // ---- Equality ----

  ghost predicate RowsFit(rows: seq<Row>)
  {
    forall r :: r in rows ==> AllFit(RowFields(r))
  }

  ghost predicate Fitting(g: Group)
  {
    AllFit(HeaderFields(g)) && RowsFit(Rows(g.members))
  }

  lemma {:induction false} RowsInjective(a: seq<Row>, b: seq<Row>)
    requires RowsFit(a) && RowsFit(b) && |a| == |b|
    requires EncodeRows(a) == EncodeRows(b)
    ensures a == b
  {
    hide Encode;
    if a != [] {
      SelfDelimiting(RowFields(a[0]), RowFields(b[0]), EncodeRows(a[1..]), EncodeRows(b[1..]));
      var f, g := RowFields(a[0]), RowFields(b[0]);
      assert f[0] == g[0] && f[1] == g[1] && f[2] == g[2];
      RowsInjective(a[1..], b[1..]);
      assert a == [a[0]] + a[1..] && b == [b[0]] + b[1..];
    }
  }

  // ---- Reading back ----

  function HEADER_SHAPE(): seq<Field> { [Word32(0), Blob([]), Word32(0), Word64(0), Word32(0)] }

  function ROW_SHAPE(): seq<Field> { [Blob([]), Blob([]), Blob([])] }

  /** What the bytes of a group say. */
  datatype GroupText = GroupText(version: nat, origin: Bytes, threshold: nat, createdAt: I64, rows: seq<Row>)

  /** Reads `n` members: ID, key and quantum key, in this order. */
  function ReadRows(n: nat, b: Bytes): Option<seq<Row>>
  {
    if n == 0 then (if b == [] then Some([]) else None)
    else
      match ReadFields(ROW_SHAPE(), b)
      case None => None
      case Some((fs, rest)) =>
        var shape := ROW_SHAPE();
        assert Alike(shape[0], fs[0]) && Alike(shape[1], fs[1]) && Alike(shape[2], fs[2]);
        match ReadRows(n - 1, rest)
        case None => None
        case Some(rows) => Some([Row(fs[0].bytes, fs[1].bytes, fs[2].bytes)] + rows)
  }

  /** Reads version, origin, threshold and time, in this order, and the members. */
  function ReadGroup(b: Bytes): Option<GroupText>
  {
    match ReadFields(HEADER_SHAPE(), b)
    case None => None
    case Some((fs, rest)) =>
      var shape := HEADER_SHAPE();
      assert Alike(shape[0], fs[0]) && Alike(shape[1], fs[1]) && Alike(shape[2], fs[2]) && Alike(shape[3], fs[3]);
      assert Alike(shape[4], fs[4]);
      match ReadRows(fs[4].n, rest)
      case None => None
      case Some(rows) => Some(GroupText(fs[0].n, fs[1].bytes, fs[2].n, FromTwosComplement(fs[3].u), rows))
  }

  lemma {:induction false} RowsReadBack(rows: seq<Row>)
    requires RowsFit(rows)
    ensures ReadRows(|rows|, EncodeRows(rows)) == Some(rows)
  {
    hide Encode, ReadFields, AllFit;
    if rows != [] {
      ReadBack(ROW_SHAPE(), RowFields(rows[0]), EncodeRows(rows[1..]));
      RowsReadBack(rows[1..]);
      assert rows == [rows[0]] + rows[1..];
    }
  }

  /** Everything digested can be read from the bytes, and the members come in the order of their IDs. */
  lemma GroupReadBack(g: Group)
    requires ValidGroup(g) && Fitting(g)
    ensures var read := ReadGroup(Canonical(g));
            && read.Some? && read.value.version == g.version && read.value.origin == g.origin
            && read.value.threshold == g.threshold && read.value.createdAt == g.createdAt
            && multiset(read.value.rows) == multiset(Rows(g.members)) && Ordered(read.value.rows)
  {
    hide Encode, ReadFields, EncodeRows, ReadRows, SortById, RowsFit, Ordered, DistinctIds;
    var rows := SortById(Rows(g.members));
    SortedLength(Rows(g.members));
    SortKeepsRows(Rows(g.members));
    DistinctRows(g.members);
    SortOrdered(Rows(g.members));
    ReadBack(HEADER_SHAPE(), HeaderFields(g), EncodeRows(rows));
    RowsReadBack(rows);
    TwosComplementReadBack(g.createdAt);
  }

  /** The two groups agree on everything the digest covers, up to member order. */
  ghost predicate SameGroup(g: Group, h: Group)
  {
    && g.version == h.version && g.origin == h.origin && g.threshold == h.threshold && g.createdAt == h.createdAt
    && multiset(Rows(g.members)) == multiset(Rows(h.members))
  }

  lemma {:induction false} DistinctRows(ms: seq<Member>)
    requires forall i, j :: 0 <= i < j < |ms| ==> ms[i].id != ms[j].id
    ensures DistinctIds(Rows(ms))
  {
    if ms != [] {
      var rest := ms[1..];
      assert Rows(ms)[1..] == Rows(rest);
      assert forall i :: 0 <= i < |rest| ==> rest[i] == ms[i + 1];
      DistinctRows(rest);
    }
  }

  lemma SortedLength(rows: seq<Row>)
    ensures |SortById(rows)| == |rows|
    ensures RowsFit(rows) ==> RowsFit(SortById(rows))
  {
    hide SortById, AllFit;
    SortKeepsRows(rows);
    var s := SortById(rows);
    assert |s| == |multiset(s)| == |multiset(rows)| == |rows|;
    assert forall r :: r in s ==> r in multiset(s);
  }

  lemma HeadersMatch(g: Group, h: Group, x: Bytes, y: Bytes)
    requires AllFit(HeaderFields(g)) && AllFit(HeaderFields(h))
    requires Encode(HeaderFields(g)) + x == Encode(HeaderFields(h)) + y
    ensures g.version == h.version && g.origin == h.origin && g.threshold == h.threshold
    ensures g.createdAt == h.createdAt && |g.members| == |h.members| && x == y
  {
    hide Encode;
    var a, b := HeaderFields(g), HeaderFields(h);
    SelfDelimiting(a, b, x, y);
    assert a[0] == b[0] && a[1] == b[1] && a[2] == b[2] && a[3] == b[3] && a[4] == b[4];
  }

  /** Valid groups have equal canonical bytes exactly when they match up to member order. */
  lemma CanonicalEqualIff(g: Group, h: Group)
    requires ValidGroup(g) && ValidGroup(h) && Fitting(g) && Fitting(h)
    ensures Canonical(g) == Canonical(h) <==> SameGroup(g, h)
  {
    hide Encode, EncodeRows, SortById, RowsFit, HeaderFields, Ordered, DistinctIds;
    var a, b := Rows(g.members), Rows(h.members);
    var s, t := SortById(a), SortById(b);
    SortKeepsRows(a);
    SortKeepsRows(b);
    SortedLength(a);
    SortedLength(b);
    if Canonical(g) == Canonical(h) {
      HeadersMatch(g, h, EncodeRows(s), EncodeRows(t));
      RowsInjective(s, t);
    }
    if SameGroup(g, h) {
      DistinctRows(g.members);
      DistinctRows(h.members);
      SortOrdered(a);
      SortOrdered(b);
      OrderedUnique(s, t);
      assert |a| == |multiset(a)| == |multiset(b)| == |b|;
      SameHeader(g, h);
    }
  }

  lemma SameHeader(g: Group, h: Group)
    requires g.version == h.version && g.origin == h.origin && g.threshold == h.threshold
    requires g.createdAt == h.createdAt && |g.members| == |h.members|
    ensures HeaderFields(g) == HeaderFields(h)
  {
  }
}
