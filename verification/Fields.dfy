/** The shape every binary stele encoding shares: a run of fields, each a fixed mark, a fixed-width
    integer or a length-prefixed blob. One theorem covers them all: runs of the same shape are
    self-delimiting. */
module Fields {
  import opened Encoding
  import opened Options

  datatype Field =
    | Mark(text: Bytes)
    | Flag(bit: bool)
    | Word32(n: nat)
    | Word64(u: U64)
    | Blob(bytes: Bytes)

  function EncodeField(f: Field): Bytes
  {
    match f
    case Mark(text) => text
    case Flag(bit) => [if bit then 1 else 0]
    case Word32(n) => U32Bytes(n)
    case Word64(u) => U64Bytes(u)
    case Blob(bytes) => Put(bytes)
  }

  function Encode(fields: seq<Field>): Bytes
  {
    if fields == [] then [] else EncodeField(fields[0]) + Encode(fields[1..])
  }

  /** Same kind of field, and the same text where the kind is a fixed mark. */
  predicate Alike(f: Field, g: Field)
  {
    match f
    case Mark(text) => g == f
    case Flag(_) => g.Flag?
    case Word32(_) => g.Word32?
    case Word64(_) => g.Word64?
    case Blob(_) => g.Blob?
  }

  ghost predicate SameShape(a: seq<Field>, b: seq<Field>)
  {
    |a| == |b| && forall i :: 0 <= i < |a| ==> Alike(a[i], b[i])
  }

  /** No 32-bit count in the field is truncated. */
  predicate Fits(f: Field)
  {
    (f.Word32? ==> f.n < TWO_TO_32) && (f.Blob? ==> |f.bytes| < TWO_TO_32)
  }

  ghost predicate AllFit(a: seq<Field>) { forall i :: 0 <= i < |a| ==> Fits(a[i]) }

  lemma PeelField(f: Field, g: Field, x: Bytes, y: Bytes)
    requires Alike(f, g) && Fits(f) && Fits(g)
    requires EncodeField(f) + x == EncodeField(g) + y
    ensures f == g && x == y
  {
    hide Put, U32Bytes, U64Bytes;
    match f
    case Mark(text) => CancelPrefix(text, x, y);
    case Flag(bit) =>
      CancelFixed(EncodeField(f), EncodeField(g), x, y);
      assert EncodeField(f)[0] == EncodeField(g)[0];
    case Word32(n) => PeelU32(n, g.n, x, y);
    case Word64(u) => PeelU64(u, g.u, x, y);
    case Blob(bytes) => PeelPut(bytes, g.bytes, x, y);
  }

  /** Two runs of one shape that start the same byte string are the same run, and the same bytes
      follow. */
  lemma {:induction false} SelfDelimiting(a: seq<Field>, b: seq<Field>, x: Bytes, y: Bytes)
    requires SameShape(a, b) && AllFit(a) && AllFit(b)
    requires Encode(a) + x == Encode(b) + y
    ensures a == b && x == y
  {
    hide EncodeField, Fits, Alike;
    if a == [] {
      assert Encode(a) + x == x && Encode(b) + y == y;
    } else {
      var u, v := Encode(a[1..]) + x, Encode(b[1..]) + y;
      assert Encode(a) + x == EncodeField(a[0]) + u;
      assert Encode(b) + y == EncodeField(b[0]) + v;
      PeelField(a[0], b[0], u, v);
      SelfDelimiting(a[1..], b[1..], x, y);
      assert a == [a[0]] + a[1..] && b == [b[0]] + b[1..];
    }
  }

  // ---- Reading back ----

  /** Reads one field of the kind of `like` off the front. */
  function ReadField(like: Field, b: Bytes): (r: Option<(Field, Bytes)>)
    ensures r.Some? ==> Alike(like, r.value.0)
  {
    match like
    case Mark(text) => if text <= b then Some((like, b[|text|..])) else None
    case Flag(_) => if |b| < 1 || b[0] > 1 then None else Some((Flag(b[0] == 1), b[1..]))
    case Word32(_) => if |b| < 4 then None else Some((Word32(FromBigEndian(b[..4])), b[4..]))
    case Word64(_) =>
      if |b| < 8 then None
      else
        WordSizes();
        Some((Word64(FromBigEndian(b[..8])), b[8..]))
    case Blob(_) =>
      if |b| < 4 then None
      else
        var n := FromBigEndian(b[..4]);
        if |b| < 4 + n then None else Some((Blob(b[4..4 + n]), b[4 + n..]))
  }

  /** Reads a run of fields of the given shape. */
  function ReadFields(shape: seq<Field>, b: Bytes): (r: Option<(seq<Field>, Bytes)>)
    ensures r.Some? ==> SameShape(shape, r.value.0)
  {
    if shape == [] then Some(([], b))
    else
      match ReadField(shape[0], b)
      case None => None
      case Some((f, rest)) =>
        match ReadFields(shape[1..], rest)
        case None => None
        case Some((fs, rest')) => Some(([f] + fs, rest'))
  }

  lemma FieldReadBack(like: Field, f: Field, rest: Bytes)
    requires Alike(like, f) && Fits(f)
    ensures ReadField(like, EncodeField(f) + rest) == Some((f, rest))
  {
    hide FromBigEndian, BigEndian;
    var b := EncodeField(f) + rest;
    WordSizes();
    match f
    case Mark(text) =>
    case Flag(bit) =>
    case Word32(n) =>
      BigEndianReadBack(4, n);
      assert b[..4] == BigEndian(4, n);
    case Word64(u) =>
      BigEndianReadBack(8, u);
      assert b[..8] == BigEndian(8, u);
    case Blob(bytes) =>
      BigEndianReadBack(4, |bytes|);
      assert b == BigEndian(4, |bytes|) + bytes + rest;
      assert b[..4] == BigEndian(4, |bytes|);
  }

  /** What was encoded is read back, field by field, whatever follows. */
  lemma {:induction false} ReadBack(shape: seq<Field>, fields: seq<Field>, rest: Bytes)
    requires SameShape(shape, fields) && AllFit(fields)
    ensures ReadFields(shape, Encode(fields) + rest) == Some((fields, rest))
  {
    hide ReadField, EncodeField, Fits, Alike;
    if fields == [] {
      assert Encode(fields) + rest == rest;
    } else {
      var tail := Encode(fields[1..]) + rest;
      assert Encode(fields) + rest == EncodeField(fields[0]) + tail;
      FieldReadBack(shape[0], fields[0], tail);
      ReadBack(shape[1..], fields[1..], rest);
      assert fields == [fields[0]] + fields[1..];
    }
  }

  lemma Injective(a: seq<Field>, b: seq<Field>)
    requires SameShape(a, b) && AllFit(a) && AllFit(b)
    requires Encode(a) == Encode(b)
    ensures a == b
  {
    assert Encode(a) + [] == Encode(a) && Encode(b) + [] == Encode(b);
    SelfDelimiting(a, b, [], []);
  }

  lemma {:induction false} EncodeConcat(a: seq<Field>, b: seq<Field>)
    ensures Encode(a + b) == Encode(a) + Encode(b)
  {
    hide EncodeField;
    if a == [] {
      assert a + b == b;
    } else {
      var head, tail, rest := EncodeField(a[0]), Encode(a[1..]), Encode(b);
      EncodeConcat(a[1..], b);
      var all := a + b;
      assert all[1..] == a[1..] + b && all[0] == a[0];
      assert head + (tail + rest) == head + tail + rest;
    }
  }

  lemma NothingEncoded()
    ensures Encode([]) == []
  {
  }

  /** Appending one more field to a buffer that holds the first `k`. */
  lemma EncodeNext(fields: seq<Field>, k: nat)
    requires k < |fields|
    ensures Encode(fields[..k + 1]) == Encode(fields[..k]) + EncodeField(fields[k])
  {
    assert fields[..k + 1] == fields[..k] + [fields[k]];
    EncodeConcat(fields[..k], [fields[k]]);
    assert Encode([fields[k]]) == EncodeField(fields[k]) + Encode([]) == EncodeField(fields[k]);
  }
}
