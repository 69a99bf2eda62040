/** Byte strings and the encoders every signed or hashed stele message is built from:
    fixed-width big-endian integers, u32 length-prefixed fields, and the decimal, hexadecimal
    and newline-terminated text of the checkpoint formats. */
module Encoding {

  type Byte = b: nat | b < 256
  type Bytes = seq<Byte>

  /** A SHA-256 value. */
  type Digest = d: Bytes | |d| == 32 witness seq(32, _ => 0)

  const TWO_TO_32: nat := 0x1_0000_0000
  const TWO_TO_63: nat := 0x8000_0000_0000_0000
  const TWO_TO_64: nat := 0x1_0000_0000_0000_0000

  type U64 = n: nat | n < TWO_TO_64
  type I64 = i: int | -0x8000_0000_0000_0000 <= i < 0x8000_0000_0000_0000

  const NEWLINE: Byte := 10

  /** The bytes of an ASCII literal. */
  function Text(s: string): (b: Bytes)
    ensures |b| == |s|
  {
    seq(|s|, i requires 0 <= i < |s| => if s[i] as int < 256 then s[i] as int else 0)
  }

  // ---- Cancelling equal parts of two concatenations ----

  lemma CancelPrefix(p: Bytes, x: Bytes, y: Bytes)
    requires p + x == p + y
    ensures x == y
  {
    assert x == (p + x)[|p|..] == (p + y)[|p|..] == y;
  }

  lemma CancelFixed(a: Bytes, b: Bytes, x: Bytes, y: Bytes)
    requires |a| == |b|
    requires a + x == b + y
    ensures a == b && x == y
  {
    assert a == (a + x)[..|a|] == (b + y)[..|b|] == b;
    CancelPrefix(a, x, y);
  }

  lemma CancelSuffix(a: Bytes, b: Bytes, x: Bytes, y: Bytes)
    requires |x| == |y|
    requires a + x == b + y
    ensures a == b && x == y
  {
    assert |a| == |b|;
    CancelFixed(a, b, x, y);
  }

  // ---- Fixed-width big-endian integers ----

  function Pow256(width: nat): (p: nat)
    ensures p > 0
  {
    if width == 0 then 1 else 256 * Pow256(width - 1)
  }

  /** `binary.BigEndian.PutUint*`: the low `width` bytes of `v`, most significant first. */
  function BigEndian(width: nat, v: nat): (b: Bytes)
    ensures |b| == width
  {
    if width == 0 then [] else BigEndian(width - 1, v / 256) + [v % 256]
  }

  lemma {:induction false} BigEndianInjective(width: nat, v: nat, w: nat)
    requires v < Pow256(width) && w < Pow256(width)
    requires BigEndian(width, v) == BigEndian(width, w)
    ensures v == w
  {
    if width > 0 {
      CancelSuffix(BigEndian(width - 1, v / 256), BigEndian(width - 1, w / 256), [v % 256], [w % 256]);
      assert [v % 256][0] == [w % 256][0];
      BigEndianInjective(width - 1, v / 256, w / 256);
    }
  }

  /** The number a big-endian byte string stands for. */
  function FromBigEndian(b: Bytes): (v: nat)
    ensures v < Pow256(|b|)
  {
    if b == [] then 0 else 256 * FromBigEndian(b[..|b| - 1]) + b[|b| - 1]
  }

  lemma {:induction false} BigEndianReadBack(width: nat, v: nat)
    requires v < Pow256(width)
    ensures FromBigEndian(BigEndian(width, v)) == v
  {
    if width > 0 {
      BigEndianReadBack(width - 1, v / 256);
      assert BigEndian(width, v)[..width - 1] == BigEndian(width - 1, v / 256);
    }
  }

  /** Byte-string order, as used by an ordered key-value store. */
  predicate LexLess(a: Bytes, b: Bytes)
  {
    if b == [] then false
    else if a == [] then true
    else if a[0] != b[0] then a[0] < b[0]
    else LexLess(a[1..], b[1..])
  }

  lemma {:induction false} LexLessAsymmetric(a: Bytes, b: Bytes)
    ensures !(LexLess(a, b) && LexLess(b, a))
  {
    if a != [] && b != [] && a[0] == b[0] {
      LexLessAsymmetric(a[1..], b[1..]);
    }
  }

  lemma {:induction false} LexLessCommonPrefix(p: Bytes, a: Bytes, b: Bytes)
    ensures LexLess(p + a, p + b) == LexLess(a, b)
  {
    if p == [] {
      assert p + a == a && p + b == b;
    } else {
      assert (p + a)[1..] == p[1..] + a && (p + b)[1..] == p[1..] + b;
      LexLessCommonPrefix(p[1..], a, b);
    }
  }

  lemma {:induction false} LexLessByPrefix(p: Bytes, q: Bytes, a: Bytes, b: Bytes)
    requires |p| == |q| && LexLess(p, q)
    ensures LexLess(p + a, q + b)
  {
    assert (p + a)[0] == p[0] && (q + b)[0] == q[0];
    if p[0] == q[0] {
      assert (p + a)[1..] == p[1..] + a && (q + b)[1..] == q[1..] + b;
      LexLessByPrefix(p[1..], q[1..], a, b);
    }
  }

  /** Big-endian keys sort in numeric order, so a scan over them visits indices in order. */
  lemma {:induction false} BigEndianMonotone(width: nat, v: nat, w: nat)
    requires v < w < Pow256(width)
    ensures LexLess(BigEndian(width, v), BigEndian(width, w))
  {
    var p, q := BigEndian(width - 1, v / 256), BigEndian(width - 1, w / 256);
    if v / 256 == w / 256 {
      assert v % 256 < w % 256;
      LexLessCommonPrefix(p, [v % 256], [w % 256]);
    } else {
      BigEndianMonotone(width - 1, v / 256, w / 256);
      LexLessByPrefix(p, q, [v % 256], [w % 256]);
    }
  }

  lemma WordSizes()
    ensures Pow256(4) == TWO_TO_32 && Pow256(8) == TWO_TO_64
  {
    assert Pow256(1) == 256;
    assert Pow256(2) == 256 * 256;
    assert Pow256(3) == 256 * 256 * 256;
    assert Pow256(4) == 256 * 256 * 256 * 256;
    assert Pow256(5) == 256 * Pow256(4);
    assert Pow256(6) == 256 * Pow256(5);
    assert Pow256(7) == 256 * Pow256(6);
  }

  /** `PutUint32(uint32(n))`: a count that does not fit is truncated. */
  function U32Bytes(n: nat): Bytes { BigEndian(4, n) }

  function U64Bytes(n: U64): Bytes { BigEndian(8, n) }

  /** `uint64(t)` of a signed 64-bit value. */
  function TwosComplement(t: I64): U64 { if t < 0 then t + TWO_TO_64 else t }

  /** `int64(u)`. */
  function FromTwosComplement(u: U64): I64 { if u < TWO_TO_63 then u else u - TWO_TO_64 }

  lemma TwosComplementReadBack(t: I64)
    ensures FromTwosComplement(TwosComplement(t)) == t
  {
  }

  function I64Bytes(t: I64): Bytes { U64Bytes(TwosComplement(t)) }

  /** A u32 length followed by the field, as every `put` closure of the encoders writes it. */
  function Put(field: Bytes): Bytes { U32Bytes(|field|) + field }

  lemma PeelU32(a: nat, b: nat, x: Bytes, y: Bytes)
    requires a < TWO_TO_32 && b < TWO_TO_32
    requires U32Bytes(a) + x == U32Bytes(b) + y
    ensures a == b && x == y
  {
    CancelFixed(U32Bytes(a), U32Bytes(b), x, y);
    WordSizes();
    BigEndianInjective(4, a, b);
  }

  lemma PeelU64(a: U64, b: U64, x: Bytes, y: Bytes)
    requires U64Bytes(a) + x == U64Bytes(b) + y
    ensures a == b && x == y
  {
    CancelFixed(U64Bytes(a), U64Bytes(b), x, y);
    WordSizes();
    BigEndianInjective(8, a, b);
  }

  lemma PeelPut(a: Bytes, b: Bytes, x: Bytes, y: Bytes)
    requires |a| < TWO_TO_32 && |b| < TWO_TO_32
    requires Put(a) + x == Put(b) + y
    ensures a == b && x == y
  {
    assert Put(a) + x == U32Bytes(|a|) + (a + x);
    assert Put(b) + y == U32Bytes(|b|) + (b + y);
    PeelU32(|a|, |b|, a + x, b + y);
    CancelFixed(a, b, x, y);
  }

  // ---- Text fields ----

  ghost predicate OneLine(b: Bytes) { NEWLINE !in b }

  /** `%d` of a non-negative number. */
  function Dec(n: nat): (d: Bytes)
    ensures |d| > 0
    ensures forall c :: c in d ==> 48 <= c <= 57
  {
    if n < 10 then [48 + n] else Dec(n / 10) + [48 + n % 10]
  }

  lemma {:induction false} DecInjective(n: nat, m: nat)
    requires Dec(n) == Dec(m)
    ensures n == m
  {
    assert Dec(n)[|Dec(n)| - 1] == 48 + n % 10;
    assert Dec(m)[|Dec(m)| - 1] == 48 + m % 10;
    assert n < 10 <==> |Dec(n)| == 1;
    assert m < 10 <==> |Dec(m)| == 1;
    if n >= 10 {
      CancelSuffix(Dec(n / 10), Dec(m / 10), [48 + n % 10], [48 + m % 10]);
      DecInjective(n / 10, m / 10);
    }
  }

  /** `%d` of a signed number. */
  function DecSigned(i: int): Bytes { if i < 0 then [45] + Dec(-i) else Dec(i) }

  /** The number a decimal numeral stands for. */
  function FromDec(d: Bytes): int { if d == [] then 0 else 10 * FromDec(d[..|d| - 1]) + d[|d| - 1] - 48 }

  function FromDecSigned(d: Bytes): int { if d != [] && d[0] == 45 then -FromDec(d[1..]) else FromDec(d) }

  lemma {:induction false} DecReadBack(n: nat)
    ensures FromDec(Dec(n)) == n
  {
    if n >= 10 {
      DecReadBack(n / 10);
      assert Dec(n)[..|Dec(n)| - 1] == Dec(n / 10);
    } else {
      assert [48 + n][..0] == [];
    }
  }

  lemma DecSignedReadBack(i: int)
    ensures FromDecSigned(DecSigned(i)) == i
  {
    if i < 0 {
      DecReadBack(-i);
      assert DecSigned(i)[1..] == Dec(-i);
    } else {
      DecReadBack(i);
      assert Dec(i)[0] in Dec(i);
    }
  }

  function HexDigit(n: nat): (c: Byte)
    requires n < 16
    ensures 48 <= c <= 57 || 97 <= c <= 102
  {
    if n < 10 then 48 + n else 87 + n
  }

  /** `hex.EncodeToString`. */
  function Hex(b: Bytes): (h: Bytes)
    ensures |h| == 2 * |b|
    ensures forall c :: c in h ==> 48 <= c <= 57 || 97 <= c <= 102
  {
    if b == [] then [] else [HexDigit(b[0] / 16), HexDigit(b[0] % 16)] + Hex(b[1..])
  }

  /** The value of one hexadecimal digit; anything else counts as 0. */
  function FromHexDigit(c: Byte): (n: nat)
    ensures n < 16
  {
    if 48 <= c <= 57 then c - 48 else if 97 <= c <= 102 then c - 87 else 0
  }

  /** `hex.DecodeString` of a string of even length. */
  function FromHex(h: Bytes): Bytes
  {
    if |h| < 2 then [] else [16 * FromHexDigit(h[0]) + FromHexDigit(h[1])] + FromHex(h[2..])
  }

  lemma {:induction false} HexReadBack(b: Bytes)
    ensures FromHex(Hex(b)) == b
  {
    if b != [] {
      HexReadBack(b[1..]);
      assert Hex(b)[2..] == Hex(b[1..]);
      assert b == [b[0]] + b[1..];
    }
  }

  lemma {:induction false} HexInjective(a: Bytes, b: Bytes)
    requires Hex(a) == Hex(b)
    ensures a == b
  {
    assert |a| == |b|;
    if a != [] {
      var p, q := [HexDigit(a[0] / 16), HexDigit(a[0] % 16)], [HexDigit(b[0] / 16), HexDigit(b[0] % 16)];
      CancelFixed(p, q, Hex(a[1..]), Hex(b[1..]));
      assert p[0] == q[0] && p[1] == q[1];
      HexInjective(a[1..], b[1..]);
      assert a == [a[0]] + a[1..] && b == [b[0]] + b[1..];
    }
  }

  /** A line cannot be confused with a different line, whatever follows the newline. */
  lemma {:induction false} PeelLine(a: Bytes, b: Bytes, x: Bytes, y: Bytes)
    requires OneLine(a) && OneLine(b)
    requires a + [NEWLINE] + x == b + [NEWLINE] + y
    ensures a == b && x == y
  {
    var s, t := a + [NEWLINE] + x, b + [NEWLINE] + y;
    assert s[|a|] == NEWLINE && forall i :: 0 <= i < |a| ==> s[i] == a[i];
    assert t[|b|] == NEWLINE && forall i :: 0 <= i < |b| ==> t[i] == b[i];
    CancelFixed(a + [NEWLINE], b + [NEWLINE], x, y);
    CancelSuffix(a, b, [NEWLINE], [NEWLINE]);
  }
}
