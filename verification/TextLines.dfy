/** The shape the textual stele formats share: labelled lines. Values without line breaks are
    determined by the text, whatever follows. */
module TextLines {
  import opened Encoding
  import opened Options

  datatype Line = Line(caption: Bytes, value: Bytes)

  function RenderLine(l: Line): Bytes { l.caption + (l.value + [NEWLINE]) }

  function Render(lines: seq<Line>): Bytes
  {
    if lines == [] then [] else RenderLine(lines[0]) + Render(lines[1..])
  }

  ghost predicate SameLabels(a: seq<Line>, b: seq<Line>)
  {
    |a| == |b| && forall i :: 0 <= i < |a| ==> a[i].caption == b[i].caption
  }

  ghost predicate AllOneLine(a: seq<Line>) { forall i :: 0 <= i < |a| ==> OneLine(a[i].value) }

  lemma PeelLabelled(l: Line, m: Line, x: Bytes, y: Bytes)
    requires l.caption == m.caption && OneLine(l.value) && OneLine(m.value)
    requires RenderLine(l) + x == RenderLine(m) + y
    ensures l == m && x == y
  {
    assert RenderLine(l) + x == l.caption + (l.value + [NEWLINE] + x);
    assert RenderLine(m) + y == m.caption + (m.value + [NEWLINE] + y);
    CancelPrefix(l.caption, l.value + [NEWLINE] + x, m.value + [NEWLINE] + y);
    PeelLine(l.value, m.value, x, y);
  }

  /** Lines with the same labels that start one text have the same values, and the same text follows. */
  lemma {:induction false} LinesDetermined(a: seq<Line>, b: seq<Line>, x: Bytes, y: Bytes)
    requires SameLabels(a, b) && AllOneLine(a) && AllOneLine(b) && Render(a) + x == Render(b) + y
    ensures a == b && x == y
  {
    hide RenderLine, OneLine;
    if a == [] {
      assert Render(a) + x == x && Render(b) + y == y;
    } else {
      var u, v := Render(a[1..]) + x, Render(b[1..]) + y;
      assert Render(a) + x == RenderLine(a[0]) + u;
      assert Render(b) + y == RenderLine(b[0]) + v;
      PeelLabelled(a[0], b[0], u, v);
      LinesDetermined(a[1..], b[1..], x, y);
      assert a == [a[0]] + a[1..] && b == [b[0]] + b[1..];
    }
  }

  lemma {:induction false} RenderConcat(a: seq<Line>, b: seq<Line>)
    ensures Render(a + b) == Render(a) + Render(b)
  {
    hide RenderLine;
    if a == [] {
      assert a + b == b;
    } else {
      var head, tail, rest := RenderLine(a[0]), Render(a[1..]), Render(b);
      RenderConcat(a[1..], b);
      var all := a + b;
      assert all[1..] == a[1..] + b && all[0] == a[0];
      assert head + (tail + rest) == head + tail + rest;
    }
  }

  // ---- Reading back ----

  /** The bytes before the first `stop` and those after it. */
  function TakeUntil(stop: Byte, b: Bytes): Option<(Bytes, Bytes)>
  {
    if b == [] then None
    else if b[0] == stop then Some(([], b[1..]))
    else
      match TakeUntil(stop, b[1..])
      case None => None
      case Some((x, rest)) => Some(([b[0]] + x, rest))
  }

  lemma {:induction false} TakenBack(stop: Byte, a: Bytes, rest: Bytes)
    requires stop !in a
    ensures TakeUntil(stop, a + ([stop] + rest)) == Some((a, rest))
  {
    var b := a + ([stop] + rest);
    if a == [] {
      assert b[1..] == rest;
    } else {
      assert b[0] == a[0] && a[0] in a && b[1..] == a[1..] + ([stop] + rest);
      TakenBack(stop, a[1..], rest);
      assert a == [a[0]] + a[1..];
    }
  }

  /** The bytes before the last `stop` and those after it. */
  function SplitLast(stop: Byte, b: Bytes): Option<(Bytes, Bytes)>
  {
    if b == [] then None
    else
      var n := |b| - 1;
      if b[n] == stop then Some((b[..n], []))
      else
        match SplitLast(stop, b[..n])
        case None => None
        case Some((x, y)) => Some((x, y + [b[n]]))
  }

  lemma {:induction false} SplitBack(stop: Byte, a: Bytes, x: Bytes)
    requires stop !in x
    ensures SplitLast(stop, a + [stop] + x) == Some((a, x))
  {
    var b := a + [stop] + x;
    if x == [] {
      assert b[..|b| - 1] == a;
    } else {
      var n := |x| - 1;
      assert b[|b| - 1] == x[n] && x[n] in x && b[..|b| - 1] == a + [stop] + x[..n];
      SplitBack(stop, a, x[..n]);
      assert x == x[..n] + [x[n]];
    }
  }

  /** Reads one line under each of the captions. */
  function ReadLines(captions: seq<Bytes>, b: Bytes): (r: Option<(seq<Bytes>, Bytes)>)
    ensures r.Some? ==> |r.value.0| == |captions|
  {
    if captions == [] then Some(([], b))
    else if !(captions[0] <= b) then None
    else
      match TakeUntil(NEWLINE, b[|captions[0]|..])
      case None => None
      case Some((value, rest)) =>
        match ReadLines(captions[1..], rest)
        case None => None
        case Some((values, rest')) => Some(([value] + values, rest'))
  }

  function Values(lines: seq<Line>): seq<Bytes> { seq(|lines|, i requires 0 <= i < |lines| => lines[i].value) }

  /** What was written is read back, line by line, whatever follows. */
  lemma {:induction false} LinesReadBack(captions: seq<Bytes>, lines: seq<Line>, rest: Bytes)
    requires |captions| == |lines| && forall i :: 0 <= i < |lines| ==> lines[i].caption == captions[i]
    requires AllOneLine(lines)
    ensures ReadLines(captions, Render(lines) + rest) == Some((Values(lines), rest))
  {
    hide TakeUntil;
    if lines == [] {
      assert Render(lines) + rest == rest;
    } else {
      var l, tail := lines[0], Render(lines[1..]) + rest;
      var b := Render(lines) + rest;
      assert b == l.caption + (l.value + ([NEWLINE] + tail));
      assert b[|l.caption|..] == l.value + ([NEWLINE] + tail);
      TakenBack(NEWLINE, l.value, tail);
      LinesReadBack(captions[1..], lines[1..], rest);
      assert Values(lines) == [l.value] + Values(lines[1..]);
    }
  }

  /** The last line ends the text, so its value may have line breaks. */
  lemma LastLineFree(a: seq<Line>, b: seq<Line>)
    requires SameLabels(a, b) && a != [] && Render(a) == Render(b)
    requires AllOneLine(a[..|a| - 1]) && AllOneLine(b[..|b| - 1])
    ensures a == b
  {
    hide AllOneLine, RenderLine;
    var n := |a| - 1;
    var u, v := Render([a[n]]), Render([b[n]]);
    assert a == a[..n] + [a[n]] && b == b[..n] + [b[n]];
    RenderConcat(a[..n], [a[n]]);
    RenderConcat(b[..n], [b[n]]);
    LinesDetermined(a[..n], b[..n], u, v);
    SameLastLine(a[n], b[n]);
  }

  lemma SameLastLine(l: Line, m: Line)
    requires l.caption == m.caption && Render([l]) == Render([m])
    ensures l == m
  {
    assert Render([l]) == RenderLine(l) + [] == RenderLine(l) && Render([m]) == RenderLine(m) + [] == RenderLine(m);
    CancelPrefix(l.caption, l.value + [NEWLINE], m.value + [NEWLINE]);
    CancelSuffix(l.value, m.value, [NEWLINE], [NEWLINE]);
  }

  /** A text splits in one way at its last colon. */
  lemma PeelLastColon(a: Bytes, b: Bytes, x: Bytes, y: Bytes)
    requires 58 !in x && 58 !in y && a + [58] + x == b + [58] + y
    ensures a == b && x == y
  {
    var s, t := a + [58] + x, b + [58] + y;
    assert s[|a|] == 58 && forall i :: |a| < i < |s| ==> s[i] == x[i - |a| - 1] && s[i] in x;
    assert t[|b|] == 58 && forall i :: |b| < i < |t| ==> t[i] == y[i - |b| - 1] && t[i] in y;
    CancelFixed(a + [58], b + [58], x, y);
    CancelSuffix(a, b, [58], [58]);
  }

  lemma DecSignedInjective(i: int, j: int)
    requires DecSigned(i) == DecSigned(j)
    ensures i == j
  {
    hide Dec;
    assert i >= 0 ==> Dec(i)[0] in Dec(i);
    assert j >= 0 ==> Dec(j)[0] in Dec(j);
    assert i < 0 <==> DecSigned(i)[0] == 45;
    assert j < 0 <==> DecSigned(j)[0] == 45;
    if i < 0 {
      CancelPrefix([45], Dec(-i), Dec(-j));
      DecInjective(-i, -j);
    } else {
      DecInjective(i, j);
    }
  }

  /** Numbers and hexadecimal strings fit on a line. */
  lemma DigitsOneLine(n: nat, i: int, h: Bytes)
    ensures OneLine(Dec(n)) && OneLine(DecSigned(i)) && OneLine(Hex(h))
  {
    hide Dec, Hex;
  }

  /** "none" is not hexadecimal. */
  lemma NoneIsNotHex(h: Bytes)
    ensures Text("none") != Hex(h)
  {
    hide Hex;
    assert Text("none")[0] == 'n' as int;
    assert Text("none")[0] in Text("none") && 'n' as int !in Hex(h);
  }
}
