/** The renditions that only the extension mode writes (src/InternalToRegfile.cpp:
    116-154 and 214-318): `qword:` and the `multi_sz:` / `expand_sz:` lists of quoted
    strings. No parser in the repository reads them back; what is shown here is that
    they lose nothing, against a reader defined for that purpose (MultiSzRead) and the
    number the sixteen digits of a `qword:` denote. */
module Extensions {
  import opened Registry
  import opened Tokens
  import opened Substitute
  import opened RegParse
  import opened RegRender
  import opened RoundTrip

  // ---------------------------------------------------------------------------
  // qword
  // ---------------------------------------------------------------------------

  /** Eight bytes are written as `qword:`, sixteen lower-case digits and CRLF, and the
      digits denote the little-endian number the bytes hold. */
  lemma QwordDigits(first: nat, v: RegistryValue)
    requires |v.Data| == 8
    ensures var r := QwordRendition(first, v);
      |r| == 24 && r[..6] == QwordPrefix + [Colon] && r[22..] == NewLines
      && AllHexDigits(r[6..22]) && (forall i :: 6 <= i < 22 ==> IsLowerHexDigit(r[i]))
      && ToLE(HexValue(r[6..22]), 8) == v.Data
  {
    var n := FromLE(v.Data);
    Pow16Of8();
    HexPaddedRoundTrip(n, 16);
    PaddedIsLower(n, 16);
    ToFromLE(v.Data);
    var d := HexPadded(n, 16);
    var r := QwordRendition(first, v);
    assert r == QwordPrefix + [Colon] + d + NewLines;
    assert r[6..22] == d;
  }

  // ---------------------------------------------------------------------------
  // multi_sz and expand_sz
  // ---------------------------------------------------------------------------

  /** A reader for the strings after `multi_sz:` or `expand_sz:`: quoted runs decoded
      as value names are, each giving its units and a NUL; a comma, possibly followed
      by `\` CRLF and indentation, separates two; CRLF ends the list. */
  function MultiSzRead(s: Text): (r: Result<(Text, Text)>)
    ensures r.Ok? ==> |r.value.1| < |s|
    decreases |s|
  {
    if |s| == 0 || s[0] != Quote then Err(Malformed)
    else
      match QuotedRun(s[1..])
      case Err(e) => Err(e)
      case Ok((w, r)) =>
        if StartsWith(r, NewLines) then Ok((w + [NUL], r[2..]))
        else if |r| > 0 && r[0] == Comma then Prefixed(w + [NUL], MultiSzRead(AfterComma(r)))
        else Err(Malformed)
  }

  /** What follows a comma: the next string, after a line break and its indentation
      if there is one. */
  function AfterComma(r: Text): (t: Text)
    requires r != []
    ensures |t| < |r|
  {
    if StartsWith(r[1..], EscapedNewLine) then SkipSpaces(r[1..][3..]) else r[1..]
  }

  /** Every piece written starts with a quote. */
  lemma MultiSzHead(u: Text, first: nat, col: nat, pend: nat, rest: Text)
    requires u != []
    ensures MultiSzStrings(u, first, col, pend) + rest != []
    ensures (MultiSzStrings(u, first, col, pend) + rest)[0] == Quote
  {
  }

  lemma SkipToQuote(n: nat, t: Text)
    requires t != [] && t[0] == Quote
    ensures SkipSpaces(Spaces(n) + t) == t
    decreases n
  {
    if n > 0 {
      assert (Spaces(n) + t)[1..] == Spaces(n - 1) + t;
      SkipToQuote(n - 1, t);
    } else {
      assert Spaces(0) + t == t;
    }
  }

  /** A NUL at the end means the first NUL is inside `u`. */
  lemma NulInside(u: Text)
    requires u != [] && u[|u| - 1] == NUL
    ensures NulIndex(u) < |u|
  {
  }

  /** The first string of `u`, read back from its piece; the text after the closing
      quote is left. */
  lemma PieceRead(u: Text, tail: Text)
    requires u != [] && u[|u| - 1] == NUL
    ensures NulIndex(u) < |u|
    ensures QuotedRun((StringPiece(u) + tail)[1..]) == Ok((u[..NulIndex(u)], tail))
  {
    NulInside(u);
    var w := u[..NulIndex(u)];
    assert StringPiece(u) == [Quote] + EscapeUnits(w) + [Quote];
    DropQuote(EscapeUnits(w), tail);
    QuotedRunOfEscaped(w, tail);
  }

  lemma DropQuote(e: Text, tail: Text)
    ensures ([Quote] + e + [Quote] + tail)[1..] == e + [Quote] + tail
  {
  }

  lemma Split(u: Text, n: nat)
    requires n < |u| && u[n] == NUL
    ensures u[..n] + [NUL] + u[n + 1..] == u
  {
  }

  /** What MultiSzStrings writes after a comma: nothing, or a line break and `k`
      spaces. */
  function Gap(wrap: bool, k: nat): (t: Text)
    ensures wrap <==> t != []
  {
    if wrap then EscapedNewLine + Spaces(k) else []
  }

  /** The last string and its CRLF. */
  lemma ReadLast(w: Text, rest: Text)
    ensures MultiSzRead([Quote] + EscapeUnits(w) + [Quote] + NewLines + rest) == Ok((w + [NUL], rest))
  {
    var s := [Quote] + EscapeUnits(w) + [Quote] + NewLines + rest;
    assert s[1..] == EscapeUnits(w) + [Quote] + (NewLines + rest);
    QuotedRunOfEscaped(w, NewLines + rest);
    assert (NewLines + rest)[..2] == NewLines && (NewLines + rest)[2..] == rest;
  }

  /** A string and its comma, then the rest of the list. */
  lemma ReadComma(w: Text, r: Text)
    requires r != [] && r[0] == Comma
    ensures MultiSzRead([Quote] + EscapeUnits(w) + [Quote] + r) == Prefixed(w + [NUL], MultiSzRead(AfterComma(r)))
  {
    var s := [Quote] + EscapeUnits(w) + [Quote] + r;
    assert s[1..] == EscapeUnits(w) + [Quote] + r;
    QuotedRunOfEscaped(w, r);
    assert !StartsWith(r, NewLines) by { assert NewLines[0] == CR; }
  }

  /** The comma's gap is passed over up to the next quote. */
  lemma GapSkipped(wrap: bool, k: nat, t: Text)
    requires t != [] && t[0] == Quote
    ensures AfterComma([Comma] + Gap(wrap, k) + t) == t
  {
    var r := [Comma] + Gap(wrap, k) + t;
    if wrap {
      assert r[1..] == EscapedNewLine + (Spaces(k) + t);
      assert r[1..][3..] == Spaces(k) + t;
      SkipToQuote(k, t);
    } else {
      assert r[1..] == t;
      assert !StartsWith(t, EscapedNewLine) by { assert EscapedNewLine[0] == Backslash; }
    }
  }

  /** A string, its comma and a gap, then the list that follows. */
  lemma ReadNext(w: Text, wrap: bool, k: nat, t: Text)
    requires t != [] && t[0] == Quote
    ensures MultiSzRead([Quote] + EscapeUnits(w) + [Quote] + [Comma] + Gap(wrap, k) + t)
         == Prefixed(w + [NUL], MultiSzRead(t))
  {
    var r := [Comma] + Gap(wrap, k) + t;
    assert [Quote] + EscapeUnits(w) + [Quote] + [Comma] + Gap(wrap, k) + t == [Quote] + EscapeUnits(w) + [Quote] + r;
    ReadComma(w, r);
    GapSkipped(wrap, k, t);
  }

  /** The column and line length MultiSzStrings carries to the string after `u`'s
      first, and whether it breaks the line before it. */
  function Wraps(u: Text, col: nat, pend: nat): bool {
    col + pend + |StringPiece(u)| + 1 > MultiSzWrappingLimit - 2
  }

  function NextCol(u: Text, first: nat, col: nat, pend: nat): nat {
    if Wraps(u, col, pend) then first else col + pend + |StringPiece(u)| + 1
  }

  function NextPend(u: Text, first: nat, col: nat, pend: nat): nat {
    if Wraps(u, col, pend) then first else pend + |StringPiece(u)| + 1
  }

  lemma MultiSzUnfold(u: Text, first: nat, col: nat, pend: nat)
    requires u != [] && AfterString(u) != []
    ensures MultiSzStrings(u, first, col, pend)
         == StringPiece(u) + [Comma] + Gap(Wraps(u, col, pend), first)
            + MultiSzStrings(AfterString(u), first, NextCol(u, first, col, pend), NextPend(u, first, col, pend))
  {
  }

  lemma Regroup(p: Text, g: Text, m: Text, rest: Text)
    ensures p + [Comma] + g + m + rest == p + [Comma] + g + (m + rest)
  {
  }

  /** The list of strings is read back as the units it was written from, whatever
      the counters and the indentation, and whatever text follows. */
  lemma {:induction false} MultiSzStringsRoundTrip(u: Text, first: nat, col: nat, pend: nat, rest: Text)
    requires u != [] && u[|u| - 1] == NUL
    ensures MultiSzRead(MultiSzStrings(u, first, col, pend) + rest) == Ok((u, rest))
    decreases |u|
  {
    NulInside(u);
    var n := NulIndex(u);
    var w := u[..n];
    var after := AfterString(u);
    assert StringPiece(u) == [Quote] + EscapeUnits(w) + [Quote];
    Split(u, n);
    if after == [] {
      ReadLast(w, rest);
      assert u[n + 1..] == after;
      assert w + [NUL] == u;
      assert MultiSzStrings(u, first, col, pend) == StringPiece(u) + NewLines;
    } else {
      assert u[|u| - 1] == after[|after| - 1];
      var wrap := Wraps(u, col, pend);
      var col2, pend2 := NextCol(u, first, col, pend), NextPend(u, first, col, pend);
      var m := MultiSzStrings(after, first, col2, pend2);
      MultiSzUnfold(u, first, col, pend);
      Regroup(StringPiece(u), Gap(wrap, first), m, rest);
      MultiSzHead(after, first, col2, pend2, rest);
      ReadNext(w, wrap, first, m + rest);
      MultiSzStringsRoundTrip(after, first, col2, pend2, rest);
    }
  }

  /** RenderMultiSzValue, when it does not fall back to hexadecimal: the type token,
      a colon, then a list that reads back as the value's code units, which are the
      value's bytes. */
  lemma MultiSzRenditionRoundTrip(first: nat, spec: Text, v: RegistryValue, rest: Text)
    requires |v.Data| % 2 == 0 && BytesToUnits(v.Data) != [] && BytesToUnits(v.Data)[|BytesToUnits(v.Data)| - 1] == NUL
    ensures var r := MultiSzRendition(first, spec, v);
      |r| > |spec| && r[..|spec| + 1] == spec + [Colon]
      && MultiSzRead(r[|spec| + 1..] + rest) == Ok((BytesToUnits(v.Data), rest))
      && UnitsToBytes(BytesToUnits(v.Data)) == v.Data
  {
    var u := BytesToUnits(v.Data);
    var m := MultiSzStrings(u, first, first, |spec| + 1);
    var r := MultiSzRendition(first, spec, v);
    assert r == spec + [Colon] + m;
    MultiSzHead(u, first, first, |spec| + 1, []);
    assert m + [] == m;
    assert r[|spec| + 1..] == m;
    MultiSzStringsRoundTrip(u, first, first, |spec| + 1, rest);
    UnitsOfBytesRoundTrip(v.Data);
  }
}
