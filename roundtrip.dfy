/** What the current .reg parser makes of what the renderer writes with extensions
    off: every value comes back unchanged (ValueRoundTrip), and so do the values of a
    key up to its subkeys (ValuesRoundTrip). Whole trees are in treetrip.dfy, the
    older parser's handling of wrapped hexadecimal values in legacy.dfy. */
module RoundTrip {
  import opened Registry
  import opened Tokens
  import opened Substitute
  import opened RegParse
  import opened RegRender

  // ---------------------------------------------------------------------------
  // Quoted runs
  // ---------------------------------------------------------------------------

  /** An escaped unit never starts with LF, so the parser never drops the CR of a
      CR the string held before an LF. */
  lemma EscapedHead(s: Text, tail: Text)
    requires s != []
    ensures EscapeUnits(s) + tail != [] && (EscapeUnits(s) + tail)[0] != LF
  {
  }

  /** Reading an escaped string and its closing quote gives the string back, and the
      text after the quote. */
  lemma {:induction false} QuotedRunOfEscaped(s: Text, rest: Text)
    ensures QuotedRun(EscapeUnits(s) + [Quote] + rest) == Ok((s, rest))
    decreases |s|
  {
    if s == [] {
      assert EscapeUnits(s) + [Quote] + rest == [Quote] + rest;
    } else {
      var c := s[0];
      var t := EscapeUnits(s[1..]) + [Quote] + rest;
      assert EscapeUnits(s) + [Quote] + rest == EscapeUnit(c) + t;
      assert t != [] && t[0] != LF by {
        if s[1..] != [] {
          EscapedHead(s[1..], [Quote] + rest);
        }
      }
      QuotedRunOfEscaped(s[1..], rest);
      var u := EscapeUnit(c) + t;
      if c == Backslash || c == Quote {
        assert u[0] == Backslash && u[1] == c && u[2..] == t;
      } else if c == LF {
        assert u[0] == CR && u[1] == LF && u[1..] == [LF] + t;
        assert ([LF] + t)[1..] == t;
      } else {
        assert u[0] == c && u[1..] == t;
      }
      assert [c] + s[1..] == s;
    }
  }

  /** Reading a value name back from its prefix; the text after it starts with `=`. */
  lemma NameRoundTrip(name: Text, d: Text)
    ensures ValueName(ValuePrefix(name) + d) == Ok((name, [EqualsSign] + d))
  {
    EscapeEmpty(name);
    if name == [] {
      DefaultNameRoundTrip(d);
    } else {
      QuotedNameRoundTrip(name, d);
    }
  }

  lemma DefaultNameRoundTrip(d: Text)
    ensures ValueName(ValuePrefix([]) + d) == Ok(([], [EqualsSign] + d))
  {
    EscapeEmpty([]);
    var s := ValuePrefix([]) + d;
    assert s == [AtSign] + ([EqualsSign] + d);
    assert s[0] == AtSign && s[1..] == [EqualsSign] + d;
  }

  lemma QuotedNameRoundTrip(name: Text, d: Text)
    requires name != []
    ensures ValueName(ValuePrefix(name) + d) == Ok((name, [EqualsSign] + d))
  {
    EscapeEmpty(name);
    EscapeIsUnitwise(name);
    var u := EscapeUnits(name);
    assert ValuePrefix(name) == [Quote] + u + [Quote, EqualsSign];
    var s := ValuePrefix(name) + d;
    var y := u + [Quote] + ([EqualsSign] + d);
    assert s == [Quote] + y;
    assert s[0] == Quote && s[1..] == y;
    QuotedRunOfEscaped(name, [EqualsSign] + d);
  }

  // ---------------------------------------------------------------------------
  // Hexadecimal bodies
  // ---------------------------------------------------------------------------

  /** The two digits written for a byte read back as that byte. */
  lemma ByteDigits(x: byte)
    ensures |HexPadded(x, 2)| == 2
    ensures IsHexDigit(HexPadded(x, 2)[0]) && IsHexDigit(HexPadded(x, 2)[1])
    ensures HexByte(HexPadded(x, 2)[0], HexPadded(x, 2)[1]) == x
  {
    assert Pow16(2) == 256;
    HexPaddedRoundTrip(x, 2);
    var d := HexPadded(x, 2);
    assert d[..1][..0] == [] && d[..1][0] == d[0];
    assert HexValue(d[..1]) == DigitValue(d[0]);
  }

  /** A non-empty body starts with a digit. */
  lemma HexBodyHead(b: seq<byte>, col: nat, tail: Text)
    requires b != []
    ensures HexBody(b, col) + tail != [] && IsHexDigit((HexBody(b, col) + tail)[0])
  {
    ByteDigits(b[0]);
  }

  // One step of HexData on text of a known shape.

  lemma HexDataEnd(v: Variant, k: Text)
    ensures HexData(v, NewLines + k) == Ok(([], k))
  {
    var s := NewLines + k;
    assert s[..2] == NewLines && s[2..] == k;
  }

  lemma HexDataDigits(v: Variant, d: Text, k: Text)
    requires |d| == 2 && IsHexDigit(d[0]) && IsHexDigit(d[1])
    ensures HexData(v, d + k) == Prefixed([HexByte(d[0], d[1])], HexData(v, k))
  {
    var s := d + k;
    assert s[0] == d[0] && s[1] == d[1] && s[2..] == k;
    NotNewLines(s);
    NotEscapedNewLine(s);
  }

  lemma HexDataComma(v: Variant, k: Text)
    ensures HexData(v, [Comma] + k) == HexData(v, k)
  {
    var s := [Comma] + k;
    assert s[0] == Comma && s[1..] == k;
    NotNewLines(s);
  }

  lemma HexDataContinued(v: Variant, k: Text)
    ensures HexData(v, EscapedNewLine + k) == HexData(v, if v == Current then SkipSpaces(k) else k)
  {
    var s := EscapedNewLine + k;
    assert s[0] == Backslash && s[..3] == EscapedNewLine && s[3..] == k;
    NotNewLines(s);
  }

  /** Text that does not start with CR does not start with CRLF. */
  lemma NotNewLines(s: Text)
    requires s != [] && s[0] != CR
    ensures !StartsWith(s, NewLines)
  {
    if |s| >= 2 {
      assert s[..2][0] == s[0];
    }
  }

  /** Text that does not start with a backslash does not start with one and CRLF. */
  lemma NotEscapedNewLine(s: Text)
    requires s != [] && s[0] != Backslash
    ensures !StartsWith(s, EscapedNewLine)
  {
    if |s| >= 3 {
      assert s[..3][0] == s[0];
    }
  }

  /** The indentation of a continued line, up to a digit, is skipped. */
  lemma SkipIndent(k: Text)
    requires k != [] && IsHexDigit(k[0])
    ensures SkipSpaces(Spaces(HexNewLineLeadingSpaces) + k) == k
  {
    assert Spaces(HexNewLineLeadingSpaces) == [Space, Space];
    assert Spaces(HexNewLineLeadingSpaces) + k == [Space] + ([Space] + k);
    assert ([Space] + ([Space] + k))[1..] == [Space] + k;
    assert ([Space] + k)[1..] == k;
    assert SkipSpaces(k) == k;
    assert SkipSpaces([Space] + k) == k;
  }

  /** The current parser reads back every body the renderer writes, wrapped or not. */
  lemma {:induction false} HexBodyRoundTrip(b: seq<byte>, col: nat, rest: Text)
    ensures HexData(Current, HexBody(b, col) + NewLines + rest) == Ok((b, rest))
    decreases |b|
  {
    if b == [] {
      assert HexBody(b, col) + NewLines + rest == NewLines + rest;
      HexDataEnd(Current, rest);
    } else if |b| == 1 {
      LastByteRoundTrip(b, col, rest);
    } else {
      var wrap := col + 3 > HexWrappingLimit - 4;
      var col' := if wrap then HexNewLineLeadingSpaces else col + 3;
      HexBodyRoundTrip(b[1..], col', rest);
      HexBodyStep(b, 0, col);
      assert b[0..] == b;
      NextByteRoundTrip(b, wrap, HexBody(b, col), HexBody(b[1..], col'), rest);
    }
  }

  lemma LastByteRoundTrip(b: seq<byte>, col: nat, rest: Text)
    requires |b| == 1
    ensures HexData(Current, HexBody(b, col) + NewLines + rest) == Ok((b, rest))
  {
    ByteDigits(b[0]);
    var d := HexPadded(b[0], 2);
    assert HexBody(b, col) + NewLines + rest == d + (NewLines + rest);
    HexDataDigits(Current, d, NewLines + rest);
    HexDataEnd(Current, rest);
    assert [HexByte(d[0], d[1])] + [] == b;
  }

  /** A byte that is not the last, its comma and any continuation, then the rest. */
  lemma NextByteRoundTrip(b: seq<byte>, wrap: bool, body: Text, body': Text, rest: Text)
    requires |b| >= 2
    requires wrap ==> body == HexPadded(b[0], 2) + [Comma] + EscapedNewLine + Spaces(HexNewLineLeadingSpaces) + body'
    requires !wrap ==> body == HexPadded(b[0], 2) + [Comma] + body'
    requires HexData(Current, body' + NewLines + rest) == Ok((b[1..], rest))
    requires body' != [] && IsHexDigit(body'[0])
    ensures HexData(Current, body + NewLines + rest) == Ok((b, rest))
  {
    ByteDigits(b[0]);
    var d := HexPadded(b[0], 2);
    var t := body' + NewLines + rest;
    if wrap {
      var c := EscapedNewLine + (Spaces(HexNewLineLeadingSpaces) + t);
      Assoc6(d, [Comma], EscapedNewLine, Spaces(HexNewLineLeadingSpaces), body', NewLines, rest);
      HexDataDigits(Current, d, [Comma] + c);
      HexDataComma(Current, c);
      HexDataContinued(Current, Spaces(HexNewLineLeadingSpaces) + t);
      SkipIndent(t);
    } else {
      Assoc4(d, [Comma], body', NewLines, rest);
      HexDataDigits(Current, d, [Comma] + t);
      HexDataComma(Current, t);
    }
    assert [HexByte(d[0], d[1])] + b[1..] == b;
  }

  // Regrouping of concatenations, with the parts left abstract.

  lemma Assoc4(a: Text, b: Text, c: Text, d: Text, e: Text)
    ensures a + b + c + d + e == a + (b + (c + d + e))
  {
  }

  lemma Assoc6(a: Text, b: Text, c: Text, d: Text, e: Text, f: Text, g: Text)
    ensures a + b + c + d + e + f + g == a + (b + (c + (d + (e + f + g))))
  {
  }

  /** The hex type token reads back as the type; the colon stays. */
  lemma HexTypeParse(t: u32, y: Text)
    ensures HexTypeSpec(HexTypeSuffix(t) + y) == Ok((t, [Colon] + y))
  {
    var k := HexTypeSuffix(t);
    if t == REG_BINARY {
      assert k == [Colon];
      assert (k + y)[0] == Colon;
    } else {
      var n := HexNumeral(t);
      assert k == [OpenParen] + n + [CloseParen, Colon];
      var u := (k + y)[1..];
      assert u == n + ([CloseParen] + ([Colon] + y));
      HexRunPrefix(n, [CloseParen] + ([Colon] + y));
      assert u[..|n|] == n;
      HexValueOfNumeral(t);
      assert u[|n| + 1..] == [Colon] + y;
    }
  }

  /** The hex run of a numeral followed by a non-digit is the numeral. */
  lemma {:induction false} HexRunPrefix(n: Text, tail: Text)
    requires AllHexDigits(n) && tail != [] && !IsHexDigit(tail[0])
    ensures HexRunLength(n + tail) == |n|
    decreases |n|
  {
    var s := n + tail;
    if n != [] {
      assert s[0] == n[0] && s[1..] == n[1..] + tail;
      HexRunPrefix(n[1..], tail);
    } else {
      assert s == tail;
    }
  }

  // ---------------------------------------------------------------------------
  // Value data
  // ---------------------------------------------------------------------------

  // ValueData and its parts on text of a known shape.

  lemma ValueDataHex(v: Variant, k: Text)
    ensures ValueData(v, HexPrefix + k) == HexValueData(v, k)
  {
    assert (HexPrefix + k)[..|HexPrefix|] == HexPrefix && (HexPrefix + k)[|HexPrefix|..] == k;
    assert (HexPrefix + k)[0] != DwordPrefixColon[0];
  }

  lemma ValueDataDword(v: Variant, k: Text)
    ensures ValueData(v, DwordPrefixColon + k) == DwordData(k)
  {
    assert (DwordPrefixColon + k)[..|DwordPrefixColon|] == DwordPrefixColon;
    assert (DwordPrefixColon + k)[|DwordPrefixColon|..] == k;
  }

  lemma ValueDataString(v: Variant, k: Text)
    ensures ValueData(v, [Quote] + k) == StringData(k)
  {
    assert ([Quote] + k)[0] == Quote && ([Quote] + k)[1..] == k;
    assert Quote != DwordPrefixColon[0] && Quote != HexPrefix[0];
  }

  lemma HexValueDataOf(v: Variant, k: Text, t: u32, y: Text, b: seq<byte>, r: Text)
    requires HexTypeSpec(k) == Ok((t, [Colon] + y)) && HexData(v, y) == Ok((b, r))
    ensures HexValueData(v, k) == Ok(DataParse(t, b, r))
  {
    assert ([Colon] + y)[1..] == y;
  }

  lemma StringDataOf(k: Text, w: Text, r: Text)
    requires QuotedRun(k) == Ok((w, NewLines + r))
    ensures StringData(k) == Ok(DataParse(REG_SZ, UnitsToBytes(w + [NUL]), r))
  {
    assert (NewLines + r)[2..] == r;
  }

  /** The hexadecimal rendition reads back as the value's type and bytes. */
  lemma BinaryRoundTrip(first: nat, v: RegistryValue, rest: Text)
    ensures ValueData(Current, BinaryRendition(first, v) + rest) == Ok(DataParse(v.Type, v.Data, rest))
  {
    var col := first + |HexTypeText(v.Type)|;
    assert BinaryRendition(first, v) == HexTypeText(v.Type) + HexBody(v.Data, col) + NewLines;
    var y := HexBody(v.Data, col) + NewLines + rest;
    Assoc4(HexPrefix, HexTypeSuffix(v.Type), HexBody(v.Data, col), NewLines, rest);
    HexTypeParse(v.Type, y);
    HexBodyRoundTrip(v.Data, col, rest);
    HexParse(HexTypeSuffix(v.Type) + y, v.Type, y, v.Data, rest);
  }

  lemma HexParse(k: Text, t: u32, y: Text, b: seq<byte>, r: Text)
    requires HexTypeSpec(k) == Ok((t, [Colon] + y)) && HexData(Current, y) == Ok((b, r))
    ensures ValueData(Current, HexPrefix + k) == Ok(DataParse(t, b, r))
  {
    ValueDataHex(Current, k);
    HexValueDataOf(Current, k, t, y, b, r);
  }

  /** `dword:` and eight digits read back as the four bytes. */
  lemma DwordRoundTrip(first: nat, v: RegistryValue, rest: Text)
    requires |v.Data| == 4
    ensures ValueData(Current, DwordRendition(first, v) + rest) == Ok(DataParse(REG_DWORD, v.Data, rest))
  {
    var n := FromLE(v.Data);
    Pow16Of8();
    HexPaddedRoundTrip(n, 8);
    var h := HexPadded(n, 8);
    var t := h + (NewLines + rest);
    assert DwordRendition(first, v) + rest == DwordPrefixColon + t;
    ValueDataDword(Current, t);
    assert t[..8] == h && t[8..] == NewLines + rest && t[10..] == rest;
    ToFromLE(v.Data);
  }

  /** A quoted string reads back as its units and the terminating NUL. */
  lemma StringRoundTrip(first: nat, v: RegistryValue, rest: Text)
    requires |v.Data| % 2 == 0 && Quotable(BytesToUnits(v.Data))
    ensures ValueData(Current, StringRendition(first, v) + rest) == Ok(DataParse(REG_SZ, v.Data, rest))
  {
    var u := BytesToUnits(v.Data);
    var w := u[..|u| - 1];
    StringShape(first, v, u, w, rest);
    StringParse(w, rest);
    assert w + [NUL] == u;
    UnitsOfBytesRoundTrip(v.Data);
  }

  lemma StringShape(first: nat, v: RegistryValue, u: Text, w: Text, rest: Text)
    requires |v.Data| % 2 == 0 && u == BytesToUnits(v.Data) && Quotable(u) && w == u[..|u| - 1]
    ensures StringRendition(first, v) + rest == [Quote] + (EscapeUnits(w) + [Quote] + (NewLines + rest))
  {
    QuotedRendition(first, v, u, w);
    EscapeIsUnitwise(w);
    Assoc4([Quote], EscapeUnits(w), [Quote], NewLines, rest);
  }

  lemma QuotedRendition(first: nat, v: RegistryValue, u: Text, w: Text)
    requires |v.Data| % 2 == 0 && u == BytesToUnits(v.Data) && Quotable(u) && w == u[..|u| - 1]
    ensures StringRendition(first, v) == [Quote] + Escape(w) + [Quote] + NewLines
  {
  }

  lemma StringParse(w: Text, rest: Text)
    ensures ValueData(Current, [Quote] + (EscapeUnits(w) + [Quote] + (NewLines + rest)))
         == Ok(DataParse(REG_SZ, UnitsToBytes(w + [NUL]), rest))
  {
    var k := EscapeUnits(w) + [Quote] + (NewLines + rest);
    ValueDataString(Current, k);
    QuotedRunOfEscaped(w, NewLines + rest);
    StringDataOf(k, w, rest);
  }

  /** Every data rendition without extensions reads back as the value's type and bytes. */
  lemma DataRoundTrip(first: nat, v: RegistryValue, rest: Text)
    ensures ValueData(Current, DataRendition(first, v, false) + rest) == Ok(DataParse(v.Type, v.Data, rest))
  {
    if v.Type == REG_DWORD && |v.Data| == 4 {
      DwordRoundTrip(first, v, rest);
    } else if v.Type == REG_SZ && |v.Data| % 2 == 0 && Quotable(BytesToUnits(v.Data)) {
      StringRoundTrip(first, v, rest);
    } else {
      BinaryRoundTrip(first, v, rest);
    }
  }

  /** Every value the renderer writes without extensions reads back unchanged,
      whatever follows it. */
  lemma ValueRoundTrip(v: RegistryValue, rest: Text)
    ensures OneValue(Current, ValueRendition(v, false) + rest) == Ok((v, rest))
  {
    var prefix := ValuePrefix(v.Name);
    var d := DataRendition(|prefix|, v, false) + rest;
    assert ValueRendition(v, false) + rest == prefix + d;
    NameRoundTrip(v.Name, d);
    DataRoundTrip(|prefix|, v, rest);
    assert ValueData(Current, []) == Err(Indeterminate);
    OneValueOf(Current, prefix + d, v.Name, d, v.Type, v.Data, rest);
  }

  lemma OneValueOf(w: Variant, s: Text, name: Text, d: Text, t: u32, b: seq<byte>, r: Text)
    requires ValueName(s) == Ok((name, [EqualsSign] + d)) && d != []
    requires ValueData(w, d) == Ok(DataParse(t, b, r))
    ensures OneValue(w, s) == Ok((RegistryValue(name, t, b), r))
  {
    assert ([EqualsSign] + d)[1..] == d;
  }

  lemma ValueListEnd(w: Variant, k: Text)
    requires k == [] || k[0] == OpenBracket
    ensures ValueList(w, NewLines + k) == Ok(([], k))
  {
    assert (NewLines + k)[2..] == k;
    assert SkipNewLines(k) == k;
    assert SkipNewLines(NewLines + k) == k;
  }

  lemma ValueListStep(w: Variant, s: Text, x: RegistryValue, r: Text)
    requires s != [] && (s[0] == AtSign || s[0] == Quote)
    requires OneValue(w, s) == Ok((x, r))
    ensures ValueList(w, s) == Prefixed([x], ValueList(w, r))
  {
  }

  /** A value's rendition starts with `@` or a quote. */
  lemma ValueHead(v: RegistryValue, t: Text)
    ensures ValueRendition(v, false) + t != []
    ensures (ValueRendition(v, false) + t)[0] == AtSign || (ValueRendition(v, false) + t)[0] == Quote
  {
    var p := ValuePrefix(v.Name);
    assert (ValueRendition(v, false) + t)[0] == p[0];
  }

  lemma ValuesShape(vs: seq<RegistryValue>, k: Text)
    requires vs != []
    ensures ValuesRendition(vs, false) + NewLines + k
         == ValueRendition(vs[0], false) + (ValuesRendition(vs[1..], false) + NewLines + k)
  {
  }

  /** The values of a key followed by the empty line read back, when what follows
      is the end of the text or a header. */
  lemma {:induction false} ValuesRoundTrip(vs: seq<RegistryValue>, k: Text)
    requires k == [] || k[0] == OpenBracket
    ensures ValueList(Current, ValuesRendition(vs, false) + NewLines + k) == Ok((vs, k))
    decreases |vs|
  {
    if vs == [] {
      assert ValuesRendition(vs, false) + NewLines + k == NewLines + k;
      ValueListEnd(Current, k);
    } else {
      var t := ValuesRendition(vs[1..], false) + NewLines + k;
      var s := ValueRendition(vs[0], false) + t;
      ValuesShape(vs, k);
      ValueRoundTrip(vs[0], t);
      ValuesRoundTrip(vs[1..], k);
      ValueHead(vs[0], t);
      ValuesCons(vs, s, t, k);
    }
  }

  /** The value list reads a first value and then the rest. */
  lemma ValuesCons(vs: seq<RegistryValue>, s: Text, t: Text, k: Text)
    requires vs != [] && s != [] && (s[0] == AtSign || s[0] == Quote)
    requires OneValue(Current, s) == Ok((vs[0], t))
    requires ValueList(Current, t) == Ok((vs[1..], k))
    ensures ValueList(Current, s) == Ok((vs, k))
  {
    ValueListStep(Current, s, vs[0], t);
    assert [vs[0]] + vs[1..] == vs;
  }
}
