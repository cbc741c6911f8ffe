/** The older parser (RegfileToInternal.cpp at the repository root) against what the
    renderer writes. After the `\` CRLF that continues a long hexadecimal value it
    expects a digit or a comma, but the renderer indents the continued line with two
    spaces, so every wrapped hexadecimal value fails to read there. The current parser
    skips the indentation and reads every body back (RoundTrip.HexBodyRoundTrip). */
module LegacyHex {
  import opened Registry
  import opened Tokens
  import opened Substitute
  import opened RegParse
  import opened RegRender
  import opened RoundTrip

  /** HexBody(b, col) breaks the line after some byte: at some comma the column has
      passed HexWrappingLimit - 4. */
  predicate Wraps(b: seq<byte>, col: nat)
    decreases |b|
  {
    |b| >= 2 && (col + 3 > HexWrappingLimit - 4 || Wraps(b[1..], col + 3))
  }

  /** A body long enough for its last comma to pass the limit wraps. */
  lemma {:induction false} LongBodyWraps(b: seq<byte>, col: nat)
    requires |b| >= 2 && col + 3 * |b| > HexWrappingLimit - 1
    ensures Wraps(b, col)
    decreases |b|
  {
    if col + 3 <= HexWrappingLimit - 4 {
      var col' := col + 3;
      LongBodyWraps(b[1..], col');
    }
  }

  /** Text starting with a space is no hexadecimal data. */
  lemma SpaceRejected(v: Variant, s: Text)
    requires s != [] && s[0] == Space
    ensures HexData(v, s) == Err(Malformed)
  {
    NotNewLines(s);
    NotEscapedNewLine(s);
  }

  /** The older parser fails on every wrapped body, whatever follows it. */
  lemma {:induction false} LegacyRejectsWrappedHex(b: seq<byte>, col: nat, rest: Text)
    requires Wraps(b, col)
    ensures HexData(Legacy, HexBody(b, col) + NewLines + rest).Err?
    decreases |b|
  {
    var wrap := col + 3 > HexWrappingLimit - 4;
    var col' := if wrap then HexNewLineLeadingSpaces else col + 3;
    HexBodyStep(b, 0, col);
    assert b[0..] == b;
    ByteDigits(b[0]);
    var d := HexPadded(b[0], 2);
    var body' := HexBody(b[1..], col');
    var t := body' + NewLines + rest;
    if wrap {
      var sp := Spaces(HexNewLineLeadingSpaces) + t;
      Assoc6(d, [Comma], EscapedNewLine, Spaces(HexNewLineLeadingSpaces), body', NewLines, rest);
      HexDataDigits(Legacy, d, [Comma] + (EscapedNewLine + sp));
      HexDataComma(Legacy, EscapedNewLine + sp);
      HexDataContinued(Legacy, sp);
      SpaceRejected(Legacy, sp);
    } else {
      Assoc4(d, [Comma], body', NewLines, rest);
      HexDataDigits(Legacy, d, [Comma] + t);
      HexDataComma(Legacy, t);
      LegacyRejectsWrappedHex(b[1..], col', rest);
    }
  }

  lemma HexValueDataErr(v: Variant, k: Text, t: u32, y: Text)
    requires HexTypeSpec(k) == Ok((t, [Colon] + y)) && HexData(v, y).Err?
    ensures HexValueData(v, k).Err?
  {
    assert ([Colon] + y)[1..] == y;
  }

  lemma OneValueErr(w: Variant, s: Text, name: Text, d: Text)
    requires ValueName(s) == Ok((name, [EqualsSign] + d)) && d != []
    requires ValueData(w, d).Err?
    ensures OneValue(w, s).Err?
  {
    assert ([EqualsSign] + d)[1..] == d;
  }

  /** A value written in hexadecimal whose body wraps fails to read in the older
      parser, while the current parser reads it back (RoundTrip.ValueRoundTrip). */
  lemma LegacyRejectsWrappedValue(v: RegistryValue, rest: Text)
    requires v.Type != REG_DWORD && v.Type != REG_SZ
    requires Wraps(v.Data, |ValuePrefix(v.Name)| + |HexTypeText(v.Type)|)
    ensures OneValue(Legacy, ValueRendition(v, false) + rest).Err?
  {
    LegacyRejectsWrappedValueAt(v, |ValuePrefix(v.Name)| + |HexTypeText(v.Type)|, rest);
  }

  lemma LegacyRejectsWrappedValueAt(v: RegistryValue, col: nat, rest: Text)
    requires v.Type != REG_DWORD && v.Type != REG_SZ
    requires col == |ValuePrefix(v.Name)| + |HexTypeText(v.Type)| && Wraps(v.Data, col)
    ensures OneValue(Legacy, ValueRendition(v, false) + rest).Err?
  {
    var prefix := ValuePrefix(v.Name);
    var y := HexBody(v.Data, col) + NewLines + rest;
    var k := HexTypeSuffix(v.Type) + y;
    var d := HexPrefix + k;
    assert DataRendition(|prefix|, v, false) == HexTypeText(v.Type) + HexBody(v.Data, col) + NewLines;
    Assoc4(HexPrefix, HexTypeSuffix(v.Type), HexBody(v.Data, col), NewLines, rest);
    assert ValueRendition(v, false) + rest == prefix + d;
    NameRoundTrip(v.Name, d);
    HexTypeParse(v.Type, y);
    LegacyRejectsWrappedHex(v.Data, col, rest);
    HexValueDataErr(Legacy, k, v.Type, y);
    ValueDataHex(Legacy, k);
    OneValueErr(Legacy, prefix + d, v.Name, d);
  }

  /** In particular every binary value of 25 bytes or more, which the renderer always
      wraps, fails to read in the older parser. */
  lemma LegacyRejectsLongBinary(v: RegistryValue, rest: Text)
    requires v.Type == REG_BINARY && |v.Data| >= 25
    ensures OneValue(Legacy, ValueRendition(v, false) + rest).Err?
    ensures OneValue(Current, ValueRendition(v, false) + rest) == Ok((v, rest))
  {
    var col := |ValuePrefix(v.Name)| + |HexTypeText(v.Type)|;
    EscapeEmpty(v.Name);
    assert |ValuePrefix(v.Name)| >= 2;
    assert HexTypeText(v.Type) == HexPrefix + [Colon];
    LongBodyWraps(v.Data, col);
    LegacyRejectsWrappedValue(v, rest);
    ValueRoundTrip(v, rest);
  }
}
