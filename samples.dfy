/** Concrete cases of the .reg codec: the texts the renderer writes for particular
    values and trees, and what the parser makes of particular files. */
module Samples {
  import opened Registry
  import opened Tokens
  import opened Substitute
  import opened RegParse
  import opened RegRender
  import opened RoundTrip
  import opened TreeRoundTrip
  import opened HexLayout

  /** `Root`, `A` and `B`. */
  const Root: Text := [0x52, 0x6F, 0x6F, 0x74]
  const A: Text := [0x41]
  const B: Text := [0x42]

  /** `12345678`. */
  const Digits: Text := [0x31, 0x32, 0x33, 0x34, 0x35, 0x36, 0x37, 0x38]

  /** `41,00,42,00`. */
  const ABBytes: Text := [0x34, 0x31, Comma, 0x30, 0x30, Comma, 0x34, 0x32, Comma, 0x30, 0x30]

  /** A name with no LF, no CR and no `]` is written and read unchanged. */
  lemma Plain(n: Text)
    requires LF !in n && CR !in n && CloseBracket !in n
    ensures Expand(n) == n && Fold(n) == n && NoClose(n)
  {
    SubstUnit(n, LF, NewLines);
    forall j | 0 <= j
      ensures !OccursAt(n, NewLines, j) && !OccursAt(n, KeyClosingAtEOL, j)
    {
      if j + 2 <= |n| {
        assert n[j..j + 2][0] == n[j];
      }
      if j + 3 <= |n| {
        assert n[j..j + 3][0] == n[j];
      }
    }
    SubstAbsent(n, NewLines, [LF]);
  }

  lemma PlainNames()
    ensures Expand(Root) == Root && Fold(Root) == Root && NoClose(Root)
    ensures Expand(A) == A && Fold(A) == A && NoClose(A) && Backslash !in A
    ensures Expand(B) == B && Fold(B) == B && NoClose(B) && Backslash !in B
  {
    Plain(Root);
    Plain(A);
    Plain(B);
  }

  // ---------------------------------------------------------------------------
  // Values
  // ---------------------------------------------------------------------------

  function DwordSampleValue(): RegistryValue {
    RegistryValue([], REG_DWORD, [0x78, 0x56, 0x34, 0x12])
  }

  /** The number the four bytes hold, least significant first. */
  lemma SampleNumber()
    ensures FromLE(DwordSampleValue().Data) == 0x12345678
  {
    var d := DwordSampleValue().Data;
    assert FromLE(d[3..]) == 0x12;
    assert d[2..][1..] == d[3..];
    assert d[1..][1..] == d[2..];
    assert d[1..] == [0x56, 0x34, 0x12];
  }

  /** Its eight digits. */
  lemma SampleDigits()
    ensures HexPadded(0x12345678, 8) == Digits
  {
    NumeralStep(0x1, 2);
    NumeralStep(0x12, 3);
    NumeralStep(0x123, 4);
    NumeralStep(0x1234, 5);
    NumeralStep(0x12345, 6);
    NumeralStep(0x123456, 7);
    NumeralStep(0x1234567, 8);
    assert Zeros(0) == [];
  }

  /** One more digit on the right. */
  lemma NumeralStep(n: nat, d: nat)
    requires 1 <= n && d < 16
    ensures HexNumeral(16 * n + d) == HexNumeral(n) + [LowerDigit(d)]
  {
    var m := 16 * n + d;
    assert m / 16 == n && m % 16 == d;
  }

  /** The default value's prefix. */
  lemma DefaultPrefix()
    ensures ValuePrefix([]) == [AtSign, EqualsSign]
  {
    EscapeEmpty([]);
  }

  lemma DwordText()
    ensures ValueRendition(DwordSampleValue(), false) == DwordLine()
  {
    var v := DwordSampleValue();
    DefaultPrefix();
    assert ValueRendition(v, false) == [AtSign, EqualsSign] + DataRendition(2, v, false);
    assert DataRendition(2, v, false) == DwordRendition(2, v);
    DwordDigitsText();
  }

  lemma DwordDigitsText()
    ensures DwordRendition(2, DwordSampleValue()) == DwordData()
  {
    SampleNumber();
    SampleDigits();
  }

  /** The bytes 78 56 34 12 of a DWORD are written `dword:12345678`, and that line
      is read back as the same four bytes. */
  lemma DwordSample(rest: Text)
    ensures ValueRendition(DwordSampleValue(), false) == DwordLine()
    ensures OneValue(Current, DwordLine() + rest) == Ok((DwordSampleValue(), rest))
  {
    DwordText();
    ValueRoundTrip(DwordSampleValue(), rest);
  }

  /** `@=dword:12345678` CRLF. */
  function DwordLine(): Text {
    [AtSign, EqualsSign] + DwordData()
  }

  /** `dword:12345678` CRLF. */
  function DwordData(): Text {
    DwordPrefix + [Colon] + Digits + NewLines
  }

  function StringSampleValue(): RegistryValue {
    RegistryValue([], REG_SZ, [0x41, 0x00, 0x42, 0x00])
  }

  /** `@=hex(1):41,00,42,00` CRLF. */
  function StringLine(): Text {
    [AtSign, EqualsSign] + StringData()
  }

  /** `hex(1):41,00,42,00` CRLF. */
  function StringData(): Text {
    HexPrefix + [OpenParen, 0x31, CloseParen, Colon] + ABBytes + NewLines
  }

  lemma SampleUnits()
    ensures BytesToUnits(StringSampleValue().Data) == [0x41, 0x42]
    ensures !Quotable(BytesToUnits(StringSampleValue().Data))
  {
    var d := StringSampleValue().Data;
    assert d[2..] == [0x42, 0x00] && d[2..][2..] == [];
  }

  lemma SampleBytes()
    ensures HexPadded(0x41, 2) == [0x34, 0x31] && HexPadded(0x42, 2) == [0x34, 0x32]
    ensures HexPadded(0, 2) == [0x30, 0x30]
  {
    NumeralStep(4, 1);
    NumeralStep(4, 2);
    assert Zeros(0) == [] && Zeros(1) == [0x30];
  }

  lemma SampleBody()
    ensures HexBody(StringSampleValue().Data, 9) == ABBytes
  {
    var d := StringSampleValue().Data;
    SampleBytes();
    HexBodyStep(d, 0, 9);
    HexBodyStep(d, 1, 12);
    HexBodyStep(d, 2, 15);
    HexBodyStep(d, 3, 18);
    assert d[0..] == d;
  }

  /** The type token of a REG_SZ written in hexadecimal: `hex(1):`. */
  lemma TypeOne()
    ensures HexTypeText(REG_SZ) == HexPrefix + [OpenParen, 0x31, CloseParen, Colon]
  {
    assert HexNumeral(1) == [0x31];
  }

  lemma StringText()
    ensures ValueRendition(StringSampleValue(), false) == StringLine()
  {
    var v := StringSampleValue();
    DefaultPrefix();
    assert ValueRendition(v, false) == [AtSign, EqualsSign] + DataRendition(2, v, false);
    StringAsHex();
    StringHexText();
  }

  lemma StringAsHex()
    ensures DataRendition(2, StringSampleValue(), false) == BinaryRendition(2, StringSampleValue())
  {
    SampleUnits();
  }

  lemma StringHexText()
    ensures BinaryRendition(2, StringSampleValue()) == StringData()
  {
    TypeOne();
    SampleBody();
  }

  /** A REG_SZ whose code units (`A`, `B`) end without a NUL is not written as a
      string but in hexadecimal, with its type, and is read back as it was. */
  lemma StringSample(rest: Text)
    ensures ValueRendition(StringSampleValue(), false) == StringLine()
    ensures OneValue(Current, StringLine() + rest) == Ok((StringSampleValue(), rest))
  {
    StringText();
    ValueRoundTrip(StringSampleValue(), rest);
  }

  /** The body of forty-one zero bytes that start at column 4. */
  lemma WrapBody(b: seq<byte>)
    requires |b| == 41 && forall i :: 0 <= i < 41 ==> b[i] == 0
    ensures HexBody(b, 4) == Unbroken(b[..25]) + EscapedNewLine + Spaces(2) + (Unbroken(b[25..40]) + [0x30, 0x30])
  {
    HexBodyBreak(b, 4, 24);
    var c := b[25..];
    HexBodyOneLine(c, 2);
    WrapSlices(b);
    assert HexPadded(0, 2) == [0x30, 0x30] by { assert HexNumeral(0) == [0x30] && Zeros(1) == [0x30]; }
  }

  lemma WrapSlices(b: seq<byte>)
    requires |b| == 41 && b[40] == 0
    ensures b[25..][..15] == b[25..40] && b[25..][15] == 0 && |b[25..]| == 16
  {
  }

  /** Forty-one zero bytes written with nothing before them on the line: `hex:` and
      25 bytes with their commas make 79 columns, and the `\` the 80th; the other 16
      bytes follow on one line after two spaces. */
  lemma WrapSample(b: seq<byte>)
    requires |b| == 41 && forall i :: 0 <= i < 41 ==> b[i] == 0
    ensures BinaryRendition(0, RegistryValue([], REG_BINARY, b))
         == HexPrefix + [Colon] + Unbroken(b[..25]) + EscapedNewLine + Spaces(2)
            + Unbroken(b[25..40]) + [0x30, 0x30] + NewLines
    ensures |HexPrefix + [Colon] + Unbroken(b[..25]) + [Backslash]| == HexWrappingLimit
  {
    assert HexTypeText(REG_BINARY) == HexPrefix + [Colon];
    WrapBody(b);
  }

  // ---------------------------------------------------------------------------
  // Trees and files
  // ---------------------------------------------------------------------------

  function NestedSample(): RegistryKey {
    RegistryKey(Root, [RegistryKey(A, [RegistryKey(B, [], [])], [])], [])
  }

  /** `[` + path + `]` CRLF. */
  function Line(path: Text): Text {
    [OpenBracket] + path + KeyClosingAtEOL
  }

  /** A key with no values and one subkey. */
  lemma OneChild(k: RegistryKey, P: Text)
    requires |k.Subkeys| == 1 && k.Values == []
    ensures KeyRendition(k, P, false)
         == KeyHeader(KeyPath(P, k.Name)) + NewLines + KeyRendition(k.Subkeys[0], KeyPath(P, k.Name), false)
  {
    var path := KeyPath(P, k.Name);
    assert ValuesRendition(k.Values, false) == [];
    assert KeysRendition(k.Subkeys, path, false) == KeyRendition(k.Subkeys[0], path, false) + KeysRendition([], path, false);
  }

  /** A key with no values and no subkeys. */
  lemma Leaf(k: RegistryKey, P: Text)
    requires k.Subkeys == [] && k.Values == []
    ensures KeyRendition(k, P, false) == KeyHeader(KeyPath(P, k.Name)) + NewLines
  {
    assert ValuesRendition(k.Values, false) == [];
    assert KeysRendition(k.Subkeys, KeyPath(P, k.Name), false) == [];
  }

  lemma SamplePaths()
    ensures Expand(Root + [Backslash] + A) == Root + [Backslash] + A
    ensures Expand(Root + [Backslash] + A + [Backslash] + B) == Root + [Backslash] + A + [Backslash] + B
  {
    PlainNames();
    Plain([Backslash]);
    var pa := Root + [Backslash] + A;
    ExpandAppend(Root, [Backslash]);
    ExpandAppend(Root + [Backslash], A);
    ExpandAppend(pa, [Backslash]);
    ExpandAppend(pa + [Backslash], B);
  }

  /** Three nested keys are written as three headers with full paths, each followed
      by a blank line. */
  lemma NestedKeysText()
    ensures RegfileText(NestedSample(), false)
         == Preamble + Line(Root) + NewLines + Line(Root + [Backslash] + A) + NewLines
            + Line(Root + [Backslash] + A + [Backslash] + B) + NewLines
  {
    var k := NestedSample();
    var a, b := k.Subkeys[0], k.Subkeys[0].Subkeys[0];
    var pa := Root + [Backslash] + A;
    var pb := pa + [Backslash] + B;
    PlainNames();
    SamplePaths();
    OneChild(k, []);
    OneChild(a, Root);
    Leaf(b, pa);
    assert KeyPath([], Root) == Root && KeyPath(Root, A) == pa && KeyPath(pa, B) == pb;
    var hk, ha, hb := KeyHeader(Root), KeyHeader(pa), KeyHeader(pb);
    assert hk == Line(Root) && ha == Line(pa) && hb == Line(pb);
    assert RegfileText(k, false) == Preamble + (hk + NewLines + (ha + NewLines + (hb + NewLines)));
    Regroup3(Preamble, hk, ha, hb);
  }

  lemma Regroup3(p: Text, x: Text, y: Text, z: Text)
    ensures p + (x + NewLines + (y + NewLines + (z + NewLines))) == p + x + NewLines + y + NewLines + z + NewLines
  {
  }

  /** The file is read back as the same tree. */
  lemma NestedKeysRead()
    ensures RegfileToInternal(Current, RegfileText(NestedSample(), false)) == Ok(NestedSample())
  {
    var k := NestedSample();
    var a, b := k.Subkeys[0], k.Subkeys[0].Subkeys[0];
    PlainNames();
    assert Nested(b);
    assert Nested(a);
    assert Readable(k);
    RegfileRoundTrip(k);
  }

  /** A file whose key has one value and no blank line after it, then a second
      header: the parser reads the header as a value line and rejects the file. */
  lemma MissingBlankLineSample()
    ensures RegfileToInternal(Current, Preamble + Line(Root) + (DwordLine() + (Line(Root + [Backslash] + A) + NewLines)))
         == Err(Malformed)
  {
    var next := Line(Root + [Backslash] + A) + NewLines;
    var x := DwordLine() + next;
    DwordSample(next);
    AtHeader(next);
    assert Line(Root + [Backslash] + A)[0] == OpenBracket;
    FirstValue(DwordLine(), next, DwordSampleValue());
    RootFileErr(x);
  }

  /** Without the blank line at the very end the file is still accepted. */
  lemma MissingFinalBlankLineSample()
    ensures RegfileToInternal(Current, Preamble + Line(Root) + DwordLine())
         == Ok(RegistryKey(Root, [], [DwordSampleValue()]))
  {
    var x := DwordLine();
    DwordSample([]);
    assert x + [] == x;
    FirstValue(x, [], DwordSampleValue());
    assert ValueList(Current, []) == Ok(([], []));
    assert [DwordSampleValue()] + [] == [DwordSampleValue()];
    RootFileOk(x, [DwordSampleValue()]);
  }

  /** A line starting with `[` is not a value. */
  lemma AtHeader(s: Text)
    requires s != [] && s[0] == OpenBracket
    ensures ValueList(Current, s) == Err(Malformed)
  {
    if |s| >= 2 {
      assert s[..2][0] == s[0];
    }
  }

  /** A value line read first, then the values after it. */
  lemma FirstValue(line: Text, r: Text, v: RegistryValue)
    requires line != [] && line[0] == AtSign && OneValue(Current, line + r) == Ok((v, r))
    ensures ValueList(Current, line + r) == Prefixed([v], ValueList(Current, r))
  {
    var s := line + r;
    assert s[0] == AtSign;
    if |s| >= 2 {
      assert s[..2][0] == s[0];
    }
  }

  /** A file holding the header `[Root]` and then `x`, when the values fail. */
  lemma RootFileErr(x: Text)
    requires ValueList(Current, x) == Err(Malformed)
    ensures RegfileToInternal(Current, Preamble + Line(Root) + x) == Err(Malformed)
  {
    var s := Preamble + Line(Root) + x;
    Header(s, x);
    var t := s[|Preamble|..];
    assert RegList(Current, t, []) == KeysLoop(Current, t, []);
  }

  /** A file holding the header `[Root]` and then `x`, when the values take all of it. */
  lemma RootFileOk(x: Text, vs: seq<RegistryValue>)
    requires ValueList(Current, x) == Ok((vs, []))
    ensures RegfileToInternal(Current, Preamble + Line(Root) + x) == Ok(RegistryKey(Root, [], vs))
  {
    var s := Preamble + Line(Root) + x;
    Header(s, x);
    var t := s[|Preamble|..];
    assert t[1..5][0..] == Root;
    assert RegList(Current, t, []) == KeysLoop(Current, t, []);
  }

  /** The header `[Root]` at the top of a file after the preamble: the parser finds
      its path and goes on with `x`. */
  lemma Header(s: Text, x: Text)
    requires s == Preamble + Line(Root) + x
    ensures StartsWith(s, Preamble)
    ensures var t := s[|Preamble|..];
      t != [] && SkipNewLines(t) == t && t[0] == OpenBracket
      && Find(t, KeyClosingAtEOL, 1) == Some(5) && t[1..5] == Root && t[8..] == x
    ensures Fold(Root) == Root
  {
    PlainNames();
    var t := [OpenBracket] + Root + KeyClosingAtEOL + x;
    assert s == Preamble + t;
    assert s[..|Preamble|] == Preamble && s[|Preamble|..] == t;
    HeaderFind(Root, x);
  }
}
