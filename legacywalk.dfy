/** The key walk of the older parser (RegfileToInternal.cpp at the repository root)
    beside the current one: where a key list may start, and what a key is named. */
module LegacyWalk {
  import opened Registry
  import opened Tokens
  import opened Substitute
  import opened RegParse
  import opened RegRender
  import opened TreeRoundTrip

  /** An empty key list is an error in both parsers. Blank lines before a key list are
      passed over by the current parser; the older one takes the first of them as a
      line that does not start with `[`, and fails. */
  lemma KeyListStart(s: Text, q: Text)
    ensures RegList(Legacy, [], q) == Err(Malformed) && RegList(Current, [], q) == Err(Malformed)
    ensures RegList(Legacy, NewLines + s, q) == Err(Malformed)
    ensures RegList(Current, NewLines + s, q) == RegList(Current, s, q)
  {
    var t := NewLines + s;
    assert t[0] == CR;
    assert t[..2] == NewLines && t[2..] == s;
  }

  /** A file holding one key with no values and no subkeys is read by both parsers:
      the current one folds each CRLF in the name to LF, the older one keeps the name
      as it is written. */
  lemma HeaderOnly(v: Variant, e: Text)
    requires e != [] && NoClose(e)
    ensures RegfileToInternal(v, Preamble + ([OpenBracket] + e + KeyClosingAtEOL + NewLines))
         == Ok(RegistryKey(if v == Current then Fold(e) else e, [], []))
  {
    var s := [OpenBracket] + e + KeyClosingAtEOL + NewLines;
    HeaderFind(e, NewLines);
    assert NewLines[..2] == NewLines && NewLines[2..] == [];
    assert ValueList(v, NewLines) == Ok(([], []));
    assert e[..0] == [] && e[0..] == e;
    RegListAtHeader(v, s, []);
    var f := Preamble + s;
    assert f[..|Preamble|] == Preamble && f[|Preamble|..] == s;
  }

  /** Writing LF as CRLF never shortens a text, and lengthens one that holds an LF. */
  lemma {:induction false} MapUnitLonger(s: Text)
    ensures |MapUnit(s, LF, NewLines)| >= |s|
    ensures LF in s ==> |MapUnit(s, LF, NewLines)| > |s|
    decreases |s|
  {
    if s != [] {
      MapUnitLonger(s[1..]);
      assert s == [s[0]] + s[1..];
    }
  }

  /** A key name holding an LF, as the renderer writes it: the current parser reads
      the name back, the older one reads it with CRLF in place of each LF, which is a
      different name. */
  lemma LegacyKeepsCRLF(n: Text)
    requires NameOk(n) && LF in n
    ensures RegfileToInternal(Legacy, RegfileText(RegistryKey(n, [], []), false)) == Ok(RegistryKey(Expand(n), [], []))
    ensures RegfileToInternal(Current, RegfileText(RegistryKey(n, [], []), false)) == Ok(RegistryKey(n, [], []))
    ensures Expand(n) != n
  {
    var k := RegistryKey(n, [], []);
    var e := Expand(n);
    ExpandName(n);
    assert KeyPath([], n) == n;
    assert ValuesRendition([], false) == [] && KeysRendition([], n, false) == [];
    assert KeyRendition(k, [], false) == KeyHeader(n) + [] + NewLines + [];
    assert RegfileText(k, false) == Preamble + ([OpenBracket] + e + KeyClosingAtEOL + NewLines);
    HeaderOnly(Legacy, e);
    HeaderOnly(Current, e);
    FoldExpand(n);
    SubstUnit(n, LF, NewLines);
    MapUnitLonger(n);
  }
}
