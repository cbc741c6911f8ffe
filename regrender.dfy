/** What the .reg renderer (src/InternalToRegfile.cpp, and its older copy
    InternalToRegfile.cpp at the repository root) writes, as functions of the tree.
    The older renderer writes what the current one writes with extensions off. The
    imperative renderer in regwriter.dfy is proved to write these texts. */
module RegRender {
  import opened Registry
  import opened Tokens
  import opened Substitute

  // ---------------------------------------------------------------------------
  // Hexadecimal rendition (src/InternalToRegfile.cpp:19-74)
  // ---------------------------------------------------------------------------

  /** `hex:` for REG_BINARY, otherwise `hex(` + the type in lower-case hex + `):`. */
  function HexTypeText(t: u32): (s: Text)
  {
    HexPrefix + HexTypeSuffix(t)
  }

  /** What follows `hex` in the type token. */
  function HexTypeSuffix(t: u32): (s: Text)
  {
    (if t != REG_BINARY then [OpenParen] + HexNumeral(t) + [CloseParen] else []) + [Colon]
  }

  /** The bytes, from the column `col` at which the first one is written: two
      lower-case digits each, a comma between two bytes; when the line has grown past
      HexWrappingLimit - 4 columns after a comma, a `\` CRLF and two spaces follow and
      the column is 2. */
  function HexBody(b: seq<byte>, col: nat): (t: Text)
    decreases |b|
  {
    if b == [] then []
    else if |b| == 1 then HexPadded(b[0], 2)
    else if col + 3 > HexWrappingLimit - 4 then
      HexPadded(b[0], 2) + [Comma] + EscapedNewLine + Spaces(HexNewLineLeadingSpaces) + HexBody(b[1..], HexNewLineLeadingSpaces)
    else HexPadded(b[0], 2) + [Comma] + HexBody(b[1..], col + 3)
  }

  /** HexBody from the i-th byte: that byte, then nothing after the last byte, or a
      comma, the continuation if the line is full, and the bytes after. */
  lemma HexBodyStep(b: seq<byte>, i: nat, col: nat)
    requires i < |b|
    ensures i + 1 == |b| ==> HexBody(b[i..], col) == HexPadded(b[i], 2)
    ensures i + 1 < |b| && col + 3 > HexWrappingLimit - 4 ==>
      HexBody(b[i..], col) == HexPadded(b[i], 2) + [Comma] + EscapedNewLine + Spaces(HexNewLineLeadingSpaces) + HexBody(b[i + 1..], HexNewLineLeadingSpaces)
    ensures i + 1 < |b| && col + 3 <= HexWrappingLimit - 4 ==>
      HexBody(b[i..], col) == HexPadded(b[i], 2) + [Comma] + HexBody(b[i + 1..], col + 3)
  {
    assert b[i..][0] == b[i] && b[i..][1..] == b[i + 1..];
  }

  /** RenderBinaryValue: `first` units are already on the line. */
  function BinaryRendition(first: nat, v: RegistryValue): (t: Text)
  {
    var spec := HexTypeText(v.Type);
    spec + HexBody(v.Data, first + |spec|) + NewLines
  }

  // ---------------------------------------------------------------------------
  // Data renditions by type (src/InternalToRegfile.cpp:83-318)
  // ---------------------------------------------------------------------------

  /** RenderDwordValue: four bytes as a little-endian number in eight digits. */
  function DwordRendition(first: nat, v: RegistryValue): (t: Text)
  {
    if |v.Data| != 4 then BinaryRendition(first, v)
    else DwordPrefix + [Colon] + HexPadded(FromLE(v.Data), 8) + NewLines
  }

  /** RenderQwordValue: eight bytes as a little-endian number in sixteen digits. */
  function QwordRendition(first: nat, v: RegistryValue): (t: Text)
  {
    if |v.Data| != 8 then BinaryRendition(first, v)
    else QwordPrefix + [Colon] + HexPadded(FromLE(v.Data), 16) + NewLines
  }

  /** Code units that RenderStringValue writes as a quoted string: one NUL, at the end. */
  predicate Quotable(u: Text) {
    u != [] && u[|u| - 1] == NUL && NUL !in u[..|u| - 1]
  }

  /** RenderStringValue: a quoted, escaped string when the data is an even number of
      bytes forming a Quotable string, otherwise the hexadecimal rendition. */
  function StringRendition(first: nat, v: RegistryValue): (t: Text)
  {
    if |v.Data| % 2 != 0 || !Quotable(BytesToUnits(v.Data)) then BinaryRendition(first, v)
    else
      var u := BytesToUnits(v.Data);
      [Quote] + Escape(u[..|u| - 1]) + [Quote] + NewLines
  }

  /** The index of the first NUL in `u`, |u| if there is none. */
  function NulIndex(u: Text): (n: nat)
    ensures n <= |u| && NUL !in u[..n] && (n < |u| ==> u[n] == NUL)
  {
    if u == [] then 0
    else if u[0] == NUL then 0
    else
      var n := 1 + NulIndex(u[1..]);
      assert u[..n] == [u[0]] + u[1..][..n - 1];
      n
  }

  /** The first string of `u`, up to its NUL, quoted and escaped; the closing quote
      is written only when a NUL ends it (src/InternalToRegfile.cpp:275-303). */
  function StringPiece(u: Text): (t: Text)
  {
    var n := NulIndex(u);
    [Quote] + EscapeUnits(u[..n]) + (if n < |u| then [Quote] else [])
  }

  /** What follows the first string of `u` and its NUL. */
  function AfterString(u: Text): (a: Text)
    ensures u != [] ==> |a| < |u|
  {
    var n := NulIndex(u);
    if n < |u| then u[n + 1..] else []
  }

  /** The strings of a multi-string value from `u` on. Each is written as a
      StringPiece; between two, a comma, then, when the line counter passes
      MultiSzWrappingLimit - 2, a `\` CRLF and `first` spaces. The counter `col` is
      advanced by the whole length `pend` of the text written since the last line
      break (src/InternalToRegfile.cpp:273-314). */
  function MultiSzStrings(u: Text, first: nat, col: nat, pend: nat): (t: Text)
    decreases |u|
  {
    if u == [] then []
    else
      var piece, after := StringPiece(u), AfterString(u);
      if after == [] then piece + NewLines
      else
        var pend' := pend + |piece| + 1;
        if col + pend' > MultiSzWrappingLimit - 2 then
          piece + [Comma] + EscapedNewLine + Spaces(first) + MultiSzStrings(after, first, first, first)
        else piece + [Comma] + MultiSzStrings(after, first, col + pend', pend')
  }

  /** RenderMultiSzValue with the type token `spec` (`multi_sz` or `expand_sz`):
      strings when the data is an even, non-zero number of bytes ending in a NUL
      unit, otherwise the hexadecimal rendition. */
  function MultiSzRendition(first: nat, spec: Text, v: RegistryValue): (t: Text)
  {
    var u := BytesToUnits(v.Data);
    if |v.Data| % 2 != 0 || u == [] || u[|u| - 1] != NUL then BinaryRendition(first, v)
    else spec + [Colon] + MultiSzStrings(u, first, first, |spec| + 1)
  }

  // ---------------------------------------------------------------------------
  // Values and keys (src/InternalToRegfile.cpp:327-517)
  // ---------------------------------------------------------------------------

  /** `@=` for the default value, otherwise the escaped name in quotes and `=`. */
  function ValuePrefix(name: Text): (t: Text)
  {
    var e := Escape(name);
    if e == [] then [AtSign, EqualsSign] else [Quote] + e + [Quote, EqualsSign]
  }

  /** The data rendition RenderRegistryValue chooses; `ext` enables the qword,
      multi_sz and expand_sz renditions. */
  function DataRendition(first: nat, v: RegistryValue, ext: bool): (t: Text)
  {
    if v.Type == REG_DWORD then DwordRendition(first, v)
    else if v.Type == REG_SZ then StringRendition(first, v)
    else if v.Type == REG_QWORD && ext then QwordRendition(first, v)
    else if v.Type == REG_MULTI_SZ && ext then MultiSzRendition(first, MultiSzPrefix, v)
    else if v.Type == REG_EXPAND_SZ && ext then MultiSzRendition(first, ExpandSzPrefix, v)
    else BinaryRendition(first, v)
  }

  /** One value line (or lines, when wrapped); the prefix length is the first column. */
  function ValueRendition(v: RegistryValue, ext: bool): (t: Text)
  {
    var prefix := ValuePrefix(v.Name);
    prefix + DataRendition(|prefix|, v, ext)
  }

  /** The values of a key, in order. */
  function ValuesRendition(vs: seq<RegistryValue>, ext: bool): (t: Text)
  {
    if vs == [] then [] else ValueRendition(vs[0], ext) + ValuesRendition(vs[1..], ext)
  }

  /** The path of a key: its name at the top, otherwise the parent's path, `\`, the name. */
  function KeyPath(pathSoFar: Text, name: Text): (p: Text)
  {
    if pathSoFar == [] then name else pathSoFar + [Backslash] + name
  }

  /** The header `[path]` CRLF, with LF in the path written as CRLF. */
  function KeyHeader(path: Text): (t: Text)
  {
    [OpenBracket] + Expand(path) + KeyClosingAtEOL
  }

  /** RenderRegistryKeyToRegFormat: header, values, an empty line, then the subkeys,
      each with its own subkeys, in order. */
  function KeyRendition(k: RegistryKey, pathSoFar: Text, ext: bool): (t: Text)
    decreases k
  {
    var path := KeyPath(pathSoFar, k.Name);
    KeyHeader(path) + ValuesRendition(k.Values, ext) + NewLines + KeysRendition(k.Subkeys, path, ext)
  }

  function KeysRendition(ks: seq<RegistryKey>, pathSoFar: Text, ext: bool): (t: Text)
    decreases ks
  {
    if ks == [] then [] else KeyRendition(ks[0], pathSoFar, ext) + KeysRendition(ks[1..], pathSoFar, ext)
  }

  /** InternalToRegfile: the preamble, then the root key at an empty path. */
  function RegfileText(k: RegistryKey, ext: bool): (t: Text)
  {
    Preamble + KeyRendition(k, [], ext)
  }

  lemma {:induction false} ValuesRenditionAppend(a: seq<RegistryValue>, b: seq<RegistryValue>, ext: bool)
    ensures ValuesRendition(a + b, ext) == ValuesRendition(a, ext) + ValuesRendition(b, ext)
  {
    if a != [] {
      assert (a + b)[0] == a[0] && (a + b)[1..] == a[1..] + b;
      ValuesRenditionAppend(a[1..], b, ext);
    } else {
      assert a + b == b;
    }
  }

  lemma {:induction false} KeysRenditionAppend(a: seq<RegistryKey>, b: seq<RegistryKey>, path: Text, ext: bool)
    ensures KeysRendition(a + b, path, ext) == KeysRendition(a, path, ext) + KeysRendition(b, path, ext)
  {
    if a != [] {
      assert (a + b)[0] == a[0] && (a + b)[1..] == a[1..] + b;
      KeysRenditionAppend(a[1..], b, path, ext);
    } else {
      assert a + b == b;
    }
  }
}
