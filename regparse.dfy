/** What the .reg text parser (src/RegfileToInternal.cpp, and its older copy
    RegfileToInternal.cpp at the repository root) makes of a text: each step of the
    parser is a function from the text still to be read to what it reads and the
    text after it. The imperative parser in regreader.dfy is proved to compute these. */
module RegParse {
  import opened Registry
  import opened Tokens
  import opened Substitute

  /** The current parser, or the older copy. The older copy does not fold CRLF in key
      names, does not skip CRLFs when a key list starts, does not skip the indentation
      after a continued hex line and has no trailing-CRLF strip after a key. */
  datatype Variant = Current | Legacy

  /** What reading the data of a value gives: its type, its bytes and the text after. */
  datatype DataParse = DataParse(Type: u32, Bytes: seq<byte>, rest: Text)

  /** `acc` put in front of what a successful step read. */
  function Prefixed<T>(acc: seq<T>, r: Result<(seq<T>, Text)>): (r': Result<(seq<T>, Text)>)
    ensures r'.Ok? <==> r.Ok?
    ensures r.Ok? ==> r'.value == (acc + r.value.0, r.value.1)
    ensures r.Err? ==> r' == r
  {
    match r
    case Ok((t, rest)) => Ok((acc + t, rest))
    case Err(e) => Err(e)
  }

  lemma PrefixedPrefixed<T>(a: seq<T>, b: seq<T>, r: Result<(seq<T>, Text)>)
    ensures Prefixed(a, Prefixed(b, r)) == Prefixed(a + b, r)
  {
    if r.Ok? {
      assert a + (b + r.value.0) == (a + b) + r.value.0;
    }
  }

  lemma PrefixedEmpty<T>(r: Result<(seq<T>, Text)>)
    ensures Prefixed([], r) == r
  {
    if r.Ok? {
      assert [] + r.value.0 == r.value.0;
    }
  }

  // ---------------------------------------------------------------------------
  // Quoted runs: value names and REG_SZ data
  // ---------------------------------------------------------------------------

  /** The text after an opening quote, read up to the closing quote: a backslash
      stands for the unit after it, a CR just before an LF is dropped, any other unit
      stands for itself. A missing closing quote, or a unit that is not a quote in the
      last position, is an error. Gives the decoded units and the text after the
      closing quote (src/RegfileToInternal.cpp:79-114 and 283-321). */
  function QuotedRun(s: Text): (r: Result<(Text, Text)>)
    ensures r.Ok? ==> |r.value.1| < |s|
    decreases |s|
  {
    if |s| == 0 then Err(Malformed)
    else if s[0] == Quote then Ok(([], s[1..]))
    else if |s| < 2 then Err(Malformed)
    else if s[0] == Backslash then Prefixed([s[1]], QuotedRun(s[2..]))
    else if s[0] == CR && s[1] == LF then QuotedRun(s[1..])
    else Prefixed([s[0]], QuotedRun(s[1..]))
  }

  /** A value name: `@` for the default value (an empty name), or a quoted run. */
  function ValueName(s: Text): (r: Result<(Text, Text)>)
    ensures r.Ok? ==> |r.value.1| < |s|
  {
    if |s| > 0 && s[0] == AtSign then Ok(([], s[1..]))
    else if |s| > 0 && s[0] == Quote then QuotedRun(s[1..])
    else Err(Malformed)
  }

  // ---------------------------------------------------------------------------
  // Value data
  // ---------------------------------------------------------------------------

  /** After `dword:`: eight hex digits then CRLF; the value is stored little-endian.
      The source reads the digits through a stream and accepts them when writing the
      number back gives the same eight units up to case; DwordCheck shows that this
      is the test written here. */
  function DwordData(s: Text): (r: Result<DataParse>)
    ensures r.Ok? ==> |r.value.rest| < |s|
  {
    if |s| <= 8 || !AllHexDigits(s[..8]) || !StartsWith(s[8..], NewLines) then Err(Malformed)
    else Ok(DataParse(REG_DWORD, ToLE(HexValue(s[..8]), 4), s[10..]))
  }

  /** How many hex digits `s` starts with: the index `find_first_not_of` returns,
      or |s| where it returns npos. */
  function HexRunLength(s: Text): (k: nat)
    ensures k <= |s| && AllHexDigits(s[..k]) && (k < |s| ==> !IsHexDigit(s[k]))
  {
    if s == [] || !IsHexDigit(s[0]) then 0
    else
      var k := 1 + HexRunLength(s[1..]);
      assert s[..k] == [s[0]] + s[1..][..k - 1];
      k
  }

  /** After `hex`: `(T)` with at least one hex digit gives type T; no parenthesis
      gives REG_BINARY. A T that does not fit a DWORD leaves the source's stream
      extraction failed and the type unspecified. */
  function HexTypeSpec(s: Text): (r: Result<(u32, Text)>)
    ensures r.Ok? ==> |r.value.1| <= |s|
  {
    if |s| == 0 then Err(Malformed)
    else if s[0] != OpenParen then Ok((REG_BINARY, s))
    else
      var t := s[1..];
      var k := HexRunLength(t);
      if k == |t| || k == 0 || t[k] != CloseParen then Err(Malformed)
      else if HexValue(t[..k]) > MAXDWORD then Err(Indeterminate)
      else Ok((HexValue(t[..k]), t[k + 1..]))
  }

  /** Leading spaces removed. */
  function SkipSpaces(s: Text): (t: Text)
    ensures |t| <= |s| && (t == [] || t[0] != Space)
  {
    if s != [] && s[0] == Space then SkipSpaces(s[1..]) else s
  }

  /** The byte two hex digits denote. */
  function HexByte(hi: char16, lo: char16): byte
    requires IsHexDigit(hi) && IsHexDigit(lo)
  {
    16 * DigitValue(hi) + DigitValue(lo)
  }

  /** The bytes after `hex…:`: pairs of hex digits, `,` skipped, a continuation
      `\` CRLF skipped (and, in the current parser, the spaces after it), up to CRLF.
      The end of the text or any other unit is an error. */
  function HexData(v: Variant, s: Text): (r: Result<(seq<byte>, Text)>)
    ensures r.Ok? ==> |r.value.1| < |s|
    decreases |s|
  {
    if |s| == 0 then Err(Malformed)
    else if StartsWith(s, NewLines) then Ok(([], s[2..]))
    else if s[0] == Comma then HexData(v, s[1..])
    else if StartsWith(s, EscapedNewLine) then
      HexData(v, if v == Current then SkipSpaces(s[3..]) else s[3..])
    else if |s| >= 2 && IsHexDigit(s[0]) && IsHexDigit(s[1]) then
      Prefixed([HexByte(s[0], s[1])], HexData(v, s[2..]))
    else Err(Malformed)
  }

  /** `hex:` or `hex(T):` and the bytes. */
  function HexValueData(v: Variant, s: Text): (r: Result<DataParse>)
    ensures r.Ok? ==> |r.value.rest| < |s|
  {
    match HexTypeSpec(s)
    case Err(e) => Err(e)
    case Ok((t, r1)) =>
      if |r1| == 0 || r1[0] != Colon then Err(Malformed)
      else
        match HexData(v, r1[1..])
        case Err(e) => Err(e)
        case Ok((bytes, r2)) => Ok(DataParse(t, bytes, r2))
  }

  /** After the opening quote of string data: REG_SZ whose bytes are the decoded
      units and one NUL, little-endian; CRLF must follow . */
  function StringData(s: Text): (r: Result<DataParse>)
    ensures r.Ok? ==> |r.value.rest| < |s|
  {
    match QuotedRun(s)
    case Err(e) => Err(e)
    case Ok((text, r1)) =>
      if !StartsWith(r1, NewLines) then Err(Malformed)
      else Ok(DataParse(REG_SZ, UnitsToBytes(text + [NUL]), r1[2..]))
  }

  /** The data after `=`: `dword:`, then `hex`, then a quote are tried in turn. Any
      other text leaves the value's type unassigned in the source. */
  function ValueData(v: Variant, s: Text): (r: Result<DataParse>)
    ensures r.Ok? ==> |r.value.rest| < |s|
  {
    if StartsWith(s, DwordPrefixColon) then DwordData(s[|DwordPrefixColon|..])
    else if StartsWith(s, HexPrefix) then HexValueData(v, s[|HexPrefix|..])
    else if |s| > 0 && s[0] == Quote then StringData(s[1..])
    else Err(Indeterminate)
  }

  /** One value: name, `=`, data. */
  function OneValue(v: Variant, s: Text): (r: Result<(RegistryValue, Text)>)
    ensures r.Ok? ==> |r.value.1| < |s|
  {
    match ValueName(s)
    case Err(e) => Err(e)
    case Ok((name, r1)) =>
      if |r1| == 0 || r1[0] != EqualsSign || |r1| == 1 then Err(Malformed)
      else
        match ValueData(v, r1[1..])
        case Err(e) => Err(e)
        case Ok(d) => Ok((RegistryValue(name, d.Type, d.Bytes), d.rest))
  }

  /** All leading CRLFs removed. */
  function SkipNewLines(s: Text): (t: Text)
    ensures |t| <= |s| && !StartsWith(t, NewLines)
    decreases |s|
  {
    if StartsWith(s, NewLines) then SkipNewLines(s[2..]) else s
  }

  /** The values of a key, in document order: they end with the text, or at a line
      that is empty, all of whose CRLFs are then consumed. */
  function ValueList(v: Variant, s: Text): (r: Result<(seq<RegistryValue>, Text)>)
    ensures r.Ok? ==> |r.value.1| <= |s|
    decreases |s|
  {
    if s == [] then Ok(([], s))
    else if StartsWith(s, NewLines) then Ok(([], SkipNewLines(s)))
    else
      match OneValue(v, s)
      case Err(e) => Err(e)
      case Ok((value, r1)) => Prefixed([value], ValueList(v, r1))
  }

  // ---------------------------------------------------------------------------
  // Keys
  // ---------------------------------------------------------------------------

  /** After a key of the current parser: a CR of a CRLF is dropped. */
  function PostStrip(s: Text): (t: Text)
    ensures |t| <= |s|
  {
    if StartsWith(s, NewLines) then s[1..] else s
  }

  /** The keys whose paths extend `prefix`, read from `s`
      (src/RegfileToInternal.cpp:348-437). The current parser first drops CRLFs; an
      empty text is an error. */
  function RegList(v: Variant, s: Text, prefix: Text): (r: Result<(seq<RegistryKey>, Text)>)
    ensures r.Ok? ==> |r.value.1| <= |s|
    decreases |s|, 1
  {
    var s1 := if v == Current then SkipNewLines(s) else s;
    if s1 == [] then Err(Malformed) else KeysLoop(v, s1, prefix)
  }

  /** One turn of the key loop and the turns after it. A header line starts with `[`
      and its path runs to the first `]` CRLF. A path that does not strictly extend
      `prefix` belongs to a caller: the loop stops there, consuming nothing. Otherwise
      the key is read: its name is the rest of the path (with CRLF folded to LF in
      the current parser), its values, then its descendants under `path\`. */
  function KeysLoop(v: Variant, s: Text, prefix: Text): (r: Result<(seq<RegistryKey>, Text)>)
    requires s != []
    ensures r.Ok? ==> |r.value.1| <= |s|
    decreases |s|, 0
  {
    if s[0] != OpenBracket then Err(Malformed)
    else
      match Find(s, KeyClosingAtEOL, 1)
      case None => Err(Malformed)
      case Some(e) =>
        var path := s[1..e];
        if |path| <= |prefix| || path[..|prefix|] != prefix then Ok(([], s))
        else
          match ValueList(v, s[e + 3..])
          case Err(err) => Err(err)
          case Ok((values, r2)) =>
            var below: Result<(seq<RegistryKey>, Text)> :=
              if r2 == [] then Ok(([], r2)) else RegList(v, r2, path + [Backslash]);
            match below
            case Err(err) => Err(err)
            case Ok((subkeys, r3)) =>
              var name := path[|prefix|..];
              var key := RegistryKey(if v == Current then Fold(name) else name, subkeys, values);
              var r4 := if v == Current then PostStrip(r3) else r3;
              if r4 == [] then Ok(([key], r4)) else Prefixed([key], KeysLoop(v, r4, prefix))
  }

  /** The whole file: the preamble, then exactly one top-level key and nothing after
      it (src/RegfileToInternal.cpp:500-536). */
  function RegfileToInternal(v: Variant, s: Text): (r: Result<RegistryKey>)
  {
    if !StartsWith(s, Preamble) then Err(Malformed)
    else
      match RegList(v, s[|Preamble|..], [])
      case Err(e) => Err(e)
      case Ok((keys, rest)) =>
        if |keys| != 1 || rest != [] then Err(Malformed) else Ok(keys[0])
  }
}
