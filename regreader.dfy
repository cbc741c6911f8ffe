/** The .reg text parser as the source runs it (src/RegfileToInternal.cpp and its
    older copy RegfileToInternal.cpp): a view on the text that each step shortens
    from the front, loops over it, and results appended to vectors. Each method is
    proved to give what the corresponding RegParse function describes. */
module RegReader {
  import opened Registry
  import opened Tokens
  import opened Substitute
  import opened RegParse

  /** The loop that reads a quoted run after its opening quote: an index walks the
      view, the decoded units go to a stream (src/RegfileToInternal.cpp:79-114). */
  method ReadQuoted(s: Text) returns (r: Result<(Text, Text)>)
    ensures r == QuotedRun(s)
  {
    var pos: nat := 0;
    var stream: Text := [];
    PrefixedEmpty(QuotedRun(s));
    while true
      invariant pos <= |s|
      invariant QuotedRun(s) == Prefixed(stream, QuotedRun(s[pos..]))
      decreases |s| - pos
    {
      if pos >= |s| {
        return Err(Malformed);
      }
      if s[pos] == Quote {
        break;
      }
      if pos + 1 >= |s| {
        return Err(Malformed);
      }
      if s[pos] == Backslash {
        assert s[pos..][2..] == s[pos + 2..];
        PrefixedPrefixed(stream, [s[pos + 1]], QuotedRun(s[pos + 2..]));
        stream := stream + [s[pos + 1]];
        pos := pos + 2;
      } else if s[pos] == CR && s[pos + 1] == LF {
        assert s[pos..][1..] == s[pos + 1..];
        pos := pos + 1;
      } else {
        assert s[pos..][1..] == s[pos + 1..];
        PrefixedPrefixed(stream, [s[pos]], QuotedRun(s[pos + 1..]));
        stream := stream + [s[pos]];
        pos := pos + 1;
      }
    }
    assert s[pos..][1..] == s[pos + 1..];
    assert stream + [] == stream;
    return Ok((stream, s[pos + 1..]));
  }

  /** The byte loop after `hex…:` (src/RegfileToInternal.cpp:235-278); the current
      parser also skips the spaces that indent a continued line. */
  method ReadHexBytes(v: Variant, s: Text) returns (r: Result<(seq<byte>, Text)>)
    ensures r == HexData(v, s)
  {
    var view := s;
    var bytes: seq<byte> := [];
    PrefixedEmpty(HexData(v, s));
    while true
      invariant HexData(v, s) == Prefixed(bytes, HexData(v, view))
      decreases |view|
    {
      if view == [] {
        return Err(Malformed);
      }
      if StartsWith(view, NewLines) {
        assert bytes + [] == bytes;
        return Ok((bytes, view[2..]));
      } else if view[0] == Comma {
        view := view[1..];
      } else if StartsWith(view, EscapedNewLine) {
        view := view[3..];
        if v == Current {
          ghost var after := view;
          while view != [] && view[0] == Space
            invariant SkipSpaces(view) == SkipSpaces(after) && |view| <= |after|
            decreases |view|
          {
            view := view[1..];
          }
        }
      } else if |view| >= 2 && IsHexDigit(view[0]) && IsHexDigit(view[1]) {
        PrefixedPrefixed(bytes, [HexByte(view[0], view[1])], HexData(v, view[2..]));
        bytes := bytes + [HexByte(view[0], view[1])];
        view := view[2..];
      } else {
        return Err(Malformed);
      }
    }
  }

  /** The data after `hex`: the type in parentheses, the colon, the bytes
      (src/RegfileToInternal.cpp:189-279). */
  method ReadHexData(v: Variant, s: Text) returns (r: Result<DataParse>)
    ensures r == HexValueData(v, s)
  {
    var spec := HexTypeSpec(s);
    if spec.Err? {
      return Err(spec.error);
    }
    var view := spec.value.1;
    if view == [] || view[0] != Colon {
      return Err(Malformed);
    }
    var bytes := ReadHexBytes(v, view[1..]);
    if bytes.Err? {
      return Err(bytes.error);
    }
    return Ok(DataParse(spec.value.0, bytes.value.0, bytes.value.1));
  }

  /** The data after `=` (src/RegfileToInternal.cpp:145-335). */
  method ReadValueData(v: Variant, s: Text) returns (r: Result<DataParse>)
    ensures r == ValueData(v, s)
  {
    if StartsWith(s, DwordPrefixColon) {
      r := DwordData(s[|DwordPrefixColon|..]);
    } else if StartsWith(s, HexPrefix) {
      r := ReadHexData(v, s[|HexPrefix|..]);
    } else if s != [] && s[0] == Quote {
      var text := ReadQuoted(s[1..]);
      if text.Err? {
        return Err(text.error);
      }
      var view := text.value.1;
      if !StartsWith(view, NewLines) {
        return Err(Malformed);
      }
      r := Ok(DataParse(REG_SZ, UnitsToBytes(text.value.0 + [NUL]), view[2..]));
    } else {
      r := Err(Indeterminate);
    }
  }

  /** One value: its name, `=`, its data (src/RegfileToInternal.cpp:70-337). */
  method ReadValue(v: Variant, s: Text) returns (r: Result<(RegistryValue, Text)>)
    ensures r == OneValue(v, s)
  {
    var name: Text;
    var view: Text;
    if s != [] && s[0] == AtSign {
      name, view := [], s[1..];
    } else if s != [] && s[0] == Quote {
      var q := ReadQuoted(s[1..]);
      if q.Err? {
        return Err(q.error);
      }
      name, view := q.value.0, q.value.1;
    } else {
      return Err(Malformed);
    }
    if view == [] || view[0] != EqualsSign {
      return Err(Malformed);
    }
    view := view[1..];
    if view == [] {
      return Err(Malformed);
    }
    var data := ReadValueData(v, view);
    if data.Err? {
      return Err(data.error);
    }
    return Ok((RegistryValue(name, data.value.Type, data.value.Bytes), data.value.rest));
  }

  /** ValueListToInternal (src/RegfileToInternal.cpp:18-339): values are read and
      appended until the text ends or an empty line, whose CRLFs are all consumed. */
  method ValueListToInternal(v: Variant, s: Text) returns (r: Result<(seq<RegistryValue>, Text)>)
    ensures r == ValueList(v, s)
  {
    var view := s;
    var values: seq<RegistryValue> := [];
    PrefixedEmpty(ValueList(v, s));
    while true
      invariant ValueList(v, s) == Prefixed(values, ValueList(v, view))
      decreases |view|
    {
      if view == [] {
        assert values + [] == values;
        return Ok((values, view));
      }
      if StartsWith(view, NewLines) {
        ghost var blank := view;
        while StartsWith(view, NewLines)
          invariant SkipNewLines(view) == SkipNewLines(blank)
          decreases |view|
        {
          view := view[2..];
        }
        assert values + [] == values;
        return Ok((values, view));
      }
      var value := ReadValue(v, view);
      if value.Err? {
        return Err(value.error);
      }
      PrefixedPrefixed(values, [value.value.0], ValueList(v, value.value.1));
      values := values + [value.value.0];
      view := value.value.1;
    }
  }

  /** The loop that drops the CR of a CRLF after a key: once it has dropped one the
      view starts with LF, so it runs at most once (src/RegfileToInternal.cpp:430-433). */
  method StripAfterKey(s: Text) returns (t: Text)
    ensures t == PostStrip(s)
  {
    t := s;
    while |t| >= 2 && t[0] == CR && t[1] == LF
      invariant t == s || (StartsWith(s, NewLines) && t == s[1..])
      decreases |t|
    {
      t := t[1..];
    }
  }

  /** RegListToInternal (src/RegfileToInternal.cpp:348-437): the keys under `prefix`,
      each with its values and, read recursively, its subkeys. */
  method RegListToInternal(v: Variant, s: Text, prefix: Text) returns (r: Result<(seq<RegistryKey>, Text)>)
    ensures r == RegList(v, s, prefix)
    decreases |s|
  {
    var view := s;
    if v == Current {
      while StartsWith(view, NewLines)
        invariant SkipNewLines(view) == SkipNewLines(s) && |view| <= |s|
        decreases |view|
      {
        view := view[2..];
      }
    }
    if view == [] {
      return Err(Malformed);
    }
    var keys: seq<RegistryKey> := [];
    PrefixedEmpty(KeysLoop(v, view, prefix));
    while true
      invariant view != [] && |view| <= |s|
      invariant RegList(v, s, prefix) == Prefixed(keys, KeysLoop(v, view, prefix))
      decreases |view|
    {
      if view[0] != OpenBracket {
        return Err(Malformed);
      }
      var endKeyPos := Find(view, KeyClosingAtEOL, 1);
      if endKeyPos.None? {
        return Err(Malformed);
      }
      var e := endKeyPos.value;
      var path := view[1..e];
      if |path| <= |prefix| || path[..|prefix|] != prefix {
        assert keys + [] == keys;
        return Ok((keys, view));
      }
      var name := path[|prefix|..];
      if v == Current {
        name := GlobalStringSubstitute(name, NewLines, [LF]);
      }
      var valuesRead := ValueListToInternal(v, view[e + 3..]);
      if valuesRead.Err? {
        return Err(valuesRead.error);
      }
      var rest := valuesRead.value.1;
      var subkeys: seq<RegistryKey> := [];
      if rest != [] {
        var below := RegListToInternal(v, rest, path + [Backslash]);
        if below.Err? {
          return Err(below.error);
        }
        subkeys, rest := below.value.0, below.value.1;
      }
      var key := RegistryKey(name, subkeys, valuesRead.value.0);
      if v == Current {
        rest := StripAfterKey(rest);
      }
      if rest == [] {
        return Ok((keys + [key], rest));
      }
      PrefixedPrefixed(keys, [key], KeysLoop(v, rest, prefix));
      keys := keys + [key];
      view := rest;
    }
  }

  /** The conversion once the file is in memory (src/RegfileToInternal.cpp:498-535):
      the preamble, then exactly one top-level key and no text after it. */
  method ReadRegfileText(v: Variant, contents: Text) returns (r: Result<RegistryKey>)
    ensures r == RegfileToInternal(v, contents)
  {
    if |contents| < |Preamble| || contents[..|Preamble|] != Preamble {
      return Err(Malformed);
    }
    var remainder := contents[|Preamble|..];
    var keys := RegListToInternal(v, remainder, []);
    if keys.Err? {
      return Err(keys.error);
    }
    if |keys.value.0| != 1 || keys.value.1 != [] {
      return Err(Malformed);
    }
    return Ok(keys.value.0[0]);
  }
}
