/** The .reg renderer as the source runs it (src/InternalToRegfile.cpp and its
    older copy InternalToRegfile.cpp): wide-string streams built step by step and
    written to the output file, a line counter updated in the byte loop, loops over
    values and subkeys. Each method is proved to write what RegRender describes. */
module RegWriter {
  import opened Registry
  import opened Tokens
  import opened Substitute
  import opened RegRender

  /** The output file: what has been written to it so far. */
  class TextSink {
    var contents: Text

    constructor ()
      ensures contents == []
    {
      contents := [];
    }

    /** WriteStringBufferToFile, which appends the whole buffer. */
    method Write(t: Text)
      modifies this
      ensures contents == old(contents) + t
    {
      contents := contents + t;
    }
  }

  /** One turn of the byte loop of RenderBinaryValue: the byte's two digits and,
      unless it is the last byte, a comma and, when the line has grown past the
      limit, the continuation (src/InternalToRegfile.cpp:43-60). */
  method AppendHexByte(stream: Text, curLineSizeSoFar: nat, b: seq<byte>, i: nat)
    returns (stream': Text, curLineSizeSoFar': nat)
    requires i < |b|
    ensures stream' + HexBody(b[i + 1..], curLineSizeSoFar') == stream + HexBody(b[i..], curLineSizeSoFar)
  {
    HexBodyStep(b, i, curLineSizeSoFar);
    var digits := HexPadded(b[i], 2);
    stream' := stream + digits;
    curLineSizeSoFar' := curLineSizeSoFar + 2;
    if i + 1 != |b| {
      stream' := stream' + [Comma];
      curLineSizeSoFar' := curLineSizeSoFar' + 1;
      if curLineSizeSoFar' > HexWrappingLimit - 4 {
        stream' := stream' + EscapedNewLine;
        ghost var s1 := stream';
        for spaceCount := 0 to HexNewLineLeadingSpaces
          invariant stream' == s1 + Spaces(spaceCount)
        {
          assert Spaces(spaceCount + 1) == Spaces(spaceCount) + [Space];
          stream' := stream' + [Space];
        }
        curLineSizeSoFar' := HexNewLineLeadingSpaces;
        Regroup4(stream, digits + [Comma], EscapedNewLine, Spaces(HexNewLineLeadingSpaces), HexBody(b[i + 1..], curLineSizeSoFar'));
      } else {
        Regroup3(stream, digits, [Comma], HexBody(b[i + 1..], curLineSizeSoFar'));
      }
    } else {
      assert b[i + 1..] == [];
    }
  }

  lemma Regroup3(s: Text, a: Text, b: Text, c: Text)
    ensures s + a + b + c == s + (a + b + c)
  {
  }

  lemma Regroup4(s: Text, a: Text, b: Text, c: Text, d: Text)
    ensures s + a + b + c + d == s + (a + b + c + d)
  {
  }

  /** RenderBinaryValue (src/InternalToRegfile.cpp:19-74). */
  method RenderBinaryValue(f: TextSink, first: nat, v: RegistryValue)
    modifies f
    ensures f.contents == old(f.contents) + BinaryRendition(first, v)
  {
    var stream := HexPrefix;
    if v.Type != REG_BINARY {
      stream := stream + [OpenParen] + HexNumeral(v.Type) + [CloseParen];
    }
    stream := stream + [Colon];
    assert stream == HexTypeText(v.Type);
    var curLineSizeSoFar: nat := first + |stream|;
    ghost var whole := stream + HexBody(v.Data, curLineSizeSoFar);
    assert v.Data[0..] == v.Data;
    for i := 0 to |v.Data|
      invariant stream + HexBody(v.Data[i..], curLineSizeSoFar) == whole
      invariant f.contents == old(f.contents)
    {
      stream, curLineSizeSoFar := AppendHexByte(stream, curLineSizeSoFar, v.Data, i);
    }
    assert v.Data[|v.Data|..] == [];
    assert stream + [] == stream == whole;
    stream := stream + NewLines;
    f.Write(stream);
  }

  /** RenderDwordValue (src/InternalToRegfile.cpp:83-114). */
  method RenderDwordValue(f: TextSink, first: nat, v: RegistryValue)
    modifies f
    ensures f.contents == old(f.contents) + DwordRendition(first, v)
  {
    if |v.Data| != 4 {
      RenderBinaryValue(f, first, v);
      return;
    }
    f.Write(DwordPrefix + [Colon] + HexPadded(FromLE(v.Data), 8) + NewLines);
  }

  /** RenderQwordValue (src/InternalToRegfile.cpp:123-154). */
  method RenderQwordValue(f: TextSink, first: nat, v: RegistryValue)
    modifies f
    ensures f.contents == old(f.contents) + QwordRendition(first, v)
  {
    if |v.Data| != 8 {
      RenderBinaryValue(f, first, v);
      return;
    }
    f.Write(QwordPrefix + [Colon] + HexPadded(FromLE(v.Data), 16) + NewLines);
  }

  /** The three substitutions of value names and string data, in order. */
  method EscapeString(s: Text) returns (t: Text)
    ensures t == Escape(s)
  {
    t := GlobalStringSubstitute(s, [Backslash], [Backslash, Backslash]);
    t := GlobalStringSubstitute(t, [Quote], [Backslash, Quote]);
    t := GlobalStringSubstitute(t, [LF], NewLines);
  }

  /** RenderStringValue (src/InternalToRegfile.cpp:163-212). */
  method RenderStringValue(f: TextSink, first: nat, v: RegistryValue)
    modifies f
    ensures f.contents == old(f.contents) + StringRendition(first, v)
  {
    if |v.Data| % 2 != 0 {
      RenderBinaryValue(f, first, v);
      return;
    }
    var w := BytesToUnits(v.Data);
    if w == [] || w[|w| - 1] != NUL || NUL in w[..|w| - 1] {
      RenderBinaryValue(f, first, v);
      return;
    }
    w := w[..|w| - 1];
    w := EscapeString(w);
    f.Write([Quote] + w + [Quote] + NewLines);
  }

  /** MultiSzStrings after the last string: its piece and the end of the line. */
  lemma MultiSzLast(u: Text, first: nat, col: nat, pend: nat)
    requires u != [] && AfterString(u) == []
    ensures MultiSzStrings(u, first, col, pend) == StringPiece(u) + NewLines
  {
  }

  /** MultiSzStrings after a string that passes the limit: the continuation. */
  lemma MultiSzWrap(u: Text, first: nat, col: nat, pend: nat, after: Text)
    requires u != [] && after == AfterString(u) && after != []
    requires col + (pend + |StringPiece(u)| + 1) > MultiSzWrappingLimit - 2
    ensures MultiSzStrings(u, first, col, pend) == StringPiece(u) + [Comma] + EscapedNewLine + Spaces(first) + MultiSzStrings(after, first, first, first)
  {
  }

  /** MultiSzStrings after a string that stays within the limit. */
  lemma MultiSzContinue(u: Text, first: nat, col: nat, pend: nat, after: Text, col': nat, pend': nat)
    requires u != [] && after == AfterString(u) && after != []
    requires pend' == pend + |StringPiece(u)| + 1 && col' == col + pend' && col' <= MultiSzWrappingLimit - 2
    ensures MultiSzStrings(u, first, col, pend) == StringPiece(u) + [Comma] + MultiSzStrings(after, first, col', pend')
  {
  }

  lemma NulAt(u: Text, k: nat)
    requires k < |u| && u[k] == NUL && NUL !in u[..k]
    ensures NulIndex(u) == k
  {
  }

  /** The inner loop of RenderMultiSzValue: the units of one string are taken from
      the front of `remainder` and written escaped, up to and including its NUL,
      which closes the quotes (src/InternalToRegfile.cpp:275-303). */
  method AppendString(stream: Text, remainder: Text) returns (stream': Text, remainder': Text)
    requires remainder != []
    ensures stream' == stream + StringPiece(remainder) && remainder' == AfterString(remainder)
  {
    stream' := stream + [Quote];
    remainder' := remainder;
    ghost var k: nat := 0;
    var closed := false;
    while remainder' != []
      invariant k <= |remainder| && remainder' == remainder[k..]
      invariant NUL !in remainder[..k] && stream' == stream + [Quote] + EscapeUnits(remainder[..k])
      decreases |remainder'|
    {
      var c := remainder'[0];
      remainder' := remainder'[1..];
      if c == NUL {
        closed := true;
        break;
      }
      assert remainder[..k + 1] == remainder[..k] + [c];
      EscapeUnitsAppend(remainder[..k], [c]);
      stream' := stream' + EscapeUnit(c);
      k := k + 1;
    }
    if closed {
      NulAt(remainder, k);
      Regroup3(stream, [Quote], EscapeUnits(remainder[..k]), [Quote]);
      stream' := stream' + [Quote];
    } else {
      assert remainder[..k] == remainder;
      Regroup3(stream, [Quote], EscapeUnits(remainder), []);
      assert stream' + [] == stream';
    }
  }

  /** RenderMultiSzValue (src/InternalToRegfile.cpp:222-318): one quoted string per
      NUL-terminated run, a comma between two, a continuation when the counter
      passes the limit; the pending stream is written out at each continuation. */
  method RenderMultiSzValue(f: TextSink, first: nat, typeSpecifier: Text, v: RegistryValue)
    modifies f
    ensures f.contents == old(f.contents) + MultiSzRendition(first, typeSpecifier, v)
  {
    if |v.Data| % 2 != 0 {
      RenderBinaryValue(f, first, v);
      return;
    }
    var w := BytesToUnits(v.Data);
    if w == [] || w[|w| - 1] != NUL {
      RenderBinaryValue(f, first, v);
      return;
    }
    var curLineSizeSoFar: nat := first;
    var stream := typeSpecifier + [Colon];
    var remainder := w;
    ghost var whole := f.contents + stream + MultiSzStrings(w, first, first, |stream|);
    assert stream + MultiSzStrings(w, first, first, |stream|) == MultiSzRendition(first, typeSpecifier, v);
    Regroup2(f.contents, stream, MultiSzStrings(w, first, first, |stream|));
    while remainder != []
      invariant f.contents + stream + MultiSzStrings(remainder, first, curLineSizeSoFar, |stream|) == whole
      decreases |remainder|
    {
      stream, remainder, curLineSizeSoFar := AppendNextString(f, first, stream, remainder, curLineSizeSoFar);
      if remainder == [] {
        assert f.contents + stream + [] == whole;
        f.Write(stream);
        return;
      }
    }
    f.Write(stream);
  }

  /** One turn of the outer loop of RenderMultiSzValue: the next string, then the
      line end after the last one, or a comma and, when the counter passes the
      limit, the continuation, with the pending stream written out
      (src/InternalToRegfile.cpp:259-314). */
  method AppendNextString(f: TextSink, first: nat, stream: Text, remainder: Text, curLineSizeSoFar: nat)
    returns (stream': Text, remainder': Text, curLineSizeSoFar': nat)
    modifies f
    requires remainder != []
    ensures |remainder'| < |remainder|
    ensures f.contents + stream' + MultiSzStrings(remainder', first, curLineSizeSoFar', |stream'|)
         == old(f.contents) + stream + MultiSzStrings(remainder, first, curLineSizeSoFar, |stream|)
  {
    curLineSizeSoFar' := curLineSizeSoFar;
    stream', remainder' := AppendString(stream, remainder);
    if remainder' == [] {
      stream' := stream' + NewLines;
      LastJoin(f.contents, stream, remainder, first, curLineSizeSoFar);
      return;
    }
    stream' := stream' + [Comma];
    curLineSizeSoFar' := curLineSizeSoFar' + |stream'|;
    if curLineSizeSoFar' > MultiSzWrappingLimit - 2 {
      stream' := BreakLine(f, first, stream');
      curLineSizeSoFar' := first;
      WrapJoin(old(f.contents), stream, remainder, first, curLineSizeSoFar, f.contents, stream');
    } else {
      ContinueJoin(f.contents, stream, remainder, first, curLineSizeSoFar, |stream'|, curLineSizeSoFar');
    }
  }

  /** The step after the last string, as a regrouping of the whole text. */
  lemma LastJoin(w: Text, s: Text, u: Text, first: nat, col: nat)
    requires u != [] && AfterString(u) == []
    ensures w + (s + StringPiece(u) + NewLines) + MultiSzStrings([], first, col, |s + StringPiece(u) + NewLines|)
         == w + s + MultiSzStrings(u, first, col, |s|)
  {
    MultiSzLast(u, first, col, |s|);
    Rejoin2(w, s, StringPiece(u), NewLines);
    assert s + StringPiece(u) + NewLines + [] == s + StringPiece(u) + NewLines;
  }

  /** The step after a string that passes the limit. */
  lemma WrapJoin(w: Text, s: Text, u: Text, first: nat, col: nat, written: Text, spaces: Text)
    requires u != [] && AfterString(u) != []
    requires col + |s + StringPiece(u) + [Comma]| > MultiSzWrappingLimit - 2
    requires written == w + (s + StringPiece(u) + [Comma] + EscapedNewLine) && spaces == Spaces(first)
    ensures written + spaces + MultiSzStrings(AfterString(u), first, first, |spaces|)
         == w + s + MultiSzStrings(u, first, col, |s|)
  {
    MultiSzWrap(u, first, col, |s|, AfterString(u));
    Rejoin4(w, s, StringPiece(u), [Comma], EscapedNewLine, Spaces(first), MultiSzStrings(AfterString(u), first, first, first));
  }

  /** The step after a string that stays within the limit. */
  lemma ContinueJoin(w: Text, s: Text, u: Text, first: nat, col: nat, pend: nat, col': nat)
    requires u != [] && AfterString(u) != []
    requires pend == |s| + |StringPiece(u)| + 1 && col' == col + pend && col' <= MultiSzWrappingLimit - 2
    ensures w + (s + StringPiece(u) + [Comma]) + MultiSzStrings(AfterString(u), first, col', pend)
         == w + s + MultiSzStrings(u, first, col, |s|)
  {
    MultiSzContinue(u, first, col, |s|, AfterString(u), col', pend);
    Rejoin2(w, s, StringPiece(u) + [Comma], MultiSzStrings(AfterString(u), first, col', pend));
    assert s + (StringPiece(u) + [Comma]) == s + StringPiece(u) + [Comma];
  }

  /** The line break inside a multi-string value: the pending stream and `\` CRLF
      are written out, and the new stream is the indentation of `first` spaces
      (src/InternalToRegfile.cpp:298-310). */
  method BreakLine(f: TextSink, first: nat, pending: Text) returns (stream: Text)
    modifies f
    ensures f.contents == old(f.contents) + (pending + EscapedNewLine)
    ensures stream == Spaces(first)
  {
    f.Write(pending + EscapedNewLine);
    stream := [];
    for spaceCount := 0 to first
      invariant stream == Spaces(spaceCount)
      invariant f.contents == old(f.contents) + (pending + EscapedNewLine)
    {
      assert Spaces(spaceCount + 1) == Spaces(spaceCount) + [Space];
      stream := stream + [Space];
    }
  }

  lemma SliceSnoc<T>(s: seq<T>, i: nat)
    requires i < |s|
    ensures s[..i + 1] == s[..i] + [s[i]]
  {
  }

  /** What has been written, the pending stream and what is still to come, regrouped
      once the stream has grown by `a`. */
  lemma Rejoin2(w: Text, s: Text, a: Text, rest: Text)
    ensures w + s + (a + rest) == w + (s + a) + rest
  {
  }

  /** The same when the stream, grown by `a`, `b` and `c`, has been written out and
      replaced by `d`. */
  lemma Rejoin4(w: Text, s: Text, a: Text, b: Text, c: Text, d: Text, rest: Text)
    ensures w + s + (a + b + c + d + rest) == w + (s + a + b + c) + d + rest
  {
  }

  /** RenderRegistryValue (src/InternalToRegfile.cpp:327-388): the name prefix, then
      the rendition chosen by type. */
  method RenderRegistryValue(f: TextSink, v: RegistryValue, ext: bool)
    modifies f
    ensures f.contents == old(f.contents) + ValueRendition(v, ext)
  {
    var escapedName := EscapeString(v.Name);
    var str := if escapedName == [] then [AtSign, EqualsSign] else [Quote] + escapedName + [Quote, EqualsSign];
    assert str == ValuePrefix(v.Name);
    f.Write(str);
    ghost var named := f.contents;
    var firstLineSizeSoFar := |str|;
    if v.Type == REG_DWORD {
      RenderDwordValue(f, firstLineSizeSoFar, v);
    } else if v.Type == REG_SZ {
      RenderStringValue(f, firstLineSizeSoFar, v);
    } else if v.Type == REG_QWORD && ext {
      RenderQwordValue(f, firstLineSizeSoFar, v);
    } else if v.Type == REG_MULTI_SZ && ext {
      RenderMultiSzValue(f, firstLineSizeSoFar, MultiSzPrefix, v);
    } else if v.Type == REG_EXPAND_SZ && ext {
      RenderMultiSzValue(f, firstLineSizeSoFar, ExpandSzPrefix, v);
    } else {
      RenderBinaryValue(f, firstLineSizeSoFar, v);
    }
    assert f.contents == named + DataRendition(firstLineSizeSoFar, v, ext);
    Regroup2(old(f.contents), str, DataRendition(firstLineSizeSoFar, v, ext));
  }

  lemma Regroup2(s: Text, a: Text, b: Text)
    ensures s + a + b == s + (a + b)
  {
  }

  /** The loop over a key's values in RenderRegistryKeyToRegFormat
      (src/InternalToRegfile.cpp:438-446). */
  method RenderValues(f: TextSink, vs: seq<RegistryValue>, ext: bool)
    modifies f
    ensures f.contents == old(f.contents) + ValuesRendition(vs, ext)
  {
    for i := 0 to |vs|
      invariant f.contents == old(f.contents) + ValuesRendition(vs[..i], ext)
    {
      SliceSnoc(vs, i);
      ValuesRenditionAppend(vs[..i], [vs[i]], ext);
      assert ValuesRendition([vs[i]], ext) == ValueRendition(vs[i], ext) by {
        assert [vs[i]][1..] == [];
      }
      Regroup2(old(f.contents), ValuesRendition(vs[..i], ext), ValueRendition(vs[i], ext));
      RenderRegistryValue(f, vs[i], ext);
    }
    assert vs[..|vs|] == vs;
  }

  /** RenderRegistryKeyToRegFormat (src/InternalToRegfile.cpp:398-468). */
  method RenderRegistryKeyToRegFormat(f: TextSink, k: RegistryKey, pathSoFar: Text, ext: bool)
    modifies f
    ensures f.contents == old(f.contents) + KeyRendition(k, pathSoFar, ext)
    decreases k
  {
    var newPath := if pathSoFar == [] then k.Name else pathSoFar + [Backslash] + k.Name;
    assert newPath == KeyPath(pathSoFar, k.Name);
    var escapedPath := GlobalStringSubstitute(newPath, [LF], NewLines);
    assert [OpenBracket] + escapedPath + [CloseBracket] + NewLines == KeyHeader(newPath);
    f.Write([OpenBracket] + escapedPath + [CloseBracket] + NewLines);
    RenderValues(f, k.Values, ext);
    f.Write(NewLines);
    RenderSubkeys(f, k.Subkeys, newPath, ext);
    Regroup4(old(f.contents), KeyHeader(newPath), ValuesRendition(k.Values, ext), NewLines, KeysRendition(k.Subkeys, newPath, ext));
  }

  /** The loop over a key's subkeys in RenderRegistryKeyToRegFormat, each rendered
      under the key's path (src/InternalToRegfile.cpp:457-465). */
  method RenderSubkeys(f: TextSink, ks: seq<RegistryKey>, path: Text, ext: bool)
    modifies f
    ensures f.contents == old(f.contents) + KeysRendition(ks, path, ext)
    decreases ks
  {
    for i := 0 to |ks|
      invariant f.contents == old(f.contents) + KeysRendition(ks[..i], path, ext)
    {
      SliceSnoc(ks, i);
      KeysRenditionAppend(ks[..i], [ks[i]], path, ext);
      assert KeysRendition([ks[i]], path, ext) == KeyRendition(ks[i], path, ext) by {
        assert [ks[i]][1..] == [];
      }
      Regroup2(old(f.contents), KeysRendition(ks[..i], path, ext), KeyRendition(ks[i], path, ext));
      RenderRegistryKeyToRegFormat(f, ks[i], path, ext);
    }
    assert ks[..|ks|] == ks;
  }

  /** InternalToRegfile (src/InternalToRegfile.cpp:470-517): a new file holding the
      preamble and the root key. */
  method InternalToRegfile(k: RegistryKey, ext: bool) returns (f: TextSink)
    ensures fresh(f) && f.contents == RegfileText(k, ext)
  {
    f := new TextSink();
    f.Write(Preamble);
    assert f.contents == Preamble;
    RenderRegistryKeyToRegFormat(f, k, [], ext);
  }
}
