/** Where the hexadecimal rendition breaks its lines (src/InternalToRegfile.cpp:41-61):
    the byte after which the continuation is written is the first whose comma takes
    the column past HexWrappingLimit - 4, and nothing breaks after the last byte. */
module HexLayout {
  import opened Registry
  import opened Tokens
  import opened RegRender

  /** Bytes written on one line: two lower-case digits and a comma each. */
  function Unbroken(b: seq<byte>): (t: Text)
    ensures |t| == 3 * |b|
  {
    if b == [] then []
    else
      ByteWidth(b[0]);
      HexPadded(b[0], 2) + [Comma] + Unbroken(b[1..])
  }

  lemma ByteWidth(x: byte)
    ensures |HexPadded(x, 2)| == 2
  {
    assert Pow16(2) == 0x100;
    HexPaddedRoundTrip(x, 2);
  }

  lemma UnbrokenCons(b: seq<byte>, k: nat)
    requires 1 <= k <= |b|
    ensures Unbroken(b[..k]) == HexPadded(b[0], 2) + [Comma] + Unbroken(b[1..k])
  {
    assert b[..k][0] == b[0] && b[..k][1..] == b[1..k];
  }

  /** While the column stays within the limit the bytes go on one line: the first `k`
      bytes (none of them the last) are written with their commas and no break. */
  lemma {:induction false} HexBodyUnbroken(b: seq<byte>, col: nat, k: nat)
    requires k < |b| && col + 3 * k <= HexWrappingLimit - 4
    ensures HexBody(b, col) == Unbroken(b[..k]) + HexBody(b[k..], col + 3 * k)
    decreases k
  {
    if k == 0 {
      assert b[..0] == [] && b[0..] == b;
      assert Unbroken([]) == [];
    } else {
      var c, end := col + 3, col + 3 * k;
      var x := HexPadded(b[0], 2) + [Comma];
      FirstOnLine(b, col, c);
      HexBodyUnbroken(b[1..], c, k - 1);
      Tails(b, k, c, end);
      UnbrokenCons(b, k);
      Regroup(x, Unbroken(b[1..k]), HexBody(b[k..], end));
    }
  }

  /** The first byte and its comma, when the line has room for them. */
  lemma FirstOnLine(b: seq<byte>, col: nat, c: nat)
    requires 1 < |b| && col + 3 <= HexWrappingLimit - 4 && c == col + 3
    ensures HexBody(b, col) == HexPadded(b[0], 2) + [Comma] + HexBody(b[1..], c)
  {
  }

  lemma Tails(b: seq<byte>, k: nat, c: nat, end: nat)
    requires 1 <= k < |b| && end == c + 3 * (k - 1)
    ensures Unbroken(b[1..][..k - 1]) + HexBody(b[1..][k - 1..], c + 3 * (k - 1))
         == Unbroken(b[1..k]) + HexBody(b[k..], end)
  {
    assert b[1..][..k - 1] == b[1..k] && b[1..][k - 1..] == b[k..];
  }

  lemma Regroup(x: Text, u: Text, h: Text)
    ensures x + (u + h) == (x + u) + h
  {
  }

  /** The line breaks after byte `k + 1` when the comma after it is the first to take
      the column past the limit: those bytes and their commas, then `\` CRLF and two
      spaces, and the rest from column 2. */
  lemma HexBodyBreak(b: seq<byte>, col: nat, k: nat)
    requires k + 1 < |b| && col + 3 * k <= HexWrappingLimit - 4 && col + 3 * (k + 1) > HexWrappingLimit - 4
    ensures HexBody(b, col) == Unbroken(b[..k + 1]) + EscapedNewLine + Spaces(HexNewLineLeadingSpaces)
                               + HexBody(b[k + 1..], HexNewLineLeadingSpaces)
  {
    HexBodyUnbroken(b, col, k);
    var c := b[k..];
    HexBodyStep(c, 0, col + 3 * k);
    assert c[0..] == c && c[0] == b[k] && c[1..] == b[k + 1..];
    UnbrokenSnoc(b, k);
  }

  lemma UnbrokenSnoc(b: seq<byte>, k: nat)
    requires k < |b|
    ensures Unbroken(b[..k + 1]) == Unbroken(b[..k]) + HexPadded(b[k], 2) + [Comma]
  {
    UnbrokenAppend(b[..k], [b[k]]);
    assert b[..k + 1] == b[..k] + [b[k]];
    assert [b[k]][1..] == [];
  }

  lemma {:induction false} UnbrokenAppend(a: seq<byte>, c: seq<byte>)
    ensures Unbroken(a + c) == Unbroken(a) + Unbroken(c)
  {
    if a == [] {
      assert a + c == c;
    } else {
      assert (a + c)[0] == a[0] && (a + c)[1..] == a[1..] + c;
      UnbrokenAppend(a[1..], c);
    }
  }

  /** A body whose last comma stays within the limit is one line, ending with the
      last byte's digits: no comma and no break follow the last byte. */
  lemma HexBodyOneLine(b: seq<byte>, col: nat)
    requires b != [] && col + 3 * (|b| - 1) <= HexWrappingLimit - 4
    ensures HexBody(b, col) == Unbroken(b[..|b| - 1]) + HexPadded(b[|b| - 1], 2)
  {
    var k := |b| - 1;
    HexBodyUnbroken(b, col, k);
    HexBodyStep(b[k..], 0, col + 3 * k);
    assert b[k..][0..] == b[k..] && b[k..][0] == b[k] && |b[k..]| == 1;
  }
}
