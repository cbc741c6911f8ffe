/** The older renderer (InternalToRegfile.cpp at the repository root) writes what the
    current renderer writes with extensions off. What the extensions change: only
    values of type REG_QWORD, REG_MULTI_SZ and REG_EXPAND_SZ, so a tree without them
    is written the same way in both modes and is read back by the current parser. */
module LegacyRender {
  import opened Registry
  import opened Tokens
  import opened RegParse
  import opened RegRender
  import opened TreeRoundTrip

  /** A type the extensions leave alone. */
  predicate PlainType(t: u32) {
    t != REG_QWORD && t != REG_MULTI_SZ && t != REG_EXPAND_SZ
  }

  /** No value anywhere in the tree has an extension type. */
  predicate NoExtensionTypes(k: RegistryKey)
    decreases k
  {
    (forall i :: 0 <= i < |k.Values| ==> PlainType(k.Values[i].Type))
    && forall i :: 0 <= i < |k.Subkeys| ==> NoExtensionTypes(k.Subkeys[i])
  }

  /** Four bytes are written as `dword:`, eight lower-case digits and CRLF, and the
      digits denote the little-endian number the bytes hold; any other length is
      written in hexadecimal at the same column. */
  lemma DwordDigits(first: nat, v: RegistryValue)
    ensures |v.Data| != 4 ==> DwordRendition(first, v) == BinaryRendition(first, v)
    ensures |v.Data| == 4 ==> var r := DwordRendition(first, v);
      |r| == 16 && r[..6] == DwordPrefix + [Colon] && r[14..] == NewLines
      && AllHexDigits(r[6..14]) && (forall i :: 6 <= i < 14 ==> IsLowerHexDigit(r[i]))
      && ToLE(HexValue(r[6..14]), 4) == v.Data
  {
    if |v.Data| == 4 {
      var n := FromLE(v.Data);
      Pow16Of8();
      HexPaddedRoundTrip(n, 8);
      PaddedIsLower(n, 8);
      ToFromLE(v.Data);
      var d := HexPadded(n, 8);
      var r := DwordRendition(first, v);
      assert r == DwordPrefix + [Colon] + d + NewLines;
      assert r[6..14] == d;
    }
  }

  /** Without extensions a value is written as a DWORD, a REG_SZ or in hexadecimal.
      Turning the extensions on changes nothing for the other types, and does change
      an eight-byte REG_QWORD. */
  lemma ValueWithoutExtensions(v: RegistryValue)
    ensures var p := ValuePrefix(v.Name);
      ValueRendition(v, false)
      == p + (if v.Type == REG_DWORD then DwordRendition(|p|, v)
              else if v.Type == REG_SZ then StringRendition(|p|, v)
              else BinaryRendition(|p|, v))
    ensures PlainType(v.Type) ==> ValueRendition(v, true) == ValueRendition(v, false)
    ensures v.Type == REG_QWORD && |v.Data| == 8 ==> ValueRendition(v, true) != ValueRendition(v, false)
  {
    if v.Type == REG_QWORD && |v.Data| == 8 {
      var p := ValuePrefix(v.Name);
      var on, off := ValueRendition(v, true), ValueRendition(v, false);
      assert on[|p|] == QwordPrefix[0];
      assert off[|p|] == HexTypeText(v.Type)[0];
    }
  }

  lemma {:induction false} ValuesWithoutExtensions(vs: seq<RegistryValue>)
    requires forall i :: 0 <= i < |vs| ==> PlainType(vs[i].Type)
    ensures ValuesRendition(vs, true) == ValuesRendition(vs, false)
    decreases |vs|
  {
    if vs != [] {
      ValueWithoutExtensions(vs[0]);
      ValuesWithoutExtensions(vs[1..]);
    }
  }

  /** A key whose tree has no extension types is written the same way with and
      without extensions. */
  lemma {:induction false} KeyWithoutExtensions(k: RegistryKey, P: Text)
    requires NoExtensionTypes(k)
    ensures KeyRendition(k, P, true) == KeyRendition(k, P, false)
    decreases k, 1
  {
    ValuesWithoutExtensions(k.Values);
    KeysWithoutExtensions(k.Subkeys, KeyPath(P, k.Name));
  }

  lemma {:induction false} KeysWithoutExtensions(ks: seq<RegistryKey>, P: Text)
    requires forall i :: 0 <= i < |ks| ==> NoExtensionTypes(ks[i])
    ensures KeysRendition(ks, P, true) == KeysRendition(ks, P, false)
    decreases ks, 0
  {
    if ks != [] {
      KeyWithoutExtensions(ks[0], P);
      KeysWithoutExtensions(ks[1..], P);
    }
  }

  /** A tree without extension types is written the same way by the older and the
      current renderer, in either mode, and the current parser reads it back. */
  lemma FileWithoutExtensions(k: RegistryKey)
    requires NoExtensionTypes(k)
    ensures RegfileText(k, true) == RegfileText(k, false)
    ensures Readable(k) ==> RegfileToInternal(Current, RegfileText(k, true)) == Ok(k)
  {
    KeyWithoutExtensions(k, []);
    if Readable(k) {
      RegfileRoundTrip(k);
    }
  }
}
