/** What the current .reg parser makes of a whole file the renderer writes with
    extensions off: every tree whose key names can be told apart in a header comes
    back unchanged (RegfileRoundTrip). A header is `[`, the key's path with LF
    written as CRLF, `]` CRLF; the parser takes the first `]` CRLF after the `[` as
    the end of the path and reads a key as a child of the key before it exactly when
    its path extends that key's path and a backslash. */
module TreeRoundTrip {
  import opened Registry
  import opened Tokens
  import opened Substitute
  import opened RegParse
  import opened RegRender
  import opened RoundTrip

  // ---------------------------------------------------------------------------
  // The trees that come back
  // ---------------------------------------------------------------------------

  /** No `]` CRLF in `t`. */
  predicate NoClose(t: Text) {
    forall j :: 0 <= j < |t| ==> !OccursAt(t, KeyClosingAtEOL, j)
  }

  /** A name that ends where its header says: not empty, and no `]` CRLF once its
      LFs are written as CRLF. */
  predicate NameOk(n: Text) {
    n != [] && NoClose(Expand(n))
  }

  /** A key below the top of the tree: its name has no backslash either, so that a
      sibling's path never looks like a child's, and the same holds all the way down. */
  predicate Nested(k: RegistryKey)
    decreases k
  {
    NameOk(k.Name) && Backslash !in k.Name
    && forall i :: 0 <= i < |k.Subkeys| ==> Nested(k.Subkeys[i])
  }

  /** A tree the parser reads back: the top key's name may hold backslashes (it is
      usually a path such as `HKEY_LOCAL_MACHINE\SOFTWARE`), the keys below are Nested. */
  predicate Readable(k: RegistryKey) {
    NameOk(k.Name) && forall i :: 0 <= i < |k.Subkeys| ==> Nested(k.Subkeys[i])
  }

  /** What the parser holds as the prefix of the children of the key at `path`. */
  function PrefixOf(path: Text): (q: Text)
  {
    if path == [] then [] else Expand(path) + [Backslash]
  }

  /** A path whose header can be found. */
  predicate Open(path: Text) {
    path == [] || NoClose(Expand(path))
  }

  /** `p` strictly extends `q`: the test by which the parser takes a header as one of
      the keys it is reading. */
  predicate Extends(p: Text, q: Text) {
    |p| > |q| && p[..|q|] == q
  }

  /** Where the key loop under `q` stops without consuming anything: at the end of
      the text, or at a header whose path does not extend `q`. */
  predicate Stop(r: Text, q: Text) {
    r == [] || (r[0] == OpenBracket && Find(r, KeyClosingAtEOL, 1).Some?
                && !Extends(r[1..Find(r, KeyClosingAtEOL, 1).value], q))
  }

  // ---------------------------------------------------------------------------
  // Expanded names and paths
  // ---------------------------------------------------------------------------

  lemma {:induction false} MapUnitAvoids(s: Text, c: char16, r: Text, x: char16)
    requires x !in s && x !in r
    ensures x !in MapUnit(s, c, r)
    decreases |s|
  {
    if s != [] {
      MapUnitAvoids(s[1..], c, r, x);
    }
  }

  /** Expanding LFs adds no backslash and leaves a name non-empty. */
  lemma ExpandName(n: Text)
    ensures Backslash !in n ==> Backslash !in Expand(n)
    ensures n != [] ==> Expand(n) != []
  {
    SubstUnit(n, LF, NewLines);
    if Backslash !in n {
      MapUnitAvoids(n, LF, NewLines, Backslash);
    }
  }

  /** The expanded path of a key is its parent's prefix and its expanded name. */
  lemma ExpandPath(P: Text, n: Text)
    ensures Expand(KeyPath(P, n)) == PrefixOf(P) + Expand(n)
  {
    if P != [] {
      ExpandAppend(P + [Backslash], n);
      ExpandAppend(P, [Backslash]);
      SubstUnit([Backslash], LF, NewLines);
    }
  }

  /** A backslash joins two texts without making a `]` CRLF. */
  lemma NoCloseJoin(a: Text, b: Text)
    requires NoClose(a) && NoClose(b)
    ensures NoClose(a + [Backslash] + b)
  {
    var t := a + [Backslash] + b;
    forall j | 0 <= j < |t|
      ensures !OccursAt(t, KeyClosingAtEOL, j)
    {
      if j + 3 <= |t| {
        var w := t[j..j + 3];
        if j + 3 <= |a| {
          assert a[j..j + 3] == w;
          assert !OccursAt(a, KeyClosingAtEOL, j);
        } else if j >= |a| + 1 {
          var i := j - |a| - 1;
          assert b[i..i + 3] == w;
          assert !OccursAt(b, KeyClosingAtEOL, i);
        } else {
          assert w[|a| - j] == Backslash != KeyClosingAtEOL[|a| - j];
        }
      }
    }
  }

  /** The path of a key under an Open path is Open when the name is. */
  lemma PathOpen(P: Text, n: Text)
    requires Open(P) && NameOk(n)
    ensures Open(KeyPath(P, n)) && KeyPath(P, n) != []
    ensures NoClose(PrefixOf(P) + Expand(n))
  {
    ExpandPath(P, n);
    if P != [] {
      NoCloseJoin(Expand(P), Expand(n));
      assert PrefixOf(P) + Expand(n) == Expand(P) + [Backslash] + Expand(n);
    }
  }

  // ---------------------------------------------------------------------------
  // Headers
  // ---------------------------------------------------------------------------

  /** The parser finds the end of a header at its own `]` CRLF. */
  lemma HeaderFind(e: Text, x: Text)
    requires NoClose(e)
    ensures Find([OpenBracket] + e + KeyClosingAtEOL + x, KeyClosingAtEOL, 1) == Some(1 + |e|)
    ensures ([OpenBracket] + e + KeyClosingAtEOL + x)[1..1 + |e|] == e
    ensures ([OpenBracket] + e + KeyClosingAtEOL + x)[1 + |e| + 3..] == x
  {
    var s := [OpenBracket] + e + KeyClosingAtEOL + x;
    var c := 1 + |e|;
    assert s[c..c + 3] == KeyClosingAtEOL;
    forall j | 1 <= j < c
      ensures !OccursAt(s, KeyClosingAtEOL, j)
    {
      var w := s[j..j + 3];
      if j + 3 <= c {
        assert e[j - 1..j + 2] == w;
        assert !OccursAt(e, KeyClosingAtEOL, j - 1);
      } else {
        assert w[c - j] == CloseBracket != KeyClosingAtEOL[c - j];
      }
    }
    FindExact(s, KeyClosingAtEOL, 1, c);
  }

  /** What the key loop finds at the start of `s`: a header holding the path `e`,
      followed by `x`. */
  predicate HeaderOf(s: Text, f: nat, e: Text, x: Text) {
    s != [] && s[0] == OpenBracket && Find(s, KeyClosingAtEOL, 1) == Some(f)
    && f <= |s| - 3 && s[1..f] == e && s[f + 3..] == x
  }

  lemma HeaderAt(s: Text, e: Text, x: Text)
    requires NoClose(e) && s == [OpenBracket] + e + KeyClosingAtEOL + x
    ensures exists f :: HeaderOf(s, f, e, x)
  {
    HeaderFind(e, x);
    assert HeaderOf(s, 1 + |e|, e, x);
  }

  /** A rendered key, and what follows it, as the header and the rest. */
  lemma KeyShape(k: RegistryKey, P: Text, R: Text)
    ensures KeyRendition(k, P, false) + R
         == [OpenBracket] + Expand(KeyPath(P, k.Name)) + KeyClosingAtEOL
            + (ValuesRendition(k.Values, false) + NewLines + (KeysRendition(k.Subkeys, KeyPath(P, k.Name), false) + R))
  {
    var path := KeyPath(P, k.Name);
    Assoc5(KeyHeader(path), ValuesRendition(k.Values, false), NewLines, KeysRendition(k.Subkeys, path, false), R);
  }

  lemma Assoc5(a: Text, b: Text, c: Text, d: Text, e: Text)
    ensures a + b + c + d + e == a + (b + c + (d + e))
  {
  }

  /** A rendered key starts with its header. */
  lemma KeyHead(k: RegistryKey, P: Text, R: Text)
    ensures KeyRendition(k, P, false) + R != [] && (KeyRendition(k, P, false) + R)[0] == OpenBracket
  {
    KeyShape(k, P, R);
  }

  /** Rendered keys: the first, then the others. */
  lemma KeysShape(ks: seq<RegistryKey>, P: Text, R: Text)
    requires ks != []
    ensures KeysRendition(ks, P, false) + R == KeyRendition(ks[0], P, false) + (KeysRendition(ks[1..], P, false) + R)
  {
    var a, b := KeyRendition(ks[0], P, false), KeysRendition(ks[1..], P, false);
    assert KeysRendition(ks, P, false) == a + b;
    Assoc2(a, b, R);
  }

  lemma Assoc2(a: Text, b: Text, c: Text)
    ensures a + b + c == a + (b + c)
  {
  }

  /** Rendered keys start with a header. */
  lemma KeysHead(ks: seq<RegistryKey>, P: Text, R: Text)
    requires ks != []
    ensures KeysRendition(ks, P, false) + R != [] && (KeysRendition(ks, P, false) + R)[0] == OpenBracket
  {
    KeysShape(ks, P, R);
    KeyHead(ks[0], P, KeysRendition(ks[1..], P, false) + R);
  }

  /** The loop stops where Stop says, consuming nothing. */
  lemma StopLoop(v: Variant, r: Text, q: Text)
    requires r != [] && Stop(r, q)
    ensures KeysLoop(v, r, q) == Ok(([], r))
  {
  }

  /** Stopping under a prefix means stopping under any longer one. */
  lemma StopLonger(r: Text, q: Text, y: Text)
    requires Stop(r, q)
    ensures Stop(r, q + y)
  {
    if r != [] {
      var p := r[1..Find(r, KeyClosingAtEOL, 1).value];
      ExtendsShorter(p, q, y);
    }
  }

  lemma ExtendsShorter(p: Text, q: Text, y: Text)
    ensures Extends(p, q + y) ==> Extends(p, q)
  {
    if Extends(p, q + y) {
      assert p[..|q|] == (q + y)[..|q|];
    }
  }

  /** A sibling's header ends the children of the key named `n` before it. */
  lemma SiblingStop(ks: seq<RegistryKey>, P: Text, n: Text, R: Text)
    requires ks != [] && Nested(ks[0]) && Open(P) && n != []
    ensures Stop(KeysRendition(ks, P, false) + R, PrefixOf(KeyPath(P, n)))
  {
    var k := ks[0];
    var tail := KeysRendition(ks[1..], P, false) + R;
    KeysShape(ks, P, R);
    KeyShape(k, P, tail);
    PathOpen(P, k.Name);
    SiblingPaths(P, n, k.Name);
    HeaderStop(Expand(KeyPath(P, k.Name)), ValuesRendition(k.Values, false) + NewLines + (KeysRendition(k.Subkeys, KeyPath(P, k.Name), false) + tail),
               PrefixOf(KeyPath(P, n)));
  }

  /** A header whose path does not extend `q` stops the loop under `q`. */
  lemma HeaderStop(e: Text, x: Text, q: Text)
    requires NoClose(e) && !Extends(e, q)
    ensures Stop([OpenBracket] + e + KeyClosingAtEOL + x, q)
  {
    HeaderFind(e, x);
  }

  /** A sibling's path does not extend the prefix of the children of the key before it. */
  lemma SiblingPaths(P: Text, n: Text, m: Text)
    requires n != [] && Backslash !in m
    ensures !Extends(Expand(KeyPath(P, m)), PrefixOf(KeyPath(P, n)))
  {
    ExpandPath(P, m);
    ExpandPath(P, n);
    ExpandName(m);
    assert PrefixOf(KeyPath(P, n)) == PrefixOf(P) + Expand(n) + [Backslash];
    NotExtends(PrefixOf(P), Expand(n), Expand(m));
  }

  /** A path whose name part has no backslash does not extend a sibling's prefix. */
  lemma NotExtends(pp: Text, en: Text, e2: Text)
    requires Backslash !in e2
    ensures !Extends(pp + e2, pp + en + [Backslash])
  {
    var p, q := pp + e2, pp + en + [Backslash];
    if |p| > |q| {
      var i := |pp| + |en|;
      assert p[i] == e2[|en|] && q[i] == Backslash;
      assert p[..|q|][i] != q[i];
    }
  }

  // ---------------------------------------------------------------------------
  // Keys
  // ---------------------------------------------------------------------------

  /** One turn of the key loop on text of a known shape. */
  lemma KeysLoopStep(s: Text, f: nat, e: Text, x: Text, q: Text, name: Text, values: seq<RegistryValue>, r2: Text, subkeys: seq<RegistryKey>, r3: Text)
    requires HeaderOf(s, f, e, x)
    requires Extends(e, q) && Fold(e[|q|..]) == name
    requires ValueList(Current, x) == Ok((values, r2))
    requires (if r2 == [] then Ok(([], r2)) else RegList(Current, r2, e + [Backslash])) == Ok((subkeys, r3))
    requires r3 == [] || r3[0] == OpenBracket
    ensures KeysLoop(Current, s, q)
         == if r3 == [] then Ok(([RegistryKey(name, subkeys, values)], r3))
            else Prefixed([RegistryKey(name, subkeys, values)], KeysLoop(Current, r3, q))
  {
    PostStripAtHeader(r3);
  }

  lemma PostStripAtHeader(r: Text)
    requires r == [] || r[0] == OpenBracket
    ensures PostStrip(r) == r
  {
    if |r| >= 2 {
      assert r[..2][0] != NewLines[0];
    }
  }

  /** A rendered key is read as that key, and the loop goes on after it. */
  lemma {:induction false} KeyRoundTrip(k: RegistryKey, P: Text, R: Text)
    requires Readable(k) && Open(P)
    requires Stop(R, PrefixOf(KeyPath(P, k.Name)))
    ensures KeysLoop(Current, KeyRendition(k, P, false) + R, PrefixOf(P))
         == if R == [] then Ok(([k], R)) else Prefixed([k], KeysLoop(Current, R, PrefixOf(P)))
    decreases k
  {
    var path := KeyPath(P, k.Name);
    var e := Expand(path);
    var kr := KeysRendition(k.Subkeys, path, false) + R;
    var x := ValuesRendition(k.Values, false) + NewLines + kr;
    KeyShape(k, P, R);
    HeaderParts(P, k.Name);
    ValuesPart(k, path, R);
    if kr != [] {
      KeysRoundTrip(k.Subkeys, path, R);
      RegListAtHeader(Current, kr, PrefixOf(path));
    }
    var s := KeyRendition(k, P, false) + R;
    HeaderAt(s, e, x);
    var f :| HeaderOf(s, f, e, x);
    KeysLoopStep(s, f, e, x, PrefixOf(P), k.Name, k.Values, kr, k.Subkeys, R);
  }

  /** What the header of a key tells the parser. */
  lemma HeaderParts(P: Text, n: Text)
    requires Open(P) && NameOk(n)
    ensures NoClose(Expand(KeyPath(P, n)))
    ensures Extends(Expand(KeyPath(P, n)), PrefixOf(P))
    ensures Fold(Expand(KeyPath(P, n))[|PrefixOf(P)|..]) == n
    ensures Expand(KeyPath(P, n)) + [Backslash] == PrefixOf(KeyPath(P, n))
  {
    var e, q := Expand(KeyPath(P, n)), PrefixOf(P);
    PathOpen(P, n);
    ExpandPath(P, n);
    ExpandName(n);
    assert e[..|q|] == q && e[|q|..] == Expand(n);
    FoldExpand(n);
  }

  /** The values of a rendered key read back up to its subkeys. */
  lemma ValuesPart(k: RegistryKey, path: Text, R: Text)
    requires R == [] || R[0] == OpenBracket
    ensures ValueList(Current, ValuesRendition(k.Values, false) + NewLines + (KeysRendition(k.Subkeys, path, false) + R))
         == Ok((k.Values, KeysRendition(k.Subkeys, path, false) + R))
    ensures KeysRendition(k.Subkeys, path, false) + R == [] ==> k.Subkeys == [] && R == []
  {
    var kr := KeysRendition(k.Subkeys, path, false) + R;
    if k.Subkeys != [] {
      KeysHead(k.Subkeys, path, R);
    } else {
      assert kr == R;
    }
    ValuesRoundTrip(k.Values, kr);
  }

  /** At a header the current parser's key list is its key loop. */
  lemma RegListAtHeader(v: Variant, s: Text, q: Text)
    requires s != [] && s[0] == OpenBracket
    ensures RegList(v, s, q) == KeysLoop(v, s, q)
  {
    assert SkipNewLines(s) == s;
  }

  /** Rendered keys are read back as those keys, up to the text after them. */
  lemma {:induction false} KeysRoundTrip(ks: seq<RegistryKey>, P: Text, R: Text)
    requires (forall i :: 0 <= i < |ks| ==> Nested(ks[i])) && Open(P) && P != []
    requires Stop(R, PrefixOf(P))
    ensures KeysRendition(ks, P, false) + R != [] ==>
      KeysLoop(Current, KeysRendition(ks, P, false) + R, PrefixOf(P)) == Ok((ks, R))
    decreases ks
  {
    if ks == [] {
      assert KeysRendition(ks, P, false) + R == R;
      if R != [] {
        StopLoop(Current, R, PrefixOf(P));
      }
    } else {
      var r1 := KeysRendition(ks[1..], P, false) + R;
      KeysShape(ks, P, R);
      NextStop(ks, P, R);
      KeyRoundTrip(ks[0], P, r1);
      if r1 == [] {
        KeysEnd(ks, P, R);
      } else {
        KeysRoundTrip(ks[1..], P, R);
      }
      KeysCons(ks, KeyRendition(ks[0], P, false), r1, PrefixOf(P), R);
    }
  }

  /** The key loop reads a first key and then the rest. */
  lemma KeysCons(ks: seq<RegistryKey>, a: Text, r1: Text, q: Text, R: Text)
    requires ks != [] && a + r1 != []
    requires KeysLoop(Current, a + r1, q)
          == if r1 == [] then Ok(([ks[0]], r1)) else Prefixed([ks[0]], KeysLoop(Current, r1, q))
    requires r1 != [] ==> KeysLoop(Current, r1, q) == Ok((ks[1..], R))
    requires r1 == [] ==> ks[1..] == [] && R == []
    ensures KeysLoop(Current, a + r1, q) == Ok((ks, R))
  {
    assert [ks[0]] + ks[1..] == ks;
    if r1 == [] {
      assert [ks[0]] == ks;
      assert KeysLoop(Current, a + r1, q) == Ok(([ks[0]], r1));
      assert r1 == R;
    }
  }

  /** What follows the first of several keys ends its children. */
  lemma NextStop(ks: seq<RegistryKey>, P: Text, R: Text)
    requires ks != [] && (forall i :: 0 <= i < |ks| ==> Nested(ks[i])) && Open(P)
    requires Stop(R, PrefixOf(P))
    ensures Stop(KeysRendition(ks[1..], P, false) + R, PrefixOf(KeyPath(P, ks[0].Name)))
  {
    var n := ks[0].Name;
    assert Nested(ks[0]);
    if ks[1..] != [] {
      assert Nested(ks[1..][0]);
      SiblingStop(ks[1..], P, n, R);
    } else {
      ExpandPath(P, n);
      StopLonger(R, PrefixOf(P), Expand(n) + [Backslash]);
      assert PrefixOf(KeyPath(P, n)) == PrefixOf(P) + (Expand(n) + [Backslash]);
      assert KeysRendition(ks[1..], P, false) + R == R;
    }
  }

  /** Keys whose rendition leaves nothing after the first are that one key. */
  lemma KeysEnd(ks: seq<RegistryKey>, P: Text, R: Text)
    requires ks != [] && KeysRendition(ks[1..], P, false) + R == []
    ensures ks[1..] == [] && R == []
  {
    if ks[1..] != [] {
      KeysHead(ks[1..], P, R);
    }
  }

  // ---------------------------------------------------------------------------
  // Whole files
  // ---------------------------------------------------------------------------

  /** Every Readable tree the renderer writes without extensions is read back
      unchanged by the current parser. */
  lemma RegfileRoundTrip(k: RegistryKey)
    requires Readable(k)
    ensures RegfileToInternal(Current, RegfileText(k, false)) == Ok(k)
  {
    var t := KeyRendition(k, [], false) + [];
    FileShape(k);
    KeyHead(k, [], []);
    RegListAtHeader(Current, t, []);
    KeyRoundTrip(k, [], []);
  }

  lemma FileShape(k: RegistryKey)
    ensures StartsWith(RegfileText(k, false), Preamble)
    ensures RegfileText(k, false)[|Preamble|..] == KeyRendition(k, [], false) + []
  {
    var s := RegfileText(k, false);
    assert s[..|Preamble|] == Preamble && s[|Preamble|..] == KeyRendition(k, [], false);
  }

  /** Rendering what the parser read from a rendered file gives the same file. */
  lemma RenderingIsStable(k: RegistryKey)
    requires Readable(k)
    ensures RegfileToInternal(Current, RegfileText(k, false)).Ok?
    ensures RegfileText(RegfileToInternal(Current, RegfileText(k, false)).value, false) == RegfileText(k, false)
  {
    RegfileRoundTrip(k);
  }
}
