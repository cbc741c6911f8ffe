/** What the .pol reader makes of what the .pol writer writes, and the properties of
    the merge that turns the entries back into keys. */
module PolRoundTrip {
  import opened Registry
  import opened Tokens
  import opened Substitute
  import opened RegRender
  import opened PolFormat
  import opened PolMerge

  // ---------------------------------------------------------------------------
  // One entry
  // ---------------------------------------------------------------------------

  lemma ExpectUnitOf(c: char16, x: seq<byte>)
    ensures ExpectUnit(UnitBytes(c) + x, c) == Some(x)
  {
    assert (UnitBytes(c) + x)[..2] == UnitBytes(c);
    assert (UnitBytes(c) + x)[2..] == x;
  }

  lemma TakeDwordOf(n: u32, x: seq<byte>)
    ensures TakeDword(DwordField(n) + x) == Some((n, UnitBytes(Semicolon) + x))
  {
    var s := DwordField(n) + x;
    assert s[..4] == DwordBytes(n);
    assert s[4..] == UnitBytes(Semicolon) + x;
  }

  /** A name without `;` reads back from what the writer writes for it. */
  lemma NameFieldOf(name: Text, x: seq<byte>)
    requires Semicolon !in name
    ensures NameField(NameBytes(name) + x) == Some((name, x))
  {
    var u := name + [NUL] + [Semicolon];
    UnitsToBytesAppend(name + [NUL], [Semicolon]);
    var head := NameBytes(name) + x;
    assert head == UnitsToBytes(u) + x;
    BytesToUnitsOfUnits(u, x);
    var ws := BytesToUnits(head);
    assert ws == u + BytesToUnits(x);
    var c := |name| + 1;
    assert ws[c..c + 1] == [Semicolon];
    forall j | 0 <= j < c
      ensures !OccursAt(ws, [Semicolon], j)
    {
      assert ws[j..j + 1] == [ws[j]];
      if j < |name| {
        assert ws[j] == name[j];
      } else {
        assert ws[j] == NUL;
      }
    }
    FindExact(ws, [Semicolon], 0, c);
    assert ws[c - 1] == NUL;
    assert ws[..c - 1] == name;
    assert head[2 * (c + 1)..] == x;
  }

  lemma EntryAssoc(a: seq<byte>, b: seq<byte>, c: seq<byte>, d: seq<byte>, e: seq<byte>, f: seq<byte>, g: seq<byte>, r: seq<byte>)
    ensures a + b + c + d + e + f + g + r == a + (b + (c + (d + (e + (f + (g + r))))))
  {
  }

  /** What the reader needs of a record to read it back: no `;` in the path or the
      name (the reader stops a name at the first `;`) and a size that fits a DWORD. */
  predicate Readable(r: Record) {
    Semicolon !in r.path && Semicolon !in r.value.Name && |r.value.Data| <= MAXDWORD
  }

  /** ReadSinglePregEntry reads back what RenderRegistryValueToPolFormat writes. */
  lemma EntryRoundTrip(path: Text, v: RegistryValue, rest: seq<byte>)
    requires Readable(Record(path, v))
    ensures PregEntry(EntryBytes(path, v) + rest) == Ok((EntryKey(path, v), rest))
  {
    var t3 := DwordField(v.Type) + (DwordField(|v.Data|) + (v.Data + (UnitBytes(CloseBracket) + rest)));
    var t2 := NameBytes(v.Name) + t3;
    var t1 := NameBytes(path) + t2;
    EntryAssoc(UnitBytes(OpenBracket), NameBytes(path), NameBytes(v.Name), DwordField(v.Type),
      DwordField(|v.Data|), v.Data, UnitBytes(CloseBracket), rest);
    assert EntryBytes(path, v) + rest == UnitBytes(OpenBracket) + t1;
    ExpectUnitOf(OpenBracket, t1);
    NameFieldOf(path, t2);
    NameFieldOf(v.Name, t3);
    EntryValueRoundTrip(path, v, rest);
  }

  /** The fields after the names read back as the value. */
  lemma EntryValueRoundTrip(path: Text, v: RegistryValue, rest: seq<byte>)
    requires |v.Data| <= MAXDWORD
    ensures EntryValue(path, v.Name, DwordField(v.Type) + (DwordField(|v.Data|) + (v.Data + (UnitBytes(CloseBracket) + rest))))
         == Ok((EntryKey(path, v), rest))
  {
    var t6 := UnitBytes(CloseBracket) + rest;
    var t5 := v.Data + t6;
    var t4 := DwordField(|v.Data|) + t5;
    TakeDwordOf(v.Type, t4);
    ExpectUnitOf(Semicolon, t4);
    TakeDwordOf(|v.Data|, t5);
    ExpectUnitOf(Semicolon, t5);
    assert t5[..|v.Data|] == v.Data && t5[|v.Data|..] == t6;
    ExpectUnitOf(CloseBracket, rest);
  }

  // ---------------------------------------------------------------------------
  // Entries
  // ---------------------------------------------------------------------------

  /** The keys the reader makes of the records, one per record. */
  function EntryKeys(rs: seq<Record>): (ks: seq<RegistryKey>)
    ensures |ks| == |rs|
  {
    if rs == [] then [] else [EntryKey(rs[0].path, rs[0].value)] + EntryKeys(rs[1..])
  }

  /** The writer stops at the first record whose data does not fit; it succeeds
      exactly when all fit. */
  lemma {:induction false} RecordsOutputOk(rs: seq<Record>)
    ensures RecordsOutput(rs).ok <==> forall i :: 0 <= i < |rs| ==> |rs[i].value.Data| <= MAXDWORD
  {
    if rs != [] {
      RecordsOutputOk(rs[1..]);
      assert forall i :: 1 <= i < |rs| ==> rs[i] == rs[1..][i - 1];
    }
  }

  /** Writing two runs of records: the second runs only if the first succeeded. */
  lemma {:induction false} RecordsOutputAppend(a: seq<Record>, b: seq<Record>)
    ensures RecordsOutput(a).ok ==>
      RecordsOutput(a + b) == Output(RecordsOutput(a).bytes + RecordsOutput(b).bytes, RecordsOutput(b).ok)
    ensures !RecordsOutput(a).ok ==> RecordsOutput(a + b) == RecordsOutput(a)
  {
    if a == [] {
      assert a + b == b;
    } else {
      var ab := a + b;
      assert ab[0] == a[0] && ab[1..] == a[1..] + b;
      if |a[0].value.Data| <= MAXDWORD {
        RecordsOutputAppend(a[1..], b);
        var e := EntryBytes(a[0].path, a[0].value);
        var oa, ob := RecordsOutput(a[1..]), RecordsOutput(b);
        if oa.ok {
          assert e + (oa.bytes + ob.bytes) == e + oa.bytes + ob.bytes;
        }
      }
    }
  }

  /** The entry loop reads back every run of readable records. */
  lemma {:induction false} RecordsRoundTrip(rs: seq<Record>)
    requires forall i :: 0 <= i < |rs| ==> Readable(rs[i])
    ensures RecordsOutput(rs).ok
    ensures PregEntries(RecordsOutput(rs).bytes) == Ok(EntryKeys(rs))
  {
    if rs != [] {
      assert Readable(rs[0]);
      assert forall i :: 0 <= i < |rs| - 1 ==> rs[1..][i] == rs[i + 1];
      RecordsRoundTrip(rs[1..]);
      var tail := RecordsOutput(rs[1..]).bytes;
      EntryRoundTrip(rs[0].path, rs[0].value, tail);
      var s := EntryBytes(rs[0].path, rs[0].value) + tail;
      assert RecordsOutput(rs).bytes == s;
      assert s != [];
    }
  }

  // ---------------------------------------------------------------------------
  // The tree
  // ---------------------------------------------------------------------------

  /** A key the writer writes and the reader reads back: no `;` in its name or in the
      names of its values, data that fits a DWORD size, and likewise below. */
  predicate PolSafe(k: RegistryKey)
    decreases k
  {
    && Semicolon !in k.Name
    && (forall i :: 0 <= i < |k.Values| ==> Semicolon !in k.Values[i].Name && |k.Values[i].Data| <= MAXDWORD)
    && (forall i :: 0 <= i < |k.Subkeys| ==> PolSafe(k.Subkeys[i]))
  }

  lemma {:induction false} KeyPathSafe(p: Text, name: Text)
    requires Semicolon !in p && Semicolon !in name
    ensures Semicolon !in KeyPath(p, name)
  {
    if p != [] {
      assert KeyPath(p, name) == p + [Backslash] + name;
    }
  }

  lemma {:induction false} ValueRecordsReadable(path: Text, vs: seq<RegistryValue>)
    requires Semicolon !in path
    requires forall i :: 0 <= i < |vs| ==> Semicolon !in vs[i].Name && |vs[i].Data| <= MAXDWORD
    ensures forall i :: 0 <= i < |vs| ==> ValueRecords(path, vs)[i] == Record(path, vs[i])
    ensures forall i :: 0 <= i < |vs| ==> Readable(ValueRecords(path, vs)[i])
  {
    if vs != [] {
      ValueRecordsReadable(path, vs[1..]);
      assert forall i :: 1 <= i < |vs| ==> ValueRecords(path, vs)[i] == ValueRecords(path, vs[1..])[i - 1];
    }
  }

  /** Every record written for a safe key under a path without `;` is readable. */
  lemma {:induction false} KeyRecordsReadable(k: RegistryKey, p: Text)
    requires PolSafe(k) && Semicolon !in p
    ensures forall i :: 0 <= i < |KeyRecords(k, p)| ==> Readable(KeyRecords(k, p)[i])
    decreases k, 1
  {
    var path := KeyPath(p, k.Name);
    KeyPathSafe(p, k.Name);
    var own := if k.Values == [] then [Record(path, EmptyValue)] else ValueRecords(path, k.Values);
    if k.Values != [] {
      ValueRecordsReadable(path, k.Values);
    }
    SubkeyRecordsReadable(k.Subkeys, path);
    var all := own + SubkeyRecords(k.Subkeys, path);
    assert forall i :: |own| <= i < |all| ==> all[i] == SubkeyRecords(k.Subkeys, path)[i - |own|];
  }

  lemma {:induction false} SubkeyRecordsReadable(ks: seq<RegistryKey>, p: Text)
    requires (forall i :: 0 <= i < |ks| ==> PolSafe(ks[i])) && Semicolon !in p
    ensures forall i :: 0 <= i < |SubkeyRecords(ks, p)| ==> Readable(SubkeyRecords(ks, p)[i])
    decreases ks, 0
  {
    if ks != [] {
      KeyRecordsReadable(ks[0], p);
      SubkeyRecordsReadable(ks[1..], p);
      var a, b := KeyRecords(ks[0], p), SubkeyRecords(ks[1..], p);
      assert forall i :: |a| <= i < |a + b| ==> (a + b)[i] == b[i - |a|];
    }
  }

  /** InternalToPolfile then PolfileToInternal: the file is written, and read back as
      the keys of the entries, merged. */
  lemma PolRoundTrip(rootName: Text, root: RegistryKey)
    requires forall i :: 0 <= i < |root.Subkeys| ==> PolSafe(root.Subkeys[i])
    ensures PolOutput(root).ok
    ensures PolfileToInternal(rootName, PolOutput(root).bytes)
      == Ok(RegistryKey(rootName, Merge(EntryKeys(SubkeyRecords(root.Subkeys, []))), []))
  {
    var rs := SubkeyRecords(root.Subkeys, []);
    SubkeyRecordsReadable(root.Subkeys, []);
    RecordsRoundTrip(rs);
    var s := PolOutput(root).bytes;
    assert s[..4] == PolMagic && s[4..8] == DwordBytes(PolVersion);
    assert s[8..] == RecordsOutput(rs).bytes;
  }

  // ---------------------------------------------------------------------------
  // Flat trees read back unchanged
  // ---------------------------------------------------------------------------

  /** A child of the root the .pol format holds exactly: no subkeys (a written path
      is read back as one key name, so depth is not recovered) and only values the
      reader keeps. */
  predicate FlatChild(k: RegistryKey) {
    PolSafe(k) && k.Subkeys == [] && forall i :: 0 <= i < |k.Values| ==> Kept(k.Values[i])
  }

  /** The keys read back from the entries of one child of the root. */
  function ChildKeys(k: RegistryKey): (ks: seq<RegistryKey>)
  {
    EntryKeys(KeyRecords(k, []))
  }

  lemma {:induction false} EntryKeysAppend(a: seq<Record>, b: seq<Record>)
    ensures EntryKeys(a + b) == EntryKeys(a) + EntryKeys(b)
  {
    if a == [] {
      assert a + b == b;
    } else {
      assert (a + b)[0] == a[0] && (a + b)[1..] == a[1..] + b;
      EntryKeysAppend(a[1..], b);
    }
  }

  lemma ValueRecordsTail(n: Text, vs: seq<RegistryValue>, i: nat)
    requires i < |vs|
    ensures EntryKeys(ValueRecords(n, vs[i..]))
      == [EntryKey(n, vs[i])] + EntryKeys(ValueRecords(n, vs[i + 1..]))
  {
    assert vs[i..][0] == vs[i] && vs[i..][1..] == vs[i + 1..];
  }

  /** The entries of one value after another of the same key join into one key. */
  lemma {:induction false} AbsorbRun(pre: seq<RegistryKey>, n: Text, vs: seq<RegistryValue>, i: nat)
    requires 1 <= i <= |vs|
    requires forall j :: 0 <= j < |vs| ==> Kept(vs[j])
    ensures MergeInto(pre + [RegistryKey(n, [], vs[..i])], EntryKeys(ValueRecords(n, vs[i..])))
      == pre + [RegistryKey(n, [], vs)]
    decreases |vs| - i
  {
    if i == |vs| {
      assert vs[i..] == [] && vs[..i] == vs;
    } else {
      ValueRecordsTail(n, vs, i);
      var ks := EntryKeys(ValueRecords(n, vs[i..]));
      assert Kept(vs[i]);
      assert ks[0] == RegistryKey(n, [], [vs[i]]) && ks[1..] == EntryKeys(ValueRecords(n, vs[i + 1..]));
      var acc := pre + [RegistryKey(n, [], vs[..i])];
      assert acc[|acc| - 1] == RegistryKey(n, [], vs[..i]) && acc[..|acc| - 1] == pre;
      var absorbed := Absorb(acc[|acc| - 1], ks[0]);
      assert vs[..i] + [vs[i]] == vs[..i + 1];
      assert absorbed == RegistryKey(n, [], vs[..i + 1]);
      assert MergeInto(acc, ks) == MergeInto(pre + [absorbed], ks[1..]);
      AbsorbRun(pre, n, vs, i + 1);
    }
  }

  /** The entries of a flat child, merged after keys `pre`, give back the child. */
  lemma ChildRun(pre: seq<RegistryKey>, k: RegistryKey)
    requires FlatChild(k)
    ensures ChildKeys(k) != []
    ensures MergeInto(pre + [ChildKeys(k)[0]], ChildKeys(k)[1..]) == pre + [k]
  {
    var own := if k.Values == [] then [Record(k.Name, EmptyValue)] else ValueRecords(k.Name, k.Values);
    assert KeyRecords(k, []) == own + [];
    assert own + [] == own;
    if k.Values == [] {
      assert ChildKeys(k) == [k];
    } else {
      ValueRecordsTail(k.Name, k.Values, 0);
      assert k.Values[0..] == k.Values && k.Values[..1] == [k.Values[0]];
      assert EntryKey(k.Name, k.Values[0]) == RegistryKey(k.Name, [], k.Values[..1]);
      AbsorbRun(pre, k.Name, k.Values, 1);
    }
  }

  /** One flat child's entries, merged after keys whose last is named differently. */
  lemma ChildAfter(acc: seq<RegistryKey>, k: RegistryKey, tail: seq<RegistryKey>)
    requires acc != [] && acc[|acc| - 1].Name != k.Name && FlatChild(k)
    ensures MergeInto(acc, ChildKeys(k) + tail) == MergeInto(acc + [k], tail)
  {
    var c := ChildKeys(k);
    ChildRun(acc, k);
    assert c[0].Name == k.Name;
    MergeIntoAppend(acc, c, tail);
  }

  /** Children the .pol format holds exactly: each flat, each named unlike its
      neighbours. */
  predicate AllFlat(ks: seq<RegistryKey>) {
    (forall i :: 0 <= i < |ks| ==> FlatChild(ks[i])) && DistinctNeighbours(ks)
  }

  lemma AllFlatTail(ks: seq<RegistryKey>)
    requires ks != [] && AllFlat(ks)
    ensures FlatChild(ks[0]) && AllFlat(ks[1..])
    ensures ks[1..] != [] ==> ks[1..][0].Name != ks[0].Name
  {
    assert forall i :: 0 <= i < |ks| - 1 ==> ks[1..][i] == ks[i + 1];
  }

  /** The entries of the children: those of the first, then those of the rest. */
  lemma ChildrenSplit(ks: seq<RegistryKey>) returns (tail: seq<RegistryKey>)
    requires ks != []
    ensures tail == EntryKeys(SubkeyRecords(ks[1..], []))
    ensures EntryKeys(SubkeyRecords(ks, [])) == ChildKeys(ks[0]) + tail
  {
    tail := EntryKeys(SubkeyRecords(ks[1..], []));
    EntryKeysAppend(KeyRecords(ks[0], []), SubkeyRecords(ks[1..], []));
  }

  /** The entries of flat children, merged after keys whose last is named unlike
      the first child, give back the children. */
  lemma {:induction false} FlatMergeInto(acc: seq<RegistryKey>, ks: seq<RegistryKey>)
    requires acc != [] && (ks != [] ==> acc[|acc| - 1].Name != ks[0].Name)
    requires AllFlat(ks)
    ensures MergeInto(acc, EntryKeys(SubkeyRecords(ks, []))) == acc + ks
    decreases |ks|
  {
    if ks == [] {
      AppendNothing(acc);
    } else {
      var acc' := FlatStep(acc, ks);
      FlatMergeInto(acc', ks[1..]);
      SnocCons(acc, ks);
    }
  }

  /** One turn of FlatMergeInto: the first child joins the merged keys. */
  lemma FlatStep(acc: seq<RegistryKey>, ks: seq<RegistryKey>) returns (acc': seq<RegistryKey>)
    requires acc != [] && ks != [] && acc[|acc| - 1].Name != ks[0].Name
    requires AllFlat(ks)
    ensures acc' == acc + [ks[0]] && AllFlat(ks[1..])
    ensures ks[1..] != [] ==> acc'[|acc'| - 1].Name != ks[1..][0].Name
    ensures MergeInto(acc, EntryKeys(SubkeyRecords(ks, []))) == MergeInto(acc', EntryKeys(SubkeyRecords(ks[1..], [])))
  {
    var tail := ChildrenSplit(ks);
    AllFlatTail(ks);
    ChildAfter(acc, ks[0], tail);
    acc' := acc + [ks[0]];
  }

  lemma AppendNothing<T>(s: seq<T>)
    ensures s + [] == s
  {
  }

  lemma SnocCons<T>(a: seq<T>, s: seq<T>)
    requires s != []
    ensures a + [s[0]] + s[1..] == a + s
  {
    assert s == [s[0]] + s[1..];
  }

  lemma MergeOfCons(x: seq<RegistryKey>, y: seq<RegistryKey>)
    requires x != []
    ensures Merge(x + y) == MergeInto(MergeInto([x[0]], x[1..]), y)
  {
    assert (x + y)[0] == x[0] && (x + y)[1..] == x[1..] + y;
    MergeIntoAppend([x[0]], x[1..], y);
  }

  /** The first child's entries start the merge and give back the child. */
  lemma ChildFirst(k: RegistryKey, tail: seq<RegistryKey>)
    requires FlatChild(k)
    ensures Merge(ChildKeys(k) + tail) == MergeInto([k], tail)
  {
    var c := ChildKeys(k);
    ChildRun([], k);
    assert [] + [c[0]] == [c[0]] && [] + [k] == [k];
    MergeOfCons(c, tail);
  }

  /** The entries of flat children named unlike their neighbours merge back into
      the children. */
  lemma FlatMerge(ks: seq<RegistryKey>)
    requires AllFlat(ks)
    ensures Merge(EntryKeys(SubkeyRecords(ks, []))) == ks
  {
    if ks != [] {
      var tail := ChildrenSplit(ks);
      AllFlatTail(ks);
      ChildFirst(ks[0], tail);
      FlatMergeInto([ks[0]], ks[1..]);
      assert [ks[0]] + ks[1..] == ks;
    }
  }

  /** The round trip is exact for a root whose children are flat and named unlike
      their neighbours, and whose own values are empty: the writer writes none of
      the root's values. */
  lemma FlatRoundTrip(rootName: Text, root: RegistryKey)
    requires AllFlat(root.Subkeys)
    ensures PolfileToInternal(rootName, PolOutput(root).bytes) == Ok(RegistryKey(rootName, root.Subkeys, []))
  {
    PolRoundTrip(rootName, root);
    FlatMerge(root.Subkeys);
  }

  // ---------------------------------------------------------------------------
  // When the writer succeeds
  // ---------------------------------------------------------------------------

  /** Every value below and at `k` has data whose size fits a DWORD. */
  predicate DataFits(k: RegistryKey)
    decreases k
  {
    && (forall i :: 0 <= i < |k.Values| ==> |k.Values[i].Data| <= MAXDWORD)
    && (forall i :: 0 <= i < |k.Subkeys| ==> DataFits(k.Subkeys[i]))
  }

  predicate AllFit(rs: seq<Record>) {
    forall i :: 0 <= i < |rs| ==> |rs[i].value.Data| <= MAXDWORD
  }

  lemma {:induction false} ValueRecordsAt(path: Text, vs: seq<RegistryValue>)
    ensures forall i :: 0 <= i < |vs| ==> ValueRecords(path, vs)[i] == Record(path, vs[i])
  {
    if vs != [] {
      var r := ValueRecords(path, vs);
      ValueRecordsAt(path, vs[1..]);
      forall i | 0 <= i < |vs|
        ensures r[i] == Record(path, vs[i])
      {
        if i > 0 {
          assert r[i] == ValueRecords(path, vs[1..])[i - 1];
          assert vs[1..][i - 1] == vs[i];
        }
      }
    }
  }

  lemma AllFitAppend(a: seq<Record>, b: seq<Record>)
    ensures AllFit(a + b) <==> AllFit(a) && AllFit(b)
  {
    assert forall i :: 0 <= i < |a| ==> (a + b)[i] == a[i];
    assert forall i :: 0 <= i < |b| ==> (a + b)[|a| + i] == b[i];
  }

  lemma {:induction false} KeyRecordsFit(k: RegistryKey, p: Text)
    ensures AllFit(KeyRecords(k, p)) <==> DataFits(k)
    decreases k, 1
  {
    var path := KeyPath(p, k.Name);
    var own := if k.Values == [] then [Record(path, EmptyValue)] else ValueRecords(path, k.Values);
    ValueRecordsAt(path, k.Values);
    assert AllFit(own) <==> forall i :: 0 <= i < |k.Values| ==> |k.Values[i].Data| <= MAXDWORD;
    AllFitAppend(own, SubkeyRecords(k.Subkeys, path));
    SubkeyRecordsFit(k.Subkeys, path);
  }

  lemma {:induction false} SubkeyRecordsFit(ks: seq<RegistryKey>, p: Text)
    ensures AllFit(SubkeyRecords(ks, p)) <==> forall i :: 0 <= i < |ks| ==> DataFits(ks[i])
    decreases ks, 0
  {
    if ks != [] {
      KeyRecordsFit(ks[0], p);
      SubkeyRecordsFit(ks[1..], p);
      AllFitAppend(KeyRecords(ks[0], p), SubkeyRecords(ks[1..], p));
      assert forall i :: 1 <= i < |ks| ==> ks[i] == ks[1..][i - 1];
    }
  }

  /** InternalToPolfile succeeds exactly when every value below the root, the root's
      own values aside, has data whose size fits a DWORD. */
  lemma PolOutputOk(root: RegistryKey)
    ensures PolOutput(root).ok <==> forall i :: 0 <= i < |root.Subkeys| ==> DataFits(root.Subkeys[i])
  {
    RecordsOutputOk(SubkeyRecords(root.Subkeys, []));
    SubkeyRecordsFit(root.Subkeys, []);
  }
}
