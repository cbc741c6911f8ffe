/** The .pol writer as the source writes it (src/InternalToPolfile.cpp): a fixed
    sequence of writes per entry, loops over the values and subkeys of each key, and
    recursion. The output file is a byte buffer that grows. Each method is proved to
    write what PolFormat describes. */
module PolWriter {
  import opened Registry
  import opened Tokens
  import opened RegRender
  import opened PolFormat
  import opened PolRoundTrip

  /** The output file: what has been written to it so far. */
  class ByteSink {
    var contents: seq<byte>

    constructor ()
      ensures contents == []
    {
      contents := [];
    }

    /** WriteFile, WritePODToFile and WriteStringBufferToFile: append to the file. */
    method Write(b: seq<byte>)
      modifies this
      ensures contents == old(contents) + b
    {
      contents := contents + b;
    }
  }

  /** RenderRegistryValueToPolFormat (src/InternalToPolfile.cpp:19-130): nothing when
      the data is too long for a DWORD size, otherwise one entry. */
  method RenderRegistryValueToPolFormat(f: ByteSink, keyPath: Text, v: RegistryValue) returns (ok: bool)
    modifies f
    ensures ok <==> |v.Data| <= MAXDWORD
    ensures ok ==> f.contents == old(f.contents) + EntryBytes(keyPath, v)
    ensures !ok ==> f.contents == old(f.contents)
  {
    if |v.Data| > MAXDWORD {
      return false;
    }
    var valueSize: u32 := |v.Data|;
    f.Write(UnitBytes(OpenBracket));
    f.Write(UnitsToBytes(keyPath + [NUL]));
    f.Write(UnitBytes(Semicolon));
    f.Write(UnitsToBytes(v.Name + [NUL]));
    f.Write(UnitBytes(Semicolon));
    f.Write(DwordBytes(v.Type));
    f.Write(UnitBytes(Semicolon));
    f.Write(DwordBytes(valueSize));
    f.Write(UnitBytes(Semicolon));
    f.Write(v.Data);
    f.Write(UnitBytes(CloseBracket));
    EntryWrites(old(f.contents), keyPath, v);
    return true;
  }

  /** The eleven writes of one entry, one after the other, are the entry. */
  lemma EntryWrites(w: seq<byte>, keyPath: Text, v: RegistryValue)
    requires |v.Data| <= MAXDWORD
    ensures w + UnitBytes(OpenBracket) + UnitsToBytes(keyPath + [NUL]) + UnitBytes(Semicolon)
      + UnitsToBytes(v.Name + [NUL]) + UnitBytes(Semicolon) + DwordBytes(v.Type) + UnitBytes(Semicolon)
      + DwordBytes(|v.Data|) + UnitBytes(Semicolon) + v.Data + UnitBytes(CloseBracket)
      == w + EntryBytes(keyPath, v)
  {
    Regroup(w, UnitBytes(OpenBracket), UnitsToBytes(keyPath + [NUL]), UnitBytes(Semicolon), UnitsToBytes(v.Name + [NUL]), UnitBytes(Semicolon),
      DwordBytes(v.Type), UnitBytes(Semicolon), DwordBytes(|v.Data|), UnitBytes(Semicolon), v.Data, UnitBytes(CloseBracket));
  }

  lemma Regroup(w: seq<byte>, a: seq<byte>, b1: seq<byte>, b2: seq<byte>, c1: seq<byte>, c2: seq<byte>,
                d1: seq<byte>, d2: seq<byte>, e1: seq<byte>, e2: seq<byte>, f: seq<byte>, g: seq<byte>)
    ensures w + a + b1 + b2 + c1 + c2 + d1 + d2 + e1 + e2 + f + g
      == w + (a + (b1 + b2) + (c1 + c2) + (d1 + d2) + (e1 + e2) + f + g)
  {
  }

  /** One record written: the entry when its data fits, and nothing otherwise. */
  lemma OneRecord(p: Text, v: RegistryValue)
    ensures RecordsOutput([Record(p, v)]).ok <==> |v.Data| <= MAXDWORD
    ensures |v.Data| <= MAXDWORD ==> RecordsOutput([Record(p, v)]).bytes == EntryBytes(p, v)
    ensures |v.Data| > MAXDWORD ==> RecordsOutput([Record(p, v)]).bytes == []
  {
    assert [Record(p, v)][0] == Record(p, v) && [Record(p, v)][1..] == [];
    if |v.Data| <= MAXDWORD {
      assert EntryBytes(p, v) + [] == EntryBytes(p, v);
    }
  }

  lemma {:induction false} ValueRecordsSnoc(p: Text, vs: seq<RegistryValue>, i: nat)
    requires i < |vs|
    ensures ValueRecords(p, vs[..i + 1]) == ValueRecords(p, vs[..i]) + [Record(p, vs[i])]
  {
    ValueRecordsAt(p, vs[..i + 1]);
    ValueRecordsAt(p, vs[..i]);
  }

  lemma {:induction false} ValueRecordsAppend(p: Text, a: seq<RegistryValue>, b: seq<RegistryValue>)
    ensures ValueRecords(p, a + b) == ValueRecords(p, a) + ValueRecords(p, b)
  {
    if a == [] {
      assert a + b == b;
    } else {
      assert (a + b)[0] == a[0] && (a + b)[1..] == a[1..] + b;
      ValueRecordsAppend(p, a[1..], b);
    }
  }

  lemma {:induction false} SubkeyRecordsAppend(a: seq<RegistryKey>, b: seq<RegistryKey>, p: Text)
    ensures SubkeyRecords(a + b, p) == SubkeyRecords(a, p) + SubkeyRecords(b, p)
  {
    if a == [] {
      assert a + b == b;
    } else {
      assert (a + b)[0] == a[0] && (a + b)[1..] == a[1..] + b;
      SubkeyRecordsAppend(a[1..], b, p);
    }
  }

  lemma SubkeyRecordsSnoc(ks: seq<RegistryKey>, j: nat, p: Text)
    requires j < |ks|
    ensures SubkeyRecords(ks[..j + 1], p) == SubkeyRecords(ks[..j], p) + KeyRecords(ks[j], p)
  {
    assert ks[..j + 1] == ks[..j] + [ks[j]];
    SubkeyRecordsAppend(ks[..j], [ks[j]], p);
    assert [ks[j]][1..] == [];
    assert KeyRecords(ks[j], p) + [] == KeyRecords(ks[j], p);
  }

  /** A record written after `done`: the writer grows or stops. */
  lemma Advance(done: seq<Record>, p: Text, v: RegistryValue)
    requires RecordsOutput(done).ok
    ensures RecordsOutput(done + [Record(p, v)]).ok <==> |v.Data| <= MAXDWORD
    ensures |v.Data| <= MAXDWORD ==> RecordsOutput(done + [Record(p, v)]).bytes == RecordsOutput(done).bytes + EntryBytes(p, v)
    ensures |v.Data| > MAXDWORD ==> RecordsOutput(done + [Record(p, v)]).bytes == RecordsOutput(done).bytes
  {
    RecordsOutputAppend(done, [Record(p, v)]);
    OneRecord(p, v);
    if |v.Data| > MAXDWORD {
      assert RecordsOutput(done).bytes + [] == RecordsOutput(done).bytes;
    }
  }

  /** The value loop, one value on: the records written so far and their output. */
  lemma ValueStep(p: Text, vs: seq<RegistryValue>, i: nat, done: seq<Record>, w: seq<byte>, written: seq<byte>)
    returns (done': seq<Record>)
    requires i < |vs| && done == ValueRecords(p, vs[..i]) && RecordsOutput(done).ok
    requires w + RecordsOutput(done).bytes == written
    ensures done' == ValueRecords(p, vs[..i + 1])
    ensures RecordsOutput(done').ok <==> |vs[i].Data| <= MAXDWORD
    ensures |vs[i].Data| <= MAXDWORD ==> w + RecordsOutput(done').bytes == written + EntryBytes(p, vs[i])
    ensures |vs[i].Data| > MAXDWORD ==> w + RecordsOutput(done').bytes == written
  {
    ValueRecordsSnoc(p, vs, i);
    done' := done + [Record(p, vs[i])];
    Advance(done, p, vs[i]);
    if |vs[i].Data| <= MAXDWORD {
      BytesAssoc(w, RecordsOutput(done).bytes, EntryBytes(p, vs[i]));
    }
  }

  /** The one entry of a key without values. */
  lemma EmptyRecord(p: Text, w: seq<byte>) returns (done: seq<Record>)
    ensures done == [Record(p, EmptyValue)] && RecordsOutput(done).ok
    ensures w + RecordsOutput(done).bytes == w + EntryBytes(p, EmptyValue)
  {
    done := [Record(p, EmptyValue)];
    OneRecord(p, EmptyValue);
  }

  /** A value that fails stops the key: nothing after it is written. */
  lemma ValueStop(p: Text, vs: seq<RegistryValue>, i: nat, subs: seq<Record>, done: seq<Record>)
    requires i < |vs| && done == ValueRecords(p, vs[..i + 1]) && !RecordsOutput(done).ok
    ensures RecordsOutput(ValueRecords(p, vs) + subs) == RecordsOutput(done)
  {
    var rest := ValueRecords(p, vs[i + 1..]);
    assert vs[..i + 1] + vs[i + 1..] == vs;
    ValueRecordsAppend(p, vs[..i + 1], vs[i + 1..]);
    RecordsAssoc(done, rest, subs);
    RecordsOutputAppend(done, rest + subs);
  }

  /** The subkey loop, one subkey on. */
  lemma SubkeyStep(own: seq<Record>, ks: seq<RegistryKey>, j: nat, p: Text, done: seq<Record>, w: seq<byte>, written: seq<byte>)
    returns (done': seq<Record>)
    requires j < |ks| && done == own + SubkeyRecords(ks[..j], p) && RecordsOutput(done).ok
    requires w + RecordsOutput(done).bytes == written
    ensures done' == own + SubkeyRecords(ks[..j + 1], p)
    ensures RecordsOutput(done').ok == RecordsOutput(KeyRecords(ks[j], p)).ok
    ensures w + RecordsOutput(done').bytes == written + RecordsOutput(KeyRecords(ks[j], p)).bytes
  {
    SnocOwn(own, ks, j, p, done);
    done' := OutputStep(done, KeyRecords(ks[j], p), w, written);
  }

  lemma SnocOwn(own: seq<Record>, ks: seq<RegistryKey>, j: nat, p: Text, done: seq<Record>)
    requires j < |ks| && done == own + SubkeyRecords(ks[..j], p)
    ensures done + KeyRecords(ks[j], p) == own + SubkeyRecords(ks[..j + 1], p)
  {
    SubkeyRecordsSnoc(ks, j, p);
    RecordsAssoc(own, SubkeyRecords(ks[..j], p), KeyRecords(ks[j], p));
  }

  lemma BytesAssoc(x: seq<byte>, y: seq<byte>, z: seq<byte>)
    ensures x + (y + z) == x + y + z
  {
  }

  lemma TakeAll<T>(s: seq<T>)
    ensures s[..|s|] == s && s[..0] == []
  {
  }

  lemma AppendNil<T>(s: seq<T>)
    ensures s + [] == s && [] + s == s
  {
  }

  lemma RecordsAssoc(x: seq<Record>, y: seq<Record>, z: seq<Record>)
    ensures x + (y + z) == x + y + z
  {
  }

  /** More records written after `done`, which succeeded. */
  lemma OutputStep(done: seq<Record>, more: seq<Record>, w: seq<byte>, written: seq<byte>) returns (done': seq<Record>)
    requires RecordsOutput(done).ok && w + RecordsOutput(done).bytes == written
    ensures done' == done + more
    ensures RecordsOutput(done').ok == RecordsOutput(more).ok
    ensures w + RecordsOutput(done').bytes == written + RecordsOutput(more).bytes
  {
    done' := done + more;
    RecordsOutputAppend(done, more);
    BytesAssoc(w, RecordsOutput(done).bytes, RecordsOutput(more).bytes);
  }

  /** A subkey that fails stops the key: nothing after it is written. */
  lemma SubkeyStop(own: seq<Record>, ks: seq<RegistryKey>, j: nat, p: Text, done: seq<Record>)
    requires j < |ks| && done == own + SubkeyRecords(ks[..j + 1], p) && !RecordsOutput(done).ok
    ensures RecordsOutput(own + SubkeyRecords(ks, p)) == RecordsOutput(done)
  {
    var rest := SubkeyRecords(ks[j + 1..], p);
    assert ks[..j + 1] + ks[j + 1..] == ks;
    SubkeyRecordsAppend(ks[..j + 1], ks[j + 1..], p);
    RecordsAssoc(own, SubkeyRecords(ks[..j + 1], p), rest);
    RecordsOutputAppend(done, rest);
  }

  /** RenderRegistryKeyToPolFormat (src/InternalToPolfile.cpp:139-198): the key's own
      entries, then its subkeys below its path, stopping at the first failure. */
  method RenderRegistryKeyToPolFormat(f: ByteSink, k: RegistryKey, pathSoFar: Text) returns (ok: bool)
    modifies f
    ensures ok == RecordsOutput(KeyRecords(k, pathSoFar)).ok
    ensures f.contents == old(f.contents) + RecordsOutput(KeyRecords(k, pathSoFar)).bytes
    decreases k
  {
    var newPath: Text;
    if pathSoFar == [] {
      newPath := k.Name;
    } else {
      newPath := pathSoFar + [Backslash] + k.Name;
    }
    assert newPath == KeyPath(pathSoFar, k.Name);
    ghost var own := if k.Values == [] then [Record(newPath, EmptyValue)] else ValueRecords(newPath, k.Values);
    ghost var subs := SubkeyRecords(k.Subkeys, newPath);
    assert KeyRecords(k, pathSoFar) == own + subs;
    ghost var w := old(f.contents);
    ghost var done: seq<Record> := [];

    if k.Values == [] {
      ok := RenderRegistryValueToPolFormat(f, newPath, EmptyValue);
      done := EmptyRecord(newPath, w);
    } else {
      AppendNil(w);
      for i := 0 to |k.Values|
        invariant done == ValueRecords(newPath, k.Values[..i])
        invariant RecordsOutput(done).ok
        invariant w + RecordsOutput(done).bytes == f.contents
      {
        ghost var written := f.contents;
        ok := RenderRegistryValueToPolFormat(f, newPath, k.Values[i]);
        done := ValueStep(newPath, k.Values, i, done, w, written);
        if !ok {
          ValueStop(newPath, k.Values, i, subs, done);
          return;
        }
      }
      TakeAll(k.Values);
    }
    TakeAll(k.Subkeys);
    AppendNil(own);

    for j := 0 to |k.Subkeys|
      invariant done == own + SubkeyRecords(k.Subkeys[..j], newPath)
      invariant RecordsOutput(done).ok
      invariant w + RecordsOutput(done).bytes == f.contents
    {
      ghost var written := f.contents;
      ok := RenderRegistryKeyToPolFormat(f, k.Subkeys[j], newPath);
      done := SubkeyStep(own, k.Subkeys, j, newPath, done, w, written);
      if !ok {
        SubkeyStop(own, k.Subkeys, j, newPath, done);
        return;
      }
    }
    ok := true;
  }

  /** InternalToPolfile (src/InternalToPolfile.cpp:200-252): a new file, the header,
      then each subkey of the root from an empty path, stopping at the first failure. */
  method InternalToPolfile(root: RegistryKey) returns (f: ByteSink, ok: bool)
    ensures fresh(f)
    ensures ok == PolOutput(root).ok
    ensures f.contents == PolOutput(root).bytes
  {
    f := new ByteSink();
    f.Write(PolMagic);
    f.Write(DwordBytes(PolVersion));
    ghost var w := PolHeader();
    ghost var done: seq<Record> := [];
    TakeAll(root.Subkeys);
    AppendNil(PolMagic);
    AppendNil(w);
    for j := 0 to |root.Subkeys|
      invariant done == [] + SubkeyRecords(root.Subkeys[..j], [])
      invariant RecordsOutput(done).ok
      invariant w + RecordsOutput(done).bytes == f.contents
    {
      ghost var written := f.contents;
      ok := RenderRegistryKeyToPolFormat(f, root.Subkeys[j], []);
      done := SubkeyStep([], root.Subkeys, j, [], done, w, written);
      if !ok {
        SubkeyStop([], root.Subkeys, j, [], done);
        AppendNil(SubkeyRecords(root.Subkeys, []));
        return;
      }
    }
    AppendNil(SubkeyRecords(root.Subkeys, []));
    ok := true;
  }
}
