/** The .pol reader as the source writes it (src/PolfileToInternal.cpp): a read head
    advanced field by field, entries pushed onto a vector, then a loop that merges
    neighbouring entries of the same key. Each method is proved to compute what
    PolFormat describes. */
module PolReader {
  import opened Registry
  import opened Tokens
  import opened PolFormat

  /** ReadSinglePregEntry (src/PolfileToInternal.cpp:18-140): reads one entry at the
      read head and returns it with the head advanced past it. */
  method ReadSinglePregEntry(readHead: seq<byte>) returns (r: Result<(RegistryKey, seq<byte>)>)
    ensures r == PregEntry(readHead)
  {
    var head := readHead;
    var opening := ExpectUnit(head, OpenBracket);
    if opening.None? {
      return Err(Malformed);
    }
    head := opening.value;

    var keyName := NameField(head);
    if keyName.None? {
      return Err(Malformed);
    }
    head := keyName.value.1;

    var valueName := NameField(head);
    if valueName.None? {
      return Err(Malformed);
    }
    head := valueName.value.1;

    var valueType := TakeDword(head);
    if valueType.None? {
      return Err(Malformed);
    }
    head := valueType.value.1;
    var sep := ExpectUnit(head, Semicolon);
    if sep.None? {
      return Err(Malformed);
    }
    head := sep.value;

    var size := TakeDword(head);
    if size.None? {
      return Err(Malformed);
    }
    head := size.value.1;
    sep := ExpectUnit(head, Semicolon);
    if sep.None? {
      return Err(Malformed);
    }
    head := sep.value;

    var data: seq<byte> := [];
    var dataSize := size.value.0;
    if dataSize != 0 {
      if |head| < dataSize {
        return Err(Malformed);
      }
      data := head[..dataSize];
      head := head[dataSize..];
    }

    var closing := ExpectUnit(head, CloseBracket);
    if closing.None? {
      return Err(Malformed);
    }
    head := closing.value;

    var value := RegistryValue(valueName.value.0, valueType.value.0, data);
    var key := RegistryKey(keyName.value.0, [], []);
    if value.Name != [] || value.Type != REG_NONE {
      key := RegistryKey(key.Name, key.Subkeys, key.Values + [value]);
    }
    assert key == EntryKey(keyName.value.0, value);
    return Ok((key, head));
  }

  /** The keys read so far ahead of what the rest of the entries give. */
  function Prepended(done: seq<RegistryKey>, rest: Result<seq<RegistryKey>>): (r: Result<seq<RegistryKey>>)
  {
    match rest
    case Err(e) => Err(e)
    case Ok(ks) => Ok(done + ks)
  }

  /** The entry loop (src/PolfileToInternal.cpp:180-190). */
  method ReadEntries(body: seq<byte>) returns (r: Result<seq<RegistryKey>>)
    ensures r == PregEntries(body)
  {
    var readHead := body;
    var tempSubKeys: seq<RegistryKey> := [];
    PrependedNothing(PregEntries(body));
    while readHead != []
      invariant PregEntries(body) == Prepended(tempSubKeys, PregEntries(readHead))
      decreases |readHead|
    {
      var entry := ReadSinglePregEntry(readHead);
      EntriesStep(readHead, entry);
      if entry.Err? {
        return Err(entry.error);
      }
      var (key, rest) := entry.value;
      PrependedAppend(tempSubKeys, [key], PregEntries(rest));
      tempSubKeys := tempSubKeys + [key];
      readHead := rest;
    }
    assert tempSubKeys + [] == tempSubKeys;
    return Ok(tempSubKeys);
  }

  /** One turn of the entry loop: a failed entry fails the file, otherwise its key
      comes first. */
  lemma EntriesStep(head: seq<byte>, entry: Result<(RegistryKey, seq<byte>)>)
    requires head != [] && entry == PregEntry(head)
    ensures entry.Err? ==> PregEntries(head) == Err(entry.error)
    ensures entry.Ok? ==> |entry.value.1| < |head| && PregEntries(head) == Prepended([entry.value.0], PregEntries(entry.value.1))
  {
  }

  lemma PrependedNothing(rest: Result<seq<RegistryKey>>)
    ensures Prepended([], rest) == rest
  {
    if rest.Ok? {
      assert [] + rest.value == rest.value;
    }
  }

  lemma PrependedAppend(a: seq<RegistryKey>, b: seq<RegistryKey>, rest: Result<seq<RegistryKey>>)
    ensures Prepended(a, Prepended(b, rest)) == Prepended(a + b, rest)
  {
    if rest.Ok? {
      assert a + (b + rest.value) == a + b + rest.value;
    }
  }

  /** The version DWORD is 1 exactly when its bytes are those the writer writes. */
  lemma VersionBytes(b: seq<byte>)
    requires |b| == 4
    ensures FromLE(b) == PolVersion <==> b == DwordBytes(PolVersion)
  {
    ToFromLE(b);
  }

  /** The merge loop (src/PolfileToInternal.cpp:193-222): the first entry's key, then
      each next key is absorbed by the last one when the names are the same, and
      appended otherwise. */
  method MergeEntries(tempSubKeys: seq<RegistryKey>) returns (subkeys: seq<RegistryKey>)
    ensures subkeys == Merge(tempSubKeys)
  {
    if tempSubKeys == [] {
      return [];
    }
    subkeys := [tempSubKeys[0]];
    var i := 1;
    while i < |tempSubKeys|
      invariant 1 <= i <= |tempSubKeys| && subkeys != []
      invariant MergeInto(subkeys, tempSubKeys[i..]) == Merge(tempSubKeys)
      decreases |tempSubKeys| - i
    {
      var k := tempSubKeys[i];
      assert tempSubKeys[i..][0] == k && tempSubKeys[i..][1..] == tempSubKeys[i + 1..];
      var last := subkeys[|subkeys| - 1];
      if k.Name == last.Name {
        subkeys := subkeys[..|subkeys| - 1] + [RegistryKey(last.Name, last.Subkeys + k.Subkeys, last.Values + k.Values)];
      } else {
        subkeys := subkeys + [k];
      }
      i := i + 1;
    }
    assert tempSubKeys[i..] == [];
  }

  /** PolfileToInternal once the file is in memory (src/PolfileToInternal.cpp:143-228). */
  method ReadPolfile(rootName: Text, contents: seq<byte>) returns (r: Result<RegistryKey>)
    ensures r == PolfileToInternal(rootName, contents)
  {
    if |contents| < 4 || contents[..4] != PolMagic {
      return Err(Malformed);
    }
    var version := TakeDword(contents[4..]);
    if version.None? {
      assert |contents| < 8;
      return Err(Malformed);
    }
    assert contents[4..][..4] == contents[4..8] && contents[4..][4..] == contents[8..];
    VersionBytes(contents[4..8]);
    if version.value.0 != PolVersion {
      return Err(Malformed);
    }
    var entries := ReadEntries(contents[8..]);
    if entries.Err? {
      return Err(entries.error);
    }
    var subkeys := MergeEntries(entries.value);
    return Ok(RegistryKey(rootName, subkeys, []));
  }
}
