/** The .pol format (Registry Policy File Format, section 2.1 of MS-GPREG) as the
    converter reads and writes it (src/PolfileToInternal.cpp, src/InternalToPolfile.cpp):
    the header `PReg` and the version DWORD 1, then one entry per value, each
    `[` key path NUL `;` value name NUL `;` type `;` size `;` data `]`, with every
    character a little-endian UTF-16 code unit and type and size little-endian DWORDs. */
module PolFormat {
  import opened Registry
  import opened Tokens
  import opened Substitute
  import opened RegRender

  /** The magic `PReg` (src/Constants.h:216). */
  const PolMagic: seq<byte> := [0x50, 0x52, 0x65, 0x67]

  /** The only version the reader accepts and the writer writes (src/Constants.h:221). */
  const PolVersion: u32 := 1

  /** A WCHAR as the bytes it occupies in memory. */
  function UnitBytes(c: char16): (b: seq<byte>)
    ensures b == [c % 0x100, c / 0x100]
    ensures BytesToUnits(b) == [c]
  {
    assert [c][1..] == [];
    UnitsToBytes([c])
  }

  // ---------------------------------------------------------------------------
  // Reading, one field at a time from the read head
  // ---------------------------------------------------------------------------

  /** ExpectAndConsumePODAtReadHead for a WCHAR: the two bytes of `c`, consumed. */
  function ExpectUnit(head: seq<byte>, c: char16): (r: Option<seq<byte>>)
  {
    if |head| >= 2 && head[..2] == UnitBytes(c) then Some(head[2..]) else None
  }

  /** RetrieveAndConsumePODAtReadHead for a DWORD: four bytes, little-endian. */
  function TakeDword(head: seq<byte>): (r: Option<(u32, seq<byte>)>)
  {
    if |head| < 4 then None
    else
      assert Pow256(4) == 0x1_0000_0000;
      Some((FromLE(head[..4]), head[4..]))
  }

  /** A key or value name (src/PolfileToInternal.cpp:34-78): the read head seen as
      code units is searched for the first `;`; what precedes it must be non-empty
      and end in NUL, which is dropped; the head moves past the `;`. */
  function NameField(head: seq<byte>): (r: Option<(Text, seq<byte>)>)
  {
    var ws := BytesToUnits(head);
    match Find(ws, [Semicolon], 0)
    case None => None
    case Some(pos) =>
      if pos == 0 || ws[pos - 1] != NUL then None
      else Some((ws[..pos - 1], head[2 * (pos + 1)..]))
  }

  /** A value the reader keeps: one with a name or a non-zero type
      (src/PolfileToInternal.cpp:132-135). */
  predicate Kept(v: RegistryValue) {
    v.Name != [] || v.Type != REG_NONE
  }

  /** The key an entry is read as: named by the entry's whole path, no subkeys, and
      the entry's value when it is kept. */
  function EntryKey(path: Text, v: RegistryValue): (k: RegistryKey)
  {
    RegistryKey(path, [], if Kept(v) then [v] else [])
  }

  /** ReadSinglePregEntry (src/PolfileToInternal.cpp:18-140): `[`, the key name and
      the value name, then the rest of the entry. */
  function PregEntry(head: seq<byte>): (r: Result<(RegistryKey, seq<byte>)>)
    ensures r.Ok? ==> |r.value.1| < |head|
  {
    match ExpectUnit(head, OpenBracket)
    case None => Err(Malformed)
    case Some(h1) =>
      match NameField(h1)
      case None => Err(Malformed)
      case Some((keyName, h2)) =>
        match NameField(h2)
        case None => Err(Malformed)
        case Some((valueName, h3)) =>
          NameFieldShorter(h1);
          NameFieldShorter(h2);
          EntryValue(keyName, valueName, h3)
  }

  lemma NameFieldShorter(head: seq<byte>)
    ensures NameField(head).Some? ==> |NameField(head).value.1| < |head|
  {
  }

  /** The rest of an entry (src/PolfileToInternal.cpp:80-140): type, `;`, size, `;`,
      the data, `]`. A zero size gives no data; a size beyond the remaining bytes is
      an error. */
  function EntryValue(keyName: Text, valueName: Text, h3: seq<byte>): (r: Result<(RegistryKey, seq<byte>)>)
    ensures r.Ok? ==> |r.value.1| < |h3|
  {
    match TakeDword(h3)
    case None => Err(Malformed)
    case Some((valueType, h4)) =>
      match ExpectUnit(h4, Semicolon)
      case None => Err(Malformed)
      case Some(h5) =>
        match TakeDword(h5)
        case None => Err(Malformed)
        case Some((size, h6)) =>
          match ExpectUnit(h6, Semicolon)
          case None => Err(Malformed)
          case Some(h7) =>
            if size != 0 && |h7| < size then Err(Malformed)
            else
              var data := if size == 0 then [] else h7[..size];
              var h8 := if size == 0 then h7 else h7[size..];
              match ExpectUnit(h8, CloseBracket)
              case None => Err(Malformed)
              case Some(h9) => Ok((EntryKey(keyName, RegistryValue(valueName, valueType, data)), h9))
  }

  /** The entry loop (src/PolfileToInternal.cpp:180-190): entries until the bytes
      run out; any entry that fails fails the whole file. */
  function PregEntries(head: seq<byte>): (r: Result<seq<RegistryKey>>)
    decreases |head|
  {
    if head == [] then Ok([])
    else
      match PregEntry(head)
      case Err(e) => Err(e)
      case Ok((k, rest)) =>
        match PregEntries(rest)
        case Err(e) => Err(e)
        case Ok(ks) => Ok([k] + ks)
  }

  /** The subkeys and values of `k` appended to those of `last`, which keeps its
      name (src/PolfileToInternal.cpp:209-216). */
  function Absorb(last: RegistryKey, k: RegistryKey): (m: RegistryKey)
  {
    RegistryKey(last.Name, last.Subkeys + k.Subkeys, last.Values + k.Values)
  }

  /** The merge loop from the current result `acc` on (src/PolfileToInternal.cpp:203-222):
      a key named like the last one is absorbed by it, any other is appended. */
  function MergeInto(acc: seq<RegistryKey>, ks: seq<RegistryKey>): (m: seq<RegistryKey>)
    requires acc != []
    ensures m != [] && |m| <= |acc| + |ks|
    decreases |ks|
  {
    if ks == [] then acc
    else
      var last := acc[|acc| - 1];
      if ks[0].Name == last.Name then MergeInto(acc[..|acc| - 1] + [Absorb(last, ks[0])], ks[1..])
      else MergeInto(acc + [ks[0]], ks[1..])
  }

  /** The subkeys of the root: the first entry's key, then the merge loop. */
  function Merge(ks: seq<RegistryKey>): (m: seq<RegistryKey>)
  {
    if ks == [] then [] else MergeInto([ks[0]], ks[1..])
  }

  /** The header the reader expects and the writer writes. */
  function PolHeader(): (h: seq<byte>)
  {
    PolMagic + DwordBytes(PolVersion)
  }

  /** The parts of a file that is only a header. */
  lemma HeaderSlices(contents: seq<byte>)
    ensures contents == PolHeader() ==>
      |contents| == 8 && contents[..4] == PolMagic && contents[4..8] == DwordBytes(PolVersion) && contents[8..] == []
  {
  }

  /** PolfileToInternal once the file is in memory (src/PolfileToInternal.cpp:163-222):
      the header, the entries, then a root named `rootName` holding the merged keys. */
  function PolfileToInternal(rootName: Text, contents: seq<byte>): (r: Result<RegistryKey>)
    ensures r.Ok? ==> r.value.Name == rootName && r.value.Values == []
    ensures r.Ok? ==> |contents| >= 8 && contents[..8] == PolHeader()
    ensures contents == PolHeader() ==> r == Ok(RegistryKey(rootName, [], []))
  {
    HeaderSlices(contents);
    if |contents| < 4 || contents[..4] != PolMagic then Err(Malformed)
    else if |contents| < 8 || contents[4..8] != DwordBytes(PolVersion) then Err(Malformed)
    else
      assert contents[..8] == contents[..4] + contents[4..8];
      match PregEntries(contents[8..])
      case Err(e) => Err(e)
      case Ok(ks) => Ok(RegistryKey(rootName, Merge(ks), []))
  }

  // ---------------------------------------------------------------------------
  // Writing
  // ---------------------------------------------------------------------------

  /** A name as written: its code units, the NUL the writer appends, the separator. */
  function NameBytes(name: Text): (b: seq<byte>)
  {
    UnitsToBytes(name + [NUL]) + UnitBytes(Semicolon)
  }

  /** A DWORD field and the separator after it. */
  function DwordField(n: u32): (b: seq<byte>)
  {
    DwordBytes(n) + UnitBytes(Semicolon)
  }

  /** The bytes RenderRegistryValueToPolFormat writes for a value whose data size
      fits a DWORD (src/InternalToPolfile.cpp:45-127). */
  function EntryBytes(path: Text, v: RegistryValue): (b: seq<byte>)
    requires |v.Data| <= MAXDWORD
  {
    UnitBytes(OpenBracket) + NameBytes(path) + NameBytes(v.Name) + DwordField(v.Type)
      + DwordField(|v.Data|) + v.Data + UnitBytes(CloseBracket)
  }

  /** One entry the writer is asked to write: the key path and the value. */
  datatype Record = Record(path: Text, value: RegistryValue)

  /** The value written for a key that has none (src/InternalToPolfile.cpp:163-175). */
  const EmptyValue: RegistryValue := RegistryValue([], REG_NONE, [])

  /** One entry per value of a key, each under the key's path, in order. */
  function ValueRecords(path: Text, vs: seq<RegistryValue>): (rs: seq<Record>)
    ensures |rs| == |vs|
    ensures forall i :: 0 <= i < |vs| ==> rs[i] == Record(path, vs[i])
  {
    if vs == [] then [] else [Record(path, vs[0])] + ValueRecords(path, vs[1..])
  }

  /** RenderRegistryKeyToPolFormat (src/InternalToPolfile.cpp:139-198): the key's
      path, one empty entry if it has no values, otherwise one entry per value, then
      its subkeys in order, each with its own subkeys. */
  function KeyRecords(k: RegistryKey, pathSoFar: Text): (rs: seq<Record>)
    decreases k
  {
    var path := KeyPath(pathSoFar, k.Name);
    (if k.Values == [] then [Record(path, EmptyValue)] else ValueRecords(path, k.Values))
      + SubkeyRecords(k.Subkeys, path)
  }

  function SubkeyRecords(ks: seq<RegistryKey>, pathSoFar: Text): (rs: seq<Record>)
    decreases ks
  {
    if ks == [] then [] else KeyRecords(ks[0], pathSoFar) + SubkeyRecords(ks[1..], pathSoFar)
  }

  /** What a sequence of writes leaves in the file, and whether all succeeded. */
  datatype Output = Output(bytes: seq<byte>, ok: bool)

  /** The records written in order; a value whose data does not fit a DWORD size
      writes nothing and stops the writer (src/InternalToPolfile.cpp:37-42). */
  function RecordsOutput(rs: seq<Record>): (o: Output)
  {
    if rs == [] then Output([], true)
    else if |rs[0].value.Data| > MAXDWORD then Output([], false)
    else
      var o := RecordsOutput(rs[1..]);
      Output(EntryBytes(rs[0].path, rs[0].value) + o.bytes, o.ok)
  }

  /** InternalToPolfile (src/InternalToPolfile.cpp:200-252): the header, then each
      subkey of the root from an empty path; the root's own values are not written. */
  function PolOutput(root: RegistryKey): (o: Output)
    ensures |o.bytes| >= 8 && o.bytes[..8] == PolHeader()
  {
    var body := RecordsOutput(SubkeyRecords(root.Subkeys, []));
    Output(PolHeader() + body.bytes, body.ok)
  }
}
