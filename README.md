# HiveSwarming `.reg` and `.pol` codecs in Dafny

HiveSwarming converts registry hives to and from two file formats:

- the "Windows Registry Editor Version 5.00" text export (`.reg`), UTF-16 with a byte order mark;
- the Registry Policy File Format (`.pol`, section 2.1 of [MS-GPREG]).

Both formats map one in-memory tree (`RegistryKey`, `RegistryValue`, from
src/Conversions.h) to and from a flat sequence. Here that sequence is a `seq<char16>` of
UTF-16 code units for `.reg` and a `seq<byte>` for `.pol`.

The model covers five parts:

- **`.reg` parser** (src/RegfileToInternal.cpp). The value and key walk is written
  twice:
  - as pure specification functions (`RegParse`);
  - as imperative methods that shrink a cursor the way the C++ does (`RegReader`).
    Each method is proved to compute its function.
- **Older parser** (RegfileToInternal.cpp at the repository root). It shares those
  definitions through a `Variant` flag (`Current` or `Legacy`). The older copy differs
  in four ways:
  - it does not fold CRLF in key names;
  - it does not skip CRLFs where a key list starts;
  - it does not skip the indentation after a continued hex line;
  - it has no one-unit strip after a key.

  `LegacyHex` and `LegacyWalk` state what these differences do to rendered files.
- **`.reg` renderer** (src/InternalToRegfile.cpp). It appends to a `TextSink`
  (`RegWriter`) and is proved to write the text that the rendition functions of
  `RegRender` define. Those functions cover:
  - hex wrapping;
  - the DWORD, QWORD, REG_SZ, MULTI_SZ and EXPAND_SZ renditions with their silent
    fallback to hexadecimal;
  - name escaping;
  - key headers;
  - pre-order key emission.

  The older renderer (InternalToRegfile.cpp at the root) is this renderer with
  extensions off. `LegacyRender` states which trees the extensions leave unchanged.
- **`GlobalStringSubstitute`** (src/CommonFunctions.cpp). It is modelled as the loop it
  is, and proved against a left-to-right, no-rescan substitution function.
- **`.pol` reader and writer** (src/PolfileToInternal.cpp, src/InternalToPolfile.cpp).
  These are:
  - the entry reader and the header check;
  - the merge of adjacent entries that have the same key;
  - the writer, which emits one entry per value and an empty entry for a key without
    values.

The main results:

- **Round trip.** `TreeRoundTrip.RegfileRoundTrip`: for every tree whose key names are
  non-empty, have no backslash below the top key, and have no `]` CRLF in a header,
  parsing the rendered text with extensions off gives the tree back.
- **Stability.** Rendering, parsing and rendering again gives the same text
  (`TreeRoundTrip.RenderingIsStable`).
- **`.pol`.** The `.pol` writer's output reads back as the merged list of the entries it
  wrote (`PolRoundTrip.PolRoundTrip`). For trees of one level of keys this list is the
  tree itself (`PolRoundTrip.FlatRoundTrip`).

Tokens are modelled by their literal values, because the two parsers and the renderer
name the same literals differently:

- src/RegfileToInternal.cpp uses `HexSuffix`, `HexByteNewLine`, a character
  `DefaultValue` and `DwordPrefix` = `dword:`. These are the identifiers of the root
  Constants.h; src/Constants.h spells `DwordPrefix` as `dword`.
- The renderer adds the colon itself.

Three facts of the code that a reader of the format might not expect:

- Only REG_BINARY gets the bare `hex:` prefix. A REG_SZ value whose data is
  `41 00 42 00` (no terminating NUL) is written as `hex(1):41,00,42,00`
  (`Samples.StringSample`).
- A missing blank line after a key's last value is rejected when another header
  follows (`Samples.MissingBlankLineSample`). At the end of the file it is accepted
  (`Samples.MissingFinalBlankLineSample`).
- No parser in the repository reads `qword:`, `multi_sz:` or `expand_sz:`. The model
  proves these renditions lossless against a reference reader (`Extensions`).

## Model

| member | source | states |
|---|---|---|
| Registry.UnitsOfBytesRoundTrip | src/RegfileToInternal.cpp:323-326 | An even-length byte buffer seen as UTF-16 code units and stored back as bytes is unchanged. |
| Registry.BytesToUnitsOfUnits | src/RegfileToInternal.cpp:323-326 | Code units written as little-endian bytes decode back to the same units, whatever bytes follow. |
| Registry.FromToLE | src/RegfileToInternal.cpp:175-176 | A number below 256^w stored little-endian in w bytes reads back as the same number. |
| Registry.ToFromLE | src/InternalToRegfile.cpp:102-112 | Bytes read as a little-endian number and stored back at the same width are the same bytes. |
| Registry.DwordBytes | src/RegfileToInternal.cpp:175-176 | The 4 bytes of a DWORD hold exactly that number, least significant byte first. |
| Tokens.HexPaddedRoundTrip | src/InternalToRegfile.cpp:102-112 | A number below 16^w written as w zero-padded hex digits is exactly w digits, and those digits denote the number. |
| Tokens.PaddedIsLower | src/InternalToRegfile.cpp:45 | Every digit the renderer writes is a lower-case hex digit. |
| Tokens.HexValueDigitwise | src/RegfileToInternal.cpp:166 | Two equally long hex numerals denote the same number iff their digits agree one by one, ignoring case. |
| Tokens.DwordCheck | src/RegfileToInternal.cpp:157-172 | The re-encode-and-compare check accepts eight characters iff they are hex digits (either case) denoting the number read. |
| Substitute.Find | src/CommonFunctions.cpp:68 | A found position lies at or after the starting position, and the pattern fits in the text there. |
| Substitute.FindOccurs | src/CommonFunctions.cpp:68 | The position `find` returns holds an occurrence of the pattern. |
| Substitute.FindFirst | src/CommonFunctions.cpp:68 | Any occurrence at or after the start is found, at its position or earlier. |
| Substitute.FindExact | src/CommonFunctions.cpp:68 | The first occurrence after the start is the position `find` returns. |
| Substitute.GlobalStringSubstitute | src/CommonFunctions.cpp:62-74 | The in-place loop over `Position` computes the left-to-right substitution `Subst`, for every non-empty pattern. |
| Substitute.SubstNoRescan | src/CommonFunctions.cpp:70-73 | Replacing a pattern in itself gives the replacement once: inserted text is never searched again. |
| Substitute.SubstStep | src/CommonFunctions.cpp:70-73 | The substitution replaces an occurrence at the front and resumes after it, or keeps the first unit and moves on. |
| Substitute.SubstLength | src/CommonFunctions.cpp:71 | The result's length is the original length plus k times (length of Replacement − length of Pattern) for the k occurrences replaced. |
| Substitute.SubstAbsent | src/CommonFunctions.cpp:68-69 | A text in which the pattern does not occur is left unchanged. |
| Substitute.SubstUnit | src/CommonFunctions.cpp:62-74 | Substituting a single-unit pattern is the same as mapping that unit to the replacement everywhere. |
| Substitute.MapUnitAppend | src/CommonFunctions.cpp:62-74 | Mapping a unit distributes over concatenation. |
| Substitute.ExpandAppend | src/InternalToRegfile.cpp:424 | Writing LF as CRLF distributes over concatenation. |
| Substitute.FoldExpand | src/RegfileToInternal.cpp:402 | Folding CRLF to LF after expanding LF to CRLF gives the key name back. |
| Substitute.FoldMapUnit | src/RegfileToInternal.cpp:402 | The CRLF fold undoes the LF expansion of any text. |
| Substitute.EscapeUnits | src/InternalToRegfile.cpp:205-207 | Escaping never shortens a text, and leaves it unchanged exactly when it holds no backslash, quote or LF. |
| Substitute.EscapeUnitsAppend | src/InternalToRegfile.cpp:205-207 | Escaping distributes over concatenation. |
| Substitute.MapUnitsEscape | src/InternalToRegfile.cpp:205-207 | The three substitutions `\`→`\\`, `"`→`\"`, LF→CRLF, in that order, escape each unit on its own. |
| Substitute.EscapeIsUnitwise | src/InternalToRegfile.cpp:342-345 | The escaping the renderer applies to names and strings is the unit-by-unit escape. |
| Substitute.EscapeEmpty | src/InternalToRegfile.cpp:342-354 | Escaping gives the empty text iff it is given the empty text. |
| RegParse.QuotedRun | src/RegfileToInternal.cpp:81-114 | A quoted run that is read leaves strictly less text than it was given. |
| RegParse.ValueName | src/RegfileToInternal.cpp:72-120 | A value name that is read (`@` or a quoted run) consumes input. |
| RegParse.DwordData | src/RegfileToInternal.cpp:145-187 | A `dword:` data part that is read consumes input. |
| RegParse.HexRunLength | src/RegfileToInternal.cpp:207 | The type digits end at the first character that is not a hex digit. |
| RegParse.HexTypeSpec | src/RegfileToInternal.cpp:205-225 | Reading the type of `hex(T):` never lengthens the text. |
| RegParse.SkipSpaces | src/RegfileToInternal.cpp:255-257 | Skipping the indentation leaves text that does not start with a space. |
| RegParse.HexData | src/RegfileToInternal.cpp:235-278 | Hex bytes that are read consume input. |
| RegParse.HexValueData | src/RegfileToInternal.cpp:189-278 | A `hex:` data part that is read consumes input. |
| RegParse.StringData | src/RegfileToInternal.cpp:280-335 | A quoted string data part that is read consumes input. |
| RegParse.ValueData | src/RegfileToInternal.cpp:145-335 | A data part that is read consumes input. |
| RegParse.OneValue | src/RegfileToInternal.cpp:70-337 | A value line that is read consumes input. |
| RegParse.SkipNewLines | src/RegfileToInternal.cpp:59-67 | After the blank lines are consumed, the text does not start with CRLF. |
| RegParse.ValueList | src/RegfileToInternal.cpp:51-67 | A value list never lengthens the text. |
| RegParse.PostStrip | src/RegfileToInternal.cpp:430-433 | The strip after a key never lengthens the text. |
| RegParse.RegList | src/RegfileToInternal.cpp:358-370 | A key list never lengthens the text. |
| RegParse.KeysLoop | src/RegfileToInternal.cpp:372-434 | The key loop never lengthens the text. |
| RegReader.ReadQuoted | src/RegfileToInternal.cpp:79-114 | The `ClosingQuotePos` scan computes `QuotedRun`: `\x` gives `x`, a CR before LF is dropped, and a missing quote or a unit in the last position is an error. |
| RegReader.ReadHexBytes | src/RegfileToInternal.cpp:235-278 | The byte loop computes `HexData`. |
| RegReader.ReadHexData | src/RegfileToInternal.cpp:189-233 | The `hex:` / `hex(T):` prefix: T needs at least one hex digit before `)`, and `:` must follow. |
| RegReader.ReadValueData | src/RegfileToInternal.cpp:145-335 | The data dispatch on `dword:`, `hex` or a quote computes `ValueData`. |
| RegReader.ReadValue | src/RegfileToInternal.cpp:70-143 | The name, the mandatory `=` and data after it: computes `OneValue`. |
| RegReader.ValueListToInternal | src/RegfileToInternal.cpp:18-339 | The value loop computes `ValueList`. |
| RegReader.StripAfterKey | src/RegfileToInternal.cpp:430-433 | The loop after a key computes `PostStrip`, which removes one unit per pass. |
| RegReader.RegListToInternal | src/RegfileToInternal.cpp:348-437 | The key walk computes `RegList`. |
| RegReader.ReadRegfileText | src/RegfileToInternal.cpp:500-535 | The preamble check, the key walk, one root and full consumption compute `RegfileToInternal`. |
| RegWriter.TextSink.constructor | src/InternalToRegfile.cpp:480 | A new stream is empty. |
| RegWriter.TextSink.Write | InternalToRegfile.cpp:17-56 | Writing to the stream appends the text and changes nothing else. |
| RegWriter.AppendHexByte | src/InternalToRegfile.cpp:43-61 | One pass of the byte loop and its counter leave the stream plus the rendition of the remaining bytes unchanged. |
| RegWriter.RenderBinaryValue | src/InternalToRegfile.cpp:25-74 | Appends exactly `BinaryRendition`: `hex:` or `hex(type):`, two digits per byte, commas between bytes, wrapped lines, CRLF. |
| RegWriter.RenderDwordValue | src/InternalToRegfile.cpp:89-114 | Appends `dword:` and 8 digits for 4 bytes, and the hex rendition at the same column for any other length. |
| RegWriter.RenderQwordValue | src/InternalToRegfile.cpp:129-154 | Appends `qword:` and 16 digits for 8 bytes, and hex otherwise. |
| RegWriter.EscapeString | src/InternalToRegfile.cpp:205-207 | The three substitutions compute `Escape`. |
| RegWriter.RenderStringValue | src/InternalToRegfile.cpp:169-212 | A quoted, escaped string without its NUL when the data is even, non-empty and has one NUL at the end; hex otherwise. |
| RegWriter.AppendString | src/InternalToRegfile.cpp:260-285 | The next string is quoted and escaped up to its NUL, and the remainder moves past the NUL. |
| RegWriter.RenderMultiSzValue | src/InternalToRegfile.cpp:229-318 | Appends the type token, a colon and the quoted strings with their wrapping, or hex when the data is odd, empty or lacks a final NUL. |
| RegWriter.AppendNextString | src/InternalToRegfile.cpp:258-316 | One pass of the string loop keeps the written text plus what remains to be written unchanged, and consumes the remainder. |
| RegWriter.BreakLine | src/InternalToRegfile.cpp:296-313 | A wrap writes the pending text and `\` CRLF, and restarts the pending text with the indentation. |
| RegWriter.RenderRegistryValue | src/InternalToRegfile.cpp:333-388 | Appends `@=` or the quoted escaped name and `=`, then the data dispatched on type, starting at the prefix's column. |
| RegWriter.RenderValues | src/InternalToRegfile.cpp:438-446 | Appends the values' renditions in order. |
| RegWriter.RenderRegistryKeyToRegFormat | src/InternalToRegfile.cpp:405-468 | Appends the header (path with LF as CRLF), the values, a blank line, then the subkeys in pre-order. |
| RegWriter.RenderSubkeys | src/InternalToRegfile.cpp:457-465 | Appends the subkeys' renditions in order. |
| RegWriter.InternalToRegfile | src/InternalToRegfile.cpp:476-517 | The stream holds the preamble followed by the root rendered with an empty path. |
| RegRender.NulIndex | src/InternalToRegfile.cpp:261-269 | The first NUL, or the end: no NUL comes before it. |
| RegRender.ValuesRenditionAppend | src/InternalToRegfile.cpp:438-446 | The rendition of a list of values is the concatenation of the parts. |
| RegRender.KeysRenditionAppend | src/InternalToRegfile.cpp:457-465 | The rendition of a list of keys is the concatenation of the parts. |
| HexLayout.HexBodyUnbroken | src/InternalToRegfile.cpp:41-61 | While the column stays within 76, the bytes are written on one line, with their commas. |
| HexLayout.HexBodyBreak | src/InternalToRegfile.cpp:41-61 | The line breaks after the first byte whose comma takes the column past 76, and continues at column 2. |
| HexLayout.HexBodyOneLine | src/InternalToRegfile.cpp:41-61 | No comma and no break follow the last byte. |
| HexLayout.UnbrokenAppend | src/InternalToRegfile.cpp:43-50 | Bytes on one line are written in order. |
| RoundTrip.QuotedRunOfEscaped | src/RegfileToInternal.cpp:81-114 | The quoted-run decoder undoes the escape, whatever follows the closing quote. |
| RoundTrip.NameRoundTrip | src/RegfileToInternal.cpp:72-120 | The value prefix the renderer writes reads back as the same name, up to the `=`. |
| RoundTrip.HexTypeParse | src/RegfileToInternal.cpp:205-221 | The type written in `hex(T)` reads back as T. |
| RoundTrip.HexDataContinued | src/RegfileToInternal.cpp:253-259 | After `\` CRLF the current parser skips spaces; the older one does not. |
| RoundTrip.HexBodyRoundTrip | src/RegfileToInternal.cpp:235-278 | Every hex body the renderer writes, at any column and however it wraps, reads back as its bytes. |
| RoundTrip.BinaryRoundTrip | src/RegfileToInternal.cpp:189-278 | The hex rendition reads back as the value's type and bytes. |
| RoundTrip.DwordRoundTrip | src/RegfileToInternal.cpp:145-187 | `dword:` and its eight digits read back as the same four bytes. |
| RoundTrip.StringRoundTrip | src/RegfileToInternal.cpp:280-335 | A quoted REG_SZ reads back as the same bytes, NUL included. |
| RoundTrip.DataRoundTrip | src/RegfileToInternal.cpp:145-335 | With extensions off, every data rendition reads back as the value's type and bytes. |
| RoundTrip.ValueRoundTrip | src/RegfileToInternal.cpp:70-337 | With extensions off, every value line reads back as the value. |
| RoundTrip.ValueListEnd | src/RegfileToInternal.cpp:59-67 | A blank line before a header or the end ends the value list. |
| RoundTrip.ValuesRoundTrip | src/RegfileToInternal.cpp:51-338 | A key's value lines and its blank line read back as its values, in order. |
| TreeRoundTrip.HeaderFind | src/RegfileToInternal.cpp:381-390 | A header whose path has no `]` CRLF ends at the first `]` CRLF. |
| TreeRoundTrip.HeaderParts | src/RegfileToInternal.cpp:390-402 | A written path extends its parent's prefix, and folding the rest gives the key's name. |
| TreeRoundTrip.SiblingPaths | src/RegfileToInternal.cpp:392-396 | A sibling's path never extends a key's own prefix, so the walk stops there. |
| TreeRoundTrip.KeyRoundTrip | src/RegfileToInternal.cpp:372-434 | A rendered key, its values and its subtree read back as that key, before whatever follows. |
| TreeRoundTrip.KeysRoundTrip | src/RegfileToInternal.cpp:372-434 | A rendered list of subkeys reads back as that list. |
| TreeRoundTrip.RegfileRoundTrip | src/RegfileToInternal.cpp:500-535 | With extensions off, parsing the rendered file gives back every tree whose names can be told apart in headers. |
| TreeRoundTrip.RenderingIsStable | src/InternalToRegfile.cpp:476-517 | Rendering what the parser read from a rendered file gives the same text. |
| Extensions.QwordDigits | src/InternalToRegfile.cpp:142-152 | `qword:` is followed by 16 lower-case digits that denote the value's little-endian number, then CRLF. |
| Extensions.MultiSzStringsRoundTrip | src/InternalToRegfile.cpp:257-316 | The comma-separated, wrapped strings read back as the code units they were written from. |
| Extensions.MultiSzRenditionRoundTrip | src/InternalToRegfile.cpp:229-318 | `multi_sz:` / `expand_sz:` and its list of strings lose nothing: the list reads back as the value's bytes. |
| Extensions.MultiSzRead | src/InternalToRegfile.cpp:257-316 | A reference reader for the list consumes input when it succeeds. |
| Samples.DwordSample | src/InternalToRegfile.cpp:102-112 | `78 56 34 12` is written `@=dword:12345678` CRLF and reads back unchanged. |
| Samples.StringSample | src/InternalToRegfile.cpp:183-211 | A REG_SZ holding `41 00 42 00` (no NUL) is written `@=hex(1):41,00,42,00` CRLF and reads back unchanged. |
| Samples.WrapSample | src/InternalToRegfile.cpp:41-61 | 41 bytes written from column 0 break after the 25th byte, with the `\` in column 80. |
| Samples.NestedKeysText | src/InternalToRegfile.cpp:413-465 | `Root` ⊃ `A` ⊃ `B` is written as three headers with full paths, each followed by a blank line. |
| Samples.NestedKeysRead | src/RegfileToInternal.cpp:372-434 | That text reads back as the nested tree. |
| Samples.MissingBlankLineSample | src/RegfileToInternal.cpp:372-380 | A value line followed directly by the next header is rejected. |
| Samples.MissingFinalBlankLineSample | src/RegfileToInternal.cpp:51-56 | A file whose last value line has no blank line after it is accepted. |
| LegacyHex.LongBodyWraps | src/InternalToRegfile.cpp:41-61 | A body of two or more bytes that reaches past the limit breaks its line somewhere. |
| LegacyHex.SpaceRejected | RegfileToInternal.cpp:257-273 | A hex body that continues with a space is an error. |
| LegacyHex.LegacyRejectsWrappedHex | RegfileToInternal.cpp:249-256 | The older parser fails on every hex body that wraps. |
| LegacyHex.LegacyRejectsWrappedValue | RegfileToInternal.cpp:189-275 | The older parser fails on every value written in hexadecimal that wraps. |
| LegacyHex.LegacyRejectsLongBinary | RegfileToInternal.cpp:249-256 | A REG_BINARY value of 25 bytes or more is rejected by the older parser and read back by the current one. |
| LegacyWalk.KeyListStart | RegfileToInternal.cpp:354-369 | An empty key list is an error in both parsers; blank lines before a key list make the older walk fail and are passed over by the current one. |
| LegacyWalk.HeaderOnly | RegfileToInternal.cpp:483-519 | A file with one key and no values is read by both parsers, the older one keeping the name as written and the current one folding CRLF to LF. |
| LegacyWalk.LegacyKeepsCRLF | RegfileToInternal.cpp:381-390 | A key name with an LF, as rendered, reads back under the current parser and comes back with CRLF, a different name, under the older one. |
| LegacyRender.DwordDigits | InternalToRegfile.cpp:129-160 | Four bytes give `dword:`, eight lower-case digits denoting their little-endian value, and CRLF; any other length gives the hex rendition at the same column. |
| LegacyRender.ValueWithoutExtensions | InternalToRegfile.cpp:66-273 | Without extensions a value is written as DWORD, REG_SZ or hex; the extensions change nothing for other types and do change an eight-byte REG_QWORD. |
| LegacyRender.KeyWithoutExtensions | InternalToRegfile.cpp:281-350 | A key whose tree has no REG_QWORD, REG_MULTI_SZ or REG_EXPAND_SZ value is rendered the same with and without extensions. |
| LegacyRender.FileWithoutExtensions | InternalToRegfile.cpp:354-397 | Such a tree gives the same file from the older and the current renderer, and a readable one parses back to itself. |
| PolFormat.UnitBytes | src/PolfileToInternal.cpp:27 | A UTF-16 unit is stored as its low byte then its high byte, and those two bytes read back as the unit. |
| PolFormat.PregEntry | src/PolfileToInternal.cpp:18-140 | An entry that is read consumes input. |
| PolFormat.NameFieldShorter | src/PolfileToInternal.cpp:34-78 | A name read up to its `;` consumes input. |
| PolFormat.EntryValue | src/PolfileToInternal.cpp:80-140 | Reading type, size, data and `]` consumes input. |
| PolFormat.MergeInto | src/PolfileToInternal.cpp:203-222 | The merge never gives more keys than it was given and never gives none. |
| PolFormat.HeaderSlices | src/PolfileToInternal.cpp:166-178 | The header is `PReg` followed by the DWORD 1, and nothing else. |
| PolFormat.PolfileToInternal | src/PolfileToInternal.cpp:143-228 | A file read successfully starts with the header; the root has the given name and no values; a bare header gives a root with no subkeys. |
| PolFormat.ValueRecords | src/InternalToPolfile.cpp:177-185 | One entry per value, the i-th holding the key's path and the i-th value. |
| PolFormat.PolOutput | src/InternalToPolfile.cpp:217-229 | The output starts with `PReg` and the DWORD 1. |
| PolMerge.MergeIntoContents | src/PolfileToInternal.cpp:207-221 | Merging keeps every value and every subkey, in order. |
| PolMerge.MergeIntoDistinct | src/PolfileToInternal.cpp:209-220 | After the merge no two adjacent keys have the same name. |
| PolMerge.MergeIntoIdentity | src/PolfileToInternal.cpp:209-220 | Keys whose neighbours already differ are left as they are. |
| PolMerge.MergeIntoAppend | src/PolfileToInternal.cpp:207-221 | Merging a list in two parts is merging it in one. |
| PolMerge.MergeProperties | src/PolfileToInternal.cpp:200-222 | The merge keeps all values and subkeys in order, leaves distinct neighbours, never grows, is the identity on lists without equal neighbours, and equals the grouping into runs. |
| PolMerge.MergeRun | src/PolfileToInternal.cpp:203-216 | A non-empty run of keys sharing one name merges into a single key of that name holding the run's subkeys and values, in order. |
| PolMerge.MergeSplit | src/PolfileToInternal.cpp:209-221 | Two non-empty lists whose meeting neighbours differ in name merge separately and the results are concatenated. |
| PolMerge.MergeIsGrouped | src/PolfileToInternal.cpp:203-222 | The merge loop equals `Grouped`: one key per maximal run of neighbours sharing a name, holding exactly that run's subkeys and values. |
| PolReader.ReadSinglePregEntry | src/PolfileToInternal.cpp:18-140 | Computes `PregEntry`: `[`, key name, value name, type, size, data, `]`; a size beyond the remaining bytes is an error; the value is kept iff it has a name or a non-zero type. |
| PolReader.ReadEntries | src/PolfileToInternal.cpp:180-190 | The loop reads entries until the input is exhausted; any failed entry aborts. |
| PolReader.EntriesStep | src/PolfileToInternal.cpp:180-190 | One pass of the entry loop either fails the whole read or puts the entry in front of the rest. |
| PolReader.VersionBytes | src/PolfileToInternal.cpp:173-178 | The version check accepts exactly the four bytes of the DWORD 1. |
| PolReader.MergeEntries | src/PolfileToInternal.cpp:200-222 | The merge loop computes `Merge`. |
| PolReader.ReadPolfile | src/PolfileToInternal.cpp:143-228 | The header check, entry loop, root naming and merge compute `PolfileToInternal`. |
| PolWriter.ByteSink.constructor | src/InternalToPolfile.cpp:209 | A new output is empty. |
| PolWriter.ByteSink.Write | src/InternalToPolfile.cpp:45-127 | A write appends the bytes and changes nothing else. |
| PolWriter.RenderRegistryValueToPolFormat | src/InternalToPolfile.cpp:19-130 | Writes `[`, path+NUL, `;`, name+NUL, `;`, type, `;`, size, `;`, data, `]`; fails and writes nothing iff the data is longer than MAXDWORD. |
| PolWriter.OneRecord | src/InternalToPolfile.cpp:37-42 | One entry is written iff its data fits in a DWORD. |
| PolWriter.RenderRegistryKeyToPolFormat | src/InternalToPolfile.cpp:139-198 | Writes an empty entry for a key without values, else one entry per value, then the subkeys in pre-order; stops at the first value that is too large. |
| PolWriter.InternalToPolfile | src/InternalToPolfile.cpp:200-252 | Writes the header, then each root subkey from an empty path, never the root's own values. |
| PolRoundTrip.NameFieldOf | src/PolfileToInternal.cpp:34-78 | A name with no `;` written with its NUL reads back as that name. |
| PolRoundTrip.EntryRoundTrip | src/PolfileToInternal.cpp:18-140 | Every entry the writer emits reads back as a key holding that path and value, or no value when it has no name and type 0. |
| PolRoundTrip.EntryValueRoundTrip | src/PolfileToInternal.cpp:80-140 | Type, size, data and `]` read back as written. |
| PolRoundTrip.RecordsOutputOk | src/InternalToPolfile.cpp:37-42 | The writer succeeds iff every value's data fits in a DWORD. |
| PolRoundTrip.RecordsRoundTrip | src/PolfileToInternal.cpp:180-190 | The entries written read back as the same list of one-value keys. |
| PolRoundTrip.PolRoundTrip | src/PolfileToInternal.cpp:143-228 | A written `.pol` file reads back as the root name over the merged list of the entries written. |
| PolRoundTrip.FlatRoundTrip | src/PolfileToInternal.cpp:200-222 | For a root whose subkeys are leaves with distinct neighbouring names, the file reads back as the same subkeys. |
| PolRoundTrip.PolOutputOk | src/InternalToPolfile.cpp:232-240 | Writing a tree succeeds iff no value below the root has data longer than MAXDWORD. |

## Left out

- File I/O: `CreateFileW`, `GetFileSizeEx`, `ReadFile`, the 4 GB and even-size checks, `WriteStringBufferToFile`, `ReadFileToString` and `WritePODToFile`. A `.reg` input is an already-read `seq<char16>`, a `.pol` input a `seq<byte>`, and output is appended to a `TextSink` or `ByteSink`.
- `ReportError` and the message texts: a failure is `Err(Malformed)` with no message.
- The registry API converters (hive reading and writing), `DeleteHiveLogFiles` and the command line.
- `ExpectAndConsumePODAtReadHead`, `RetrieveAndConsumePODAtReadHead`, `GetWstringViewFromStringView` and `AdvanceReadHead` are not part of this model. They are modelled as little-endian fixed-width reads that fail on short input.
- Behaviour the C++ leaves undetermined is `Err(Indeterminate)`: a value with no recognised data prefix (its `Type` is never assigned), and `hex(T)` with a T that does not fit in 32 bits (the stream overflows).
- Unicode: code units are 16-bit numbers, with no surrogate or validity checks. Hex digits are ASCII. Memory order is little-endian. `isxdigit` is locale-independent.
- RegParse.QuotedRun, RegParse.ValueName, RegParse.OneValue, RegParse.ValueList, RegParse.RegList, RegParse.KeysLoop, RegParse.HexData and the other RegParse functions: their own contracts state only that a successful step consumes input. What they read is stated by the RegReader methods proved equal to them and by the RoundTrip and TreeRoundTrip lemmas.
- PolFormat.PregEntry, PolFormat.EntryValue and PolFormat.MergeInto: their own contracts state only progress and size. What they read is stated by PolReader.ReadSinglePregEntry and the PolRoundTrip lemmas; what the merge keeps and joins is stated by PolMerge.MergeIsGrouped.
- Extensions.MultiSzRead: the repository has no parser for `qword:`, `multi_sz:` or `expand_sz:`. The extension renditions are shown lossless against this reference reader, not against code from the repository.
- RegWriter.RenderMultiSzValue: the line counter adds the whole pending buffer for each string, as the code does. The model keeps that count and does not claim where a reference tool would wrap.
- RegWriter.InternalToRegfile: the older renderer (InternalToRegfile.cpp at the root) is not modelled as a second set of methods. Its only differences are the extensions, which it lacks and which the flag `ext = false` switches off, and how it writes to a file; the LegacyRender module states what switching them off changes.
- TreeRoundTrip.RegfileRoundTrip: stated for trees whose names are non-empty and have no `]` CRLF in a header, and whose keys below the top have no backslash in their names. Other trees do not come back, because the parser cannot tell where such names end.
- PolRoundTrip.PolRoundTrip: a `.pol` file holds full key paths, not a tree. A tree with nested keys reads back as a flat list of path-named keys, and PolRoundTrip.FlatRoundTrip states identity only for a one-level tree.

## Findings

| source | as written | input that shows it | evidently intended | confidence | as-written member | corrected member |
|---|---|---|---|---|---|---|
| RegfileToInternal.cpp:249-256 | After `\` CRLF in hex data, the older parser continues with the next character. That character is one of the two spaces of indentation the renderer writes, and a space is neither a digit nor a comma, so reading fails. | A REG_BINARY value of 25 zero bytes or more, rendered as `@=hex:00,00,…` with a line break and two spaces. | Skip the indentation after the continuation, as src/RegfileToInternal.cpp:253-259 does, so that every rendered body reads back. | not executed | LegacyHex.LegacyRejectsLongBinary | RoundTrip.HexBodyRoundTrip |
