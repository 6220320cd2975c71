# ModFileCreator of ark-mod-unpack, in Dafny

`modfile.py` builds the `<modid>.mod` file that an ARK: Survival Evolved
dedicated server expects next to an unpacked mod. The class
`ModFileCreator` reads two binary files of the unpacked mod:

- `mod.info`: a mod-name string, a map count, then that many map names.
- `modmeta.info`: a pair count, then that many key/value string pairs.

It keeps the non-empty map names in the list `map_names` and the pairs whose
key and value are both non-empty in the ordered dictionary `meta_data`. Only
when both files parse does it write the record into `<modid>.mod`. Every
string in all three files is an Unreal Engine 4 string: a signed 32-bit
length, the bytes, and a terminating NUL. A negative length is the
wide-string flag, and such a string is read as "".

The project has these modules:

- `Outcomes`: `Option`, `Result` and the three exceptions the code can
  raise. These are `ShortRead` (`struct.unpack` of fewer than four bytes),
  `OutOfRange` (`struct.pack` of a number that does not fit) and `BadUtf8`
  (`bytes.decode`).
- `Bytes`: 'i', 'I' and 'p' packing, little-endian. `Utf8`: strict UTF-8,
  code-point counting and ASCII.
- `Streams`: a file opened for reading (`Reader`, with its cursor) and for
  writing (`Sink`).
- `Ue4Strings`: `read_ue4_string` and `write_ue4_string` as functions on
  bytes, with their round-trip properties.
- `OrderedMaps`: the `OrderedDict` as a sequence of pairs with distinct keys.
- `Loops`, `Writes`: a `for` loop of reads that a raise ends early, and a
  run of writes that a raise ends early.
- `ModLayout`: what each parser yields, and the record `create_mod_file`
  writes, as functions of the files' bytes.
- `ModFile`: the class `ModFileCreator` itself. Its fields are `mapNames`
  and `metaData`, and each method is proved equal to its `ModLayout`
  function.
- `ModProperties`, `RecordProperties`: what the parsers and the writer
  promise. This covers the ordered-dictionary semantics of the meta data,
  files written in the expected layout reading back, the short-circuit of
  `create_mod_file`, exactly when the writes succeed, and the exact record
  bytes.
- `Seqs`: generic sequence facts the proofs use.

Modelling choices:

- A Python `str` is its UTF-8 bytes (`Text`). `len(str)` is the number of
  code points (`CodePoints`), which equals the byte count exactly for ASCII.
- An exception is an `Err`. A parser returns `Result<bool>`: `Ok(false)` is
  "not a file", `Ok(true)` is True, an `Err` is a raise. The state a raise
  leaves behind is kept.
- An input file is `Option<seq<byte>>`, where `None` is a path that
  `os.path.isfile` rejects. The output file is `Some(bytes)` once
  `create_mod_file` has opened it, and `None` when it was never opened.
- 'i' and 'I' are packed little-endian, as on the x86 hosts the tool is
  used on.
- `struct.pack('p', b)` with the default count of one writes one byte, the
  length of the Pascal string truncated to zero. So the `mod_type` byte and
  the terminator written by `write_ue4_string` are both 00. The code picks
  b'1' or b'0' for `mod_type`, but a bare 'p' writes 00 for either; the
  model writes what the code writes (`BarePascalIsZero`,
  `BarePascalIgnoresInput`, `MiddleBytes`).
- The length that `write_ue4_string` writes is `len(s) + 1` in code points,
  while `read_ue4_string` reads that many bytes. A string therefore reads
  back only when it is ASCII (`StringRoundTrip`, `NonAsciiDoesNotRoundTrip`).

## Model

| member | source | states |
|---|---|---|
| ModFile.ModFileCreator.constructor | modfile.py:9-10 | a new object has no map names and an empty meta-data dictionary |
| ModFile.ModFileCreator.Init | modfile.py:8-11 | construction leaves the object, the output file and the outcome of `create_mod_file` as that run gives them from empty fields |
| ModFile.ModFileCreator.CreateModFile | modfile.py:13-49 | the fields, output file and result match the run: `mod.info` is parsed first; `modmeta.info` is parsed only if that returned True; the output is written only if both did; keys stay distinct |
| ModFile.ModFileCreator.ReadString | modfile.py:51-61 | the string read and the new cursor are those `DecodeString` gives at the old cursor |
| ModFile.ModFileCreator.WriteString | modfile.py:63-68 | the bytes appended, or the raise, are what one write of `EncodeString(s)` gives; a length that does not fit writes nothing |
| ModFile.ModFileCreator.ParseBaseInfo | modfile.py:124-139 | `map_names` gains exactly the maps `BaseInfo` reads, and the result is its result; `meta_data` is untouched |
| ModFile.ModFileCreator.ReadMapNames | modfile.py:134-137 | after the loop of `map_count` turns (none if negative), the kept names are the non-empty strings read; the result is True, or the first raise |
| ModFile.ModFileCreator.ParseMetaData | modfile.py:70-121 | `meta_data` becomes what `MetaData` gives from the file and the old dictionary, and the result is its result; `map_names` is untouched |
| ModFile.ModFileCreator.ReadPairs | modfile.py:92-119 | the dictionary is the old one with every pair read so far assigned in order; the result is True, or the first raise |
| ModFile.ModFileCreator.WriteField | modfile.py:20-22 | one write appends the packed field or records the raise of its pack |
| ModFile.ModFileCreator.WriteModFile | modfile.py:17-47 | the output file and the raise are those of writing the whole record into the truncated file |
| ModFile.ModFileCreator.WriteHeader | modfile.py:19-25 | the id with four pad bytes, "ModName", "" and the map count are written in order, stopping at a raise |
| ModFile.ModFileCreator.WriteMapNames | modfile.py:27-28 | every map name is written in order as a UE4 string, stopping at a raise |
| ModFile.ModFileCreator.WriteConstants | modfile.py:30-43 | the two unexplained constants, the `mod_type` byte and the pair count are written in order |
| ModFile.ModFileCreator.WriteMetaData | modfile.py:45-47 | every key and then its value are written in dictionary order |
| Streams.ReadAt | modfile.py:104 | `file.read(n)` gives the next `n` bytes, or fewer at the end of the file |
| Streams.Reader.Read | modfile.py:104 | a read returns those bytes and moves the cursor past them |
| Streams.Reader.constructor | modfile.py:88 | `open(..., "rb")` starts reading the file's bytes at cursor 0 |
| Streams.Sink.constructor | modfile.py:17 | `open(..., "w+b")` truncates the output file to no bytes |
| Streams.Sink.Write | modfile.py:67 | a write appends its bytes to the file |
| Ue4Strings.ReadInt32At | modfile.py:52 | the unpack succeeds exactly when four bytes remain, and then packs back to them; otherwise it raises ShortRead |
| Ue4Strings.ReadInt32 | modfile.py:52 | the method reads the count that `ReadInt32At` describes and moves the cursor as it says |
| Ue4Strings.DecodeString | modfile.py:51-61 | it raises ShortRead exactly when fewer than four bytes remain; a non-empty result is the bytes between the length field and the last byte read |
| Ue4Strings.DecodeNonPositive | modfile.py:53-59 | a zero or negative (wide-string) length reads "" and consumes just the length |
| Ue4Strings.DecodePositive | modfile.py:61 | a positive length reads that many bytes (fewer at the end), and decodes all but the last one, or raises BadUtf8 |
| Ue4Strings.DropLast | modfile.py:61 | `raw[:-1]` is all of `raw` but its last byte, and nothing when `raw` is empty |
| Ue4Strings.EncodeString | modfile.py:63-68 | the write raises exactly when `len(s) + 1` does not fit in 32 bits, and then raises OutOfRange; its bytes are stated by `EncodeStringLayout` |
| Ue4Strings.EncodeStringLayout | modfile.py:63-68 | the write succeeds exactly when `len(s) + 1` fits; the length field then unpacks to `len(s) + 1`, followed by `s` and one zero byte |
| Ue4Strings.EncodeEmpty | modfile.py:22 | "" is written as 01 00 00 00 00 |
| Ue4Strings.EncodeAsciiLength | modfile.py:64-65 | for ASCII the length field is the byte count plus one |
| Ue4Strings.StringRoundTrip | modfile.py:51-68 | reading back what was written gives the same string exactly when it is ASCII, with the cursor just past it |
| Ue4Strings.AsciiReadsBack | modfile.py:51-68 | an ASCII string reads back whole and the cursor ends after its encoding |
| Ue4Strings.NonAsciiDoesNotRoundTrip | modfile.py:61-66 | "é" is written with length 2, and reading it back raises BadUtf8 |
| Bytes.PackInt32 | modfile.py:65 | 'i' packing succeeds exactly for 32-bit signed values, giving four bytes; otherwise it raises OutOfRange |
| Bytes.UnpackInt32 | modfile.py:52 | the unpacked value is a 32-bit signed value, negative exactly when the top bit is set |
| Bytes.UnpackPackInt32 | modfile.py:64-65 | unpacking a packed count gives the count back |
| Bytes.PackUnpackInt32 | modfile.py:52 | packing an unpacked count gives the bytes back |
| Bytes.PackUInt32 | modfile.py:31-32 | 'I' packing succeeds exactly for 32-bit unsigned values; the four bytes read back as the value |
| Bytes.LittleEndianInverse | modfile.py:32 | little-endian bytes decode back to the value |
| Bytes.FromLittleEndianInverse | modfile.py:52 | four bytes re-encode to themselves |
| Bytes.PackPascal | modfile.py:41 | a 'p' field is exactly `count` bytes long; its bytes are stated by `PackPascalLayout` and `BarePascalIsZero` |
| Bytes.PackPascalLayout | modfile.py:41 | a 'p' field of `count` bytes holds the truncated length, then the string padded with zeros |
| Bytes.BarePascalIsZero | modfile.py:68 | the bare 'p' writes the single byte 00 |
| Bytes.BarePascalIgnoresInput | modfile.py:36-41 | the bare 'p' writes the same byte whatever its argument, so b'1' and b'0' cannot be told apart |
| Utf8.ValidUtf8 | modfile.py:61 | the bytes `.decode()` accepts (also lines 105 and 115): ASCII is accepted (`AsciiIsValid`), a lone C3 is not (`NonAsciiDoesNotRoundTrip`) |
| Utf8.CodePoints | modfile.py:64 | `len` of a string counts at most its bytes, and at least one for a non-empty string |
| Utf8.CodePointsIsLengthIffAscii | modfile.py:64-66 | `len(s)` equals the UTF-8 byte count exactly when `s` is ASCII |
| Utf8.AsciiIsValid | modfile.py:61 | ASCII bytes always decode |
| Utf8.LeadWidth | modfile.py:61 | a sequence is one byte long exactly when its lead byte is ASCII |
| Utf8.Ascii | modfile.py:21 | a literal of the source becomes ASCII text of the same length |
| OrderedMaps.Keys | modfile.py:36 | the keys of the dictionary, in its order |
| OrderedMaps.Find | modfile.py:119 | the position of the key, or the end when it is absent; earlier positions hold other keys |
| OrderedMaps.FindAbsent | modfile.py:119 | the search reaches the end exactly when the key is absent |
| OrderedMaps.FindUnique | modfile.py:119 | the first position holding the key is where the search stops |
| OrderedMaps.Put | modfile.py:119 | assignment appends a new key at the end and replaces an existing key's value in place; keys stay distinct |
| OrderedMaps.Get | modfile.py:36 | a lookup finds a value exactly when the key is present |
| OrderedMaps.GetPut | modfile.py:119 | after assignment the key maps to the new value and every other key keeps its old value |
| OrderedMaps.KeysPut | modfile.py:119 | assignment adds the key at the end when it is new, and leaves the key order alone otherwise |
| OrderedMaps.FirstOccurrences | modfile.py:119 | every element is kept and nothing else is added |
| OrderedMaps.FirstOccurrencesSnoc | modfile.py:119 | one more key is added at the end unless it occurred before |
| OrderedMaps.FirstOccurrencesOfDistinct | modfile.py:119 | distinct keys are left as they are |
| Loops.Iterations | modfile.py:92 | `range(n)` runs `n` turns, and none when `n` is negative (also line 134) |
| Loops.Finished | modfile.py:92-121 | a loop that ran to the end returns True, and a loop that raised returns the raise |
| Loops.Loop | modfile.py:92 | a loop that does not raise makes all its turns; one that raises stops short |
| Loops.LoopStaysFailed | modfile.py:92-119 | after a raise, further turns change nothing |
| Loops.LoopStops | modfile.py:92-119 | a loop that raised by turn `i` has the same outcome after any later turn |
| Loops.LoopGrows | modfile.py:134-137 | a turn that reads an item appends it and moves the cursor on |
| Loops.LoopFails | modfile.py:134-137 | a turn that raises ends the loop with the items read so far |
| ModLayout.StringsGrow | modfile.py:135 | a map turn that reads a string appends it |
| ModLayout.StringsFail | modfile.py:135 | a map turn that raises ends the loop |
| ModLayout.NonEmpty | modfile.py:136-137 | only non-empty map names are kept, and none are added |
| ModLayout.NonEmptyAppend | modfile.py:136-137 | the kept names of two runs of reads are the kept names of each, in order |
| ModLayout.NonEmptySnoc | modfile.py:136-137 | a read map name is appended exactly when it is non-empty |
| ModLayout.NonEmptyCount | modfile.py:134-137 | of N names read with K empty ones, N - K are kept |
| ModLayout.BaseInfo | modfile.py:124-139 | every map name that parsing adds is non-empty |
| ModLayout.BaseInfoAfterHeader | modfile.py:131-137 | after the mod name and the map count, the maps added and the result come from the loop of `map_count` turns |
| ModLayout.PairAt | modfile.py:94-115 | one pair turn reads a key string and then a value string, never moving the cursor back |
| ModLayout.PairsGrow | modfile.py:96-115 | a pair turn that reads a pair appends it |
| ModLayout.PairsFail | modfile.py:96-115 | a pair turn that raises ends the loop |
| ModLayout.Assign | modfile.py:118-119 | the conditional assignment keeps keys distinct |
| ModLayout.AssignAll | modfile.py:92-119 | the assignments in order keep keys distinct |
| ModLayout.AssignAllSnoc | modfile.py:117-119 | one more pair is one more assignment on the dictionary so far |
| ModLayout.MetaData | modfile.py:70-121 | the meta data parse keeps keys distinct |
| ModLayout.MetaDataAfterHeader | modfile.py:90-121 | after the pair count, the dictionary and the result come from the loop of `total_pairs` turns |
| ModLayout.ModTypeFlag | modfile.py:36-39 | the argument is b'1' exactly when "ModType" is a key, and b'0' exactly when it is not |
| ModLayout.EncodeField | modfile.py:20-47 | one `struct.pack` or `write_ue4_string` of the record: only an out-of-range number raises, with OutOfRange, and the bare 'p' always packs to 00 |
| ModLayout.StrFields | modfile.py:27-28 | one string write per map name, in order |
| ModLayout.PairStrings | modfile.py:45-47 | the keys and values, interleaved key first, in dictionary order |
| ModLayout.PairFields | modfile.py:45-47 | one string write per key and per value, interleaved key first |
| ModLayout.Header | modfile.py:19-25 | four writes precede the map names |
| ModLayout.Middle | modfile.py:30-43 | four writes lie between the map names and the pairs |
| ModLayout.ModRecord | modfile.py:19-47 | the record is 8 writes plus one per map name and two per pair |
| Writes.Then | modfile.py:17-47 | one more write inside the `with` block: the file only grows, nothing happens after a raise, and it stays free of raises exactly when this pack succeeds |
| ModLayout.Written | modfile.py:17-47 | a run of writes only grows the file, and changes nothing after an earlier raise |
| ModLayout.Serialize | modfile.py:17-47 | writing fields into the truncated file raises nothing exactly when every field packs |
| ModLayout.Packs | modfile.py:17-47 | the packed bytes of the fields in order; that a raise-free run of writes appends exactly these is stated by `WrittenBytes` |
| ModLayout.WrittenStep | modfile.py:17-47 | the writes up to field `i + 1` are the writes up to `i`, then field `i` |
| ModLayout.WrittenFailed | modfile.py:17-47 | after a raise, further writes change nothing |
| ModLayout.WrittenAppend | modfile.py:17-47 | writing two runs of fields is writing one run after the other |
| ModLayout.WrittenStops | modfile.py:17-47 | once a prefix of the writes raised, the rest changes nothing |
| ModLayout.WrittenExtends | modfile.py:17-47 | the file only grows |
| ModLayout.WrittenSucceeds | modfile.py:17-47 | no raise occurs exactly when every field packs |
| ModLayout.WrittenBytes | modfile.py:17-47 | without a raise, the file gains exactly the packed fields in order |
| ModLayout.WrittenFour | modfile.py:20-25 | a run of four fields is four writes in order |
| ModLayout.PairWritten | modfile.py:45-47 | writing up to pair `j` is writing up to pair `j - 1`, then its key and its value |
| ModLayout.ModRecordWritten | modfile.py:17-47 | the record is written as the header, then the maps, then the constants, then the pairs |
| ModLayout.CreateModFileRun | modfile.py:13-49 | the run keeps the dictionary's keys distinct |
| ModProperties.StoredKeys | modfile.py:118 | no more keys are stored than pairs were read |
| ModProperties.AssignSets | modfile.py:118-119 | a pair with a non-empty key and value sets that key to the value |
| ModProperties.AssignKeeps | modfile.py:118-119 | every other key, and every key of a skipped pair, keeps its value |
| ModProperties.LastAssignmentWins | modfile.py:92-119 | a stored pair's value is the key's final value unless a later stored pair has the same key |
| ModProperties.LaterAssignments | modfile.py:92-119 | a pair not overridden in the whole file is not overridden among the pairs before the last |
| ModProperties.UnassignedKeyKept | modfile.py:92-119 | a key that no stored pair names keeps its old value, or stays absent |
| ModProperties.EmptyKeyNeverStored | modfile.py:118 | the empty key is never stored |
| ModProperties.AssignAllKeys | modfile.py:92-119 | the final key order is the old keys, then the new stored keys in order of first appearance |
| ModProperties.AssignKeys | modfile.py:118-119 | one assignment adds its key at the end exactly when it is stored and new |
| ModProperties.Encoded | modfile.py:63-68 | a writable string is written without a raise, in its byte length plus five bytes |
| ModProperties.EncodeStringsSnoc | modfile.py:27-28 | writing one more string appends its encoding |
| ModProperties.EncodeStringsPrefix | modfile.py:27-28 | what the first strings write is a prefix of what all of them write |
| ModProperties.StringAt | modfile.py:135 | in a run of written strings, reading at the start of the `k`-th gives it back and moves to the next one |
| ModProperties.StringsReadBack | modfile.py:134-135 | reading `i` strings off a written run gives its first `i` and stops at the `i`-th boundary |
| ModProperties.ModInfoHeader | modfile.py:131-132 | in a `mod.info` laid out as expected, the name reads back and the count gives the number of maps |
| ModProperties.ModInfoMaps | modfile.py:134-137 | the map names of such a file sit right after the count |
| ModProperties.BaseInfoReadsBack | modfile.py:124-139 | parsing a `mod.info` laid out as expected keeps exactly its non-empty map names and returns True |
| ModProperties.PairReadAt | modfile.py:94-115 | in a run of written keys and values, a pair turn at pair `j` reads pair `j` back |
| ModProperties.PairsReadBack | modfile.py:92-115 | reading `i` pairs off a written run gives its first `i` pairs |
| ModProperties.MetaDataReadsBack | modfile.py:70-121 | parsing a `modmeta.info` laid out as expected assigns exactly its pairs in order and returns True |
| ModProperties.CountAt | modfile.py:52 | a packed count unpacks back and moves the cursor four bytes |
| RecordProperties.MissingFileChangesNothing | modfile.py:127-128 | a missing file makes either parser return False without changing anything (also lines 85-86) |
| RecordProperties.NoMapsAppendsNothing | modfile.py:132-134 | a zero or negative map count adds no map names |
| RecordProperties.NoPairsChangesNothing | modfile.py:90-92 | a zero or negative pair count leaves the dictionary as it is |
| RecordProperties.OutputOnlyAfterBothParses | modfile.py:14-17 | the output file is opened exactly when both parsers return True |
| RecordProperties.ResultOfRun | modfile.py:14-15 | True means the output was opened; a run that did not open it returns what the failing parser returned |
| RecordProperties.MetaNotReadAfterBaseFails | modfile.py:14 | when `parse_base_info` does not return True, `modmeta.info` is never read and `meta_data` is untouched |
| RecordProperties.BadModId | modfile.py:17-20 | an id outside 32 bits raises OutOfRange and leaves the opened file empty |
| RecordProperties.AllPackFour | modfile.py:20-25 | four fields all pack exactly when each of them does |
| RecordProperties.ModNameFits | modfile.py:21 | "ModName" is seven code points long and always packs |
| RecordProperties.HeaderPacks | modfile.py:19-25 | the header packs exactly when the id and the map count fit in 32 bits |
| RecordProperties.MiddlePacks | modfile.py:30-43 | the constants, the flag and the pair count pack exactly when the pair count fits |
| RecordProperties.StrFieldsPack | modfile.py:27-28 | a run of string writes packs exactly when every string's length field fits |
| RecordProperties.RecordSucceeds | modfile.py:17-47 | writing the record raises nothing exactly when the id, both counts and every string length fit |
| RecordProperties.WritableFits | modfile.py:63-65 | an ASCII string short enough to read back is short enough to write |
| RecordProperties.PacksAppend | modfile.py:17-47 | the bytes of two runs of fields are the bytes of each, in order |
| RecordProperties.PacksStep | modfile.py:17-47 | one more field appends its packed bytes |
| RecordProperties.PacksFour | modfile.py:20-25 | four fields give their four packings, in order |
| RecordProperties.StrFieldsTake | modfile.py:27-28 | the first `k` string writes are those of the first `k` strings |
| RecordProperties.PacksStrings | modfile.py:27-28 | a run of ASCII strings writes exactly their UE4 encodings, in order |
| RecordProperties.HeaderBytes | modfile.py:19-25 | the header is the id, four zero bytes, "ModName", 01 00 00 00 00 and the map count |
| RecordProperties.MiddleBytes | modfile.py:30-43 | the middle is 33 FF 22 FF, 02 00 00 00, a single 00 and the pair count |
| RecordProperties.ConstantBytes | modfile.py:31-34 | the two unexplained constants pack as 33 FF 22 FF and 02 00 00 00 |
| RecordProperties.RecordBytes | modfile.py:17-47 | for ASCII names, keys and values, the record writes without a raise and its bytes are exactly: the header; the map count and the map names laid out as in `mod.info`; the constants; then the pairs laid out as in `modmeta.info` |

## Left out

- `os.path.join`, `os.path.isfile`, `open`, `with` and closing are not modelled. Input files are given by their contents or as absent, and the output file is its bytes.
- `int(modid)` is not modelled. `modid` is given as an integer, and only its 32-bit range failure when packed is modelled.
- A `modid` that `int` rejects would raise after the output file was opened, leaving it empty. That case is not modelled.
- The `__main__` block is not modelled: reading `sys.argv` is I/O.
- Host byte order and struct alignment are fixed to little-endian. A big-endian host would write different bytes.
- `ModFile.ModFileCreator.ParseBaseInfo` appends the map names once, after the loop, not one at a time inside it. The final `map_names` is the same, also after a raise, because the loop hands back the names kept so far with its error.
- `ModFile.ModFileCreator.WriteModFile` works in stages (header, map names, constants, pairs), each a method over copies of the fields. This gives the same sequence of writes as the one `with` block.
- `RecordProperties.RecordBytes` gives the exact bytes only when every map name, key and value is ASCII. For other text, `RecordSucceeds` still says when the writes succeed, and `Ue4Strings.NonAsciiDoesNotRoundTrip` shows why such a record does not read back.
- `ModProperties.BaseInfoReadsBack` and `ModProperties.MetaDataReadsBack` are stated for files written in the expected layout with ASCII strings. Arbitrary files are covered by `ModLayout.BaseInfo` and `ModLayout.MetaData` themselves.
- Errors that the operating system raises while reading or writing (permissions, a full disk) are not modelled.
