/** The `ModFileCreator` class of `modfile.py`: its two fields, which the
    parsers fill, and its methods, each proved to do what the functions of
    module ModLayout say. Files are given as their bytes; `None` stands for a
    path that `os.path.isfile` rejects. The output file is the `Sink` that
    `create_mod_file` opens; it is returned as `Some(bytes)` when it was
    opened and `None` when it was left alone. */
module ModFile {
  import opened Outcomes
  import opened Bytes
  import opened Utf8
  import opened Streams
  import opened Ue4Strings
  import opened OrderedMaps
  import opened Loops
  import opened Writes
  import opened ModLayout

  class ModFileCreator {
    /** `map_names`: map names from mod.info, in the order read */
    var mapNames: seq<Text>
    /** `meta_data`: the OrderedDict of key/value pairs from modmeta.info */
    var metaData: seq<Pair>

    ghost predicate Valid()
      reads this
    {
      DistinctKeys(metaData)
    }

    /** The field initialisers of `__init__`. */
    constructor ()
      ensures Valid() && mapNames == [] && metaData == []
    {
      mapNames := [];
      metaData := [];
    }

    /** `ModFileCreator(dPath, modid)`: the field initialisers, then
        `create_mod_file`, whose result `__init__` drops; what is left is the
        object, the output file, and `r`, which still tells whether
        `create_mod_file` raised. */
    static method Init(info: Option<seq<byte>>, meta: Option<seq<byte>>, modid: int)
      returns (c: ModFileCreator, r: Result<bool>, output: Option<seq<byte>>)
      ensures fresh(c) && c.Valid()
      ensures Run(r, output, c.mapNames, c.metaData) == CreateModFileRun(info, meta, modid, [], [])
    {
      c := new ModFileCreator();
      r, output := c.CreateModFile(info, meta, modid);
    }

    /** `create_mod_file(dPath, modid)`, with the two input files given by
        their contents and `modid` already converted by `int`. It parses
        `mod.info`, then `modmeta.info`, and only when both return True does
        it open the output file, truncate it and write the record; a raise
        inside the `with` block leaves what was written so far. */
    method CreateModFile(info: Option<seq<byte>>, meta: Option<seq<byte>>, modid: int)
      returns (r: Result<bool>, output: Option<seq<byte>>)
      requires Valid()
      modifies this
      ensures Valid()
      ensures Run(r, output, mapNames, metaData) == CreateModFileRun(info, meta, modid, old(mapNames), old(metaData))
    {
      ghost var run := CreateModFileRun(info, meta, modid, mapNames, metaData);
      output := None;
      r := ParseBaseInfo(info);
      if r != Ok(true) {
        assert run == Run(r, None, mapNames, metaData);
        return;
      }
      r := ParseMetaData(meta);
      if r != Ok(true) {
        assert run == Run(r, None, mapNames, metaData);
        return;
      }
      assert run.output == Some(Serialize(ModRecord(modid, mapNames, metaData)).bytes);
      var f := new Sink();
      var raised := WriteModFile(modid, f);
      output := Some(f.written);
      r := if raised.Some? then Err(raised.value) else Ok(true);
    }

    /** `read_ue4_string(file)` */
    static method ReadString(f: Reader) returns (r: Result<Text>)
      requires f.Valid()
      modifies f`pos
      ensures f.Valid()
      ensures Step(r, f.pos) == DecodeString(f.data, old(f.pos))
    {
      var count := ReadInt32(f);
      if count.Err? {
        return Err(count.error);
      }
      var n := count.value;
      var flag := false;
      if n < 0 {
        flag := true;
        n := n - 1;
      }
      if flag || n <= 0 {
        return Ok([]);
      }
      var raw := f.Read(n);
      var payload := DropLast(raw);
      if !ValidUtf8(payload) {
        return Err(BadUtf8);
      }
      return Ok(payload);
    }

    /** `write_ue4_string(s, file)`: the length, the bytes and the
        terminator, or a raise before anything is written. */
    static method WriteString(s: Text, f: Sink) returns (r: Option<Failure>)
      modifies f
      ensures Output(f.written, r) == Then(Output(old(f.written), None), EncodeString(s))
    {
      var length := PackInt32(CodePoints(s) + 1);
      if length.Err? {
        return Some(length.error);
      }
      f.Write(length.value);
      f.Write(s);
      f.Write(PackPascal(1, Ascii("0")));
      return None;
    }

    /** `parse_base_info`: skip the mod's name, read the map count, then read
        that many strings and append the non-empty ones to `map_names`. */
    method ParseBaseInfo(info: Option<seq<byte>>) returns (r: Result<bool>)
      requires Valid()
      modifies this
      ensures Valid()
      ensures mapNames == old(mapNames) + BaseInfo(info).0
      ensures r == BaseInfo(info).1
      ensures metaData == old(metaData)
    {
      if info.None? {
        return Ok(false);
      }
      var f := new Reader(info.value);
      ghost var d := info.value;
      var name := ReadString(f);
      if name.Err? {
        assert BaseInfo(info) == ([], Err(name.error));
        assert mapNames == old(mapNames) + [];
        return Err(name.error);
      }
      ghost var nameEnd := f.pos;
      assert nameEnd == DecodeString(d, 0).pos;
      var mapCount := ReadInt32(f);
      if mapCount.Err? {
        assert BaseInfo(info) == ([], Err(mapCount.error));
        assert mapNames == old(mapNames) + [];
        return Err(mapCount.error);
      }
      BaseInfoAfterHeader(d, f.pos, mapCount.value);
      var kept;
      kept, r := ReadMapNames(f, mapCount.value);
      mapNames := mapNames + kept;
    }

    /** The `for` loop of `parse_base_info`: `mapCount` turns, each reading
        one string and keeping it when it is not empty. What it keeps is what
        the loop appends to `map_names`, also when a read raises part way. */
    static method ReadMapNames(f: Reader, mapCount: int) returns (kept: seq<Text>, r: Result<bool>)
      requires f.Valid()
      modifies f`pos
      ensures kept == NonEmpty(StringsUpTo(f.data, old(f.pos), Iterations(mapCount)).items)
      ensures r == Finished(StringsUpTo(f.data, old(f.pos), Iterations(mapCount)))
    {
      ghost var d, p0, n := f.data, f.pos, Iterations(mapCount);
      kept := [];
      var i := 0;
      while i < mapCount
        invariant 0 <= i <= n
        invariant f.Valid() && f.data == d
        invariant StringsUpTo(d, p0, i).status == Ok(f.pos)
        invariant kept == NonEmpty(StringsUpTo(d, p0, i).items)
      {
        ghost var before, pos := StringsUpTo(d, p0, i).items, f.pos;
        var curMap := ReadString(f);
        if curMap.Err? {
          StringsFail(d, p0, i, n, pos);
          return kept, Err(curMap.error);
        }
        StringsGrow(d, p0, i, pos, curMap.value, f.pos);
        NonEmptySnoc(before, curMap.value);
        if curMap.value != [] {
          kept := kept + [curMap.value];
        }
        i := i + 1;
      }
      return kept, Ok(true);
    }

    /** `parse_meta_data`: read the pair count, then that many key/value
        pairs, and assign each pair whose key and value are both non-empty. */
    method ParseMetaData(meta: Option<seq<byte>>) returns (r: Result<bool>)
      requires Valid()
      modifies this
      ensures Valid()
      ensures metaData == MetaData(meta, old(metaData)).0
      ensures r == MetaData(meta, old(metaData)).1
      ensures mapNames == old(mapNames)
    {
      if meta.None? {
        return Ok(false);
      }
      var f := new Reader(meta.value);
      var totalPairs := ReadInt32(f);
      if totalPairs.Err? {
        return Err(totalPairs.error);
      }
      MetaDataAfterHeader(meta.value, metaData, f.pos, totalPairs.value);
      metaData, r := ReadPairs(f, totalPairs.value, metaData);
    }

    /** The `for` loop of `parse_meta_data`, run on the dictionary `m`: each
        turn reads a key and a value, by the same steps as `read_ue4_string`,
        and assigns them when both are non-empty. What it returns is the
        dictionary the loop leaves behind, also when a read raises part way. */
    static method ReadPairs(f: Reader, totalPairs: int, m0: seq<Pair>) returns (m: seq<Pair>, r: Result<bool>)
      requires f.Valid() && DistinctKeys(m0)
      modifies f`pos
      ensures m == AssignAll(m0, PairsUpTo(f.data, old(f.pos), Iterations(totalPairs)).items)
      ensures r == Finished(PairsUpTo(f.data, old(f.pos), Iterations(totalPairs)))
    {
      ghost var d, p0, n := f.data, f.pos, Iterations(totalPairs);
      m := m0;
      var i := 0;
      while i < totalPairs
        invariant 0 <= i <= n
        invariant f.Valid() && f.data == d
        invariant PairsUpTo(d, p0, i).status == Ok(f.pos)
        invariant m == AssignAll(m0, PairsUpTo(d, p0, i).items)
      {
        ghost var before, pos := PairsUpTo(d, p0, i).items, f.pos;
        var key := ReadString(f);
        if key.Err? {
          assert PairAt(d, pos).outcome == Err(key.error);
          PairsFail(d, p0, i, n, pos);
          return m, Err(key.error);
        }
        var value := ReadString(f);
        if value.Err? {
          assert PairAt(d, pos).outcome == Err(value.error);
          PairsFail(d, p0, i, n, pos);
          return m, Err(value.error);
        }
        assert PairAt(d, pos) == Step(Ok((key.value, value.value)), f.pos);
        PairsGrow(d, p0, i, pos, (key.value, value.value), f.pos);
        AssignAllSnoc(m0, before, (key.value, value.value));
        if key.value != [] && value.value != [] {
          m := Put(m, key.value, value.value);
        }
        i := i + 1;
      }
      return m, Ok(true);
    }

    /** One `f.write(struct.pack(...))` or `write_ue4_string` call: a pack
        that raises writes nothing. */
    static method WriteField(fd: Field, f: Sink) returns (r: Option<Failure>)
      modifies f
      ensures Output(f.written, r) == Then(Output(old(f.written), None), EncodeField(fd))
    {
      if fd.Str? {
        r := WriteString(fd.s, f);
      } else {
        var packed := EncodeField(fd);
        if packed.Err? {
          return Some(packed.error);
        }
        f.Write(packed.value);
        r := None;
      }
    }

    /** The body of the `with open(...)` block of `create_mod_file`, on the
        freshly truncated output file: every write of the record, in order,
        up to a pack that raises. */
    method WriteModFile(modid: int, f: Sink) returns (r: Option<Failure>)
      requires f.written == []
      modifies f
      ensures Output(f.written, r) == Serialize(ModRecord(modid, mapNames, metaData))
    {
      var maps, meta := mapNames, metaData;
      ModRecordWritten(modid, maps, meta);
      ghost var header := Written(Fresh, Header(modid, maps));
      ghost var names := Written(header, StrFields(maps));
      ghost var middle := Written(names, Middle(meta));
      assert Output(f.written, None) == Fresh;
      r := WriteHeader(modid, maps, f);
      if r.Some? {
        WrittenFailed(header, StrFields(maps));
        WrittenFailed(header, Middle(meta));
        WrittenFailed(header, PairFields(meta));
        return;
      }
      r := WriteMapNames(maps, f);
      if r.Some? {
        WrittenFailed(names, Middle(meta));
        WrittenFailed(names, PairFields(meta));
        return;
      }
      r := WriteConstants(meta, f);
      if r.Some? {
        WrittenFailed(middle, PairFields(meta));
        return;
      }
      r := WriteMetaData(meta, f);
    }

    /** The id (with its four pad bytes), "ModName", "" and the map count. */
    static method WriteHeader(modid: int, maps: seq<Text>, f: Sink) returns (r: Option<Failure>)
      modifies f
      ensures Output(f.written, r) == Written(Output(old(f.written), None), Header(modid, maps))
    {
      var h := Header(modid, maps);
      WrittenFour(Output(f.written, None), h);
      r := WriteField(h[0], f);
      if r.Some? { return; }
      r := WriteField(h[1], f);
      if r.Some? { return; }
      r := WriteField(h[2], f);
      if r.Some? { return; }
      r := WriteField(h[3], f);
    }

    /** `for m in self.map_names: self.write_ue4_string(m, f)` */
    static method WriteMapNames(maps: seq<Text>, f: Sink) returns (r: Option<Failure>)
      modifies f
      ensures Output(f.written, r) == Written(Output(old(f.written), None), StrFields(maps))
    {
      ghost var o := Output(f.written, None);
      ghost var fs := StrFields(maps);
      var i := 0;
      while i < |maps|
        invariant 0 <= i <= |maps|
        invariant Output(f.written, None) == Written(o, fs[..i])
      {
        WrittenStep(o, fs, i);
        r := WriteField(Str(maps[i]), f);
        if r.Some? {
          WrittenStops(o, fs, i + 1);
          return;
        }
        i := i + 1;
      }
      assert fs[..i] == fs;
      return None;
    }

    /** The two constants of unknown meaning, the ModType byte and the pair
        count. */
    static method WriteConstants(meta: seq<Pair>, f: Sink) returns (r: Option<Failure>)
      modifies f
      ensures Output(f.written, r) == Written(Output(old(f.written), None), Middle(meta))
    {
      WrittenFour(Output(f.written, None), Middle(meta));
      r := WriteField(UInt32(UnknownWord), f);
      if r.Some? { return; }
      r := WriteField(Int32(UnknownTwo), f);
      if r.Some? { return; }
      r := WriteField(Pascal(ModTypeFlag(meta)), f);
      if r.Some? { return; }
      r := WriteField(Int32(|meta|), f);
    }

    /** `for k, v in self.meta_data.items()`: the key, then the value. */
    static method WriteMetaData(meta: seq<Pair>, f: Sink) returns (r: Option<Failure>)
      modifies f
      ensures Output(f.written, r) == Written(Output(old(f.written), None), PairFields(meta))
    {
      ghost var o := Output(f.written, None);
      ghost var fs := PairFields(meta);
      var j := 0;
      while j < |meta|
        invariant 0 <= j <= |meta|
        invariant Output(f.written, None) == Written(o, fs[..2 * j])
      {
        PairWritten(o, meta, j);
        r := WriteField(Str(meta[j].0), f);
        if r.Some? {
          WrittenStops(o, fs, 2 * j + 2);
          return;
        }
        r := WriteField(Str(meta[j].1), f);
        if r.Some? {
          WrittenStops(o, fs, 2 * j + 2);
          return;
        }
        j := j + 1;
      }
      assert fs[..2 * j] == fs;
      return None;
    }
  }
}
