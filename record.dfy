/** What `create_mod_file` promises about its run as a whole: when the
    output file is opened, when the writes succeed, and what the record
    holds byte by byte. */
module RecordProperties {
  import opened Outcomes
  import opened Bytes
  import opened Utf8
  import opened Ue4Strings
  import opened OrderedMaps
  import opened Loops
  import opened Writes
  import opened ModLayout
  import opened ModProperties
  import opened Seqs

  // ---------------------------------------------------------------------
  // The parsers' guards

  /** A path that is not a file makes either parser return False and change
      nothing. */
  lemma MissingFileChangesNothing(m: seq<Pair>)
    requires DistinctKeys(m)
    ensures BaseInfo(None) == ([], Ok(false))
    ensures MetaData(None, m) == (m, Ok(false))
  {
  }

  /** A map count of zero or less reads and appends nothing. */
  lemma NoMapsAppendsNothing(d: seq<byte>)
    requires DecodeString(d, 0).outcome.Ok?
    requires var count := ReadInt32At(d, DecodeString(d, 0).pos);
             count.outcome.Ok? && count.outcome.value <= 0
    ensures BaseInfo(Some(d)) == ([], Ok(true))
  {
  }

  /** A pair count of zero or less leaves `meta_data` as it was. */
  lemma NoPairsChangesNothing(d: seq<byte>, m: seq<Pair>)
    requires DistinctKeys(m)
    requires ReadInt32At(d, 0).outcome.Ok? && ReadInt32At(d, 0).outcome.value <= 0
    ensures MetaData(Some(d), m) == (m, Ok(true))
  {
  }

  // ---------------------------------------------------------------------
  // The short-circuit of create_mod_file

  /** The output file is opened exactly when both parsers returned True. */
  lemma OutputOnlyAfterBothParses(info: Option<seq<byte>>, meta: Option<seq<byte>>, modid: int,
                                  maps0: seq<Text>, meta0: seq<Pair>)
    requires DistinctKeys(meta0)
    ensures CreateModFileRun(info, meta, modid, maps0, meta0).output.Some? <==>
              BaseInfo(info).1 == Ok(true) && MetaData(meta, meta0).1 == Ok(true)
  {
  }

  /** A run returns True only when it opened the output file, and a run
      that did not open it returns what the failing parser returned. */
  lemma ResultOfRun(info: Option<seq<byte>>, meta: Option<seq<byte>>, modid: int,
                    maps0: seq<Text>, meta0: seq<Pair>)
    requires DistinctKeys(meta0)
    ensures var run := CreateModFileRun(info, meta, modid, maps0, meta0);
            (run.result == Ok(true) ==> run.output.Some?) &&
            (run.output.None? ==> run.result == if BaseInfo(info).1 != Ok(true) then BaseInfo(info).1
                                                else MetaData(meta, meta0).1)
  {
  }

  /** When `parse_base_info` does not return True, `modmeta.info` is never
      read: the run is the same whatever that file holds, and `meta_data` is
      left alone. */
  lemma MetaNotReadAfterBaseFails(info: Option<seq<byte>>, meta: Option<seq<byte>>, meta': Option<seq<byte>>,
                                  modid: int, maps0: seq<Text>, meta0: seq<Pair>)
    requires DistinctKeys(meta0) && BaseInfo(info).1 != Ok(true)
    ensures CreateModFileRun(info, meta, modid, maps0, meta0) == CreateModFileRun(info, meta', modid, maps0, meta0)
    ensures CreateModFileRun(info, meta, modid, maps0, meta0).meta == meta0
  {
  }

  /** The id is packed first: one that does not fit in 32 bits raises
      before anything is written, leaving the output file empty. */
  lemma BadModId(info: Option<seq<byte>>, meta: Option<seq<byte>>, modid: int,
                 maps0: seq<Text>, meta0: seq<Pair>)
    requires DistinctKeys(meta0) && !IsInt32(modid)
    requires BaseInfo(info).1 == Ok(true) && MetaData(meta, meta0).1 == Ok(true)
    ensures var run := CreateModFileRun(info, meta, modid, maps0, meta0);
            run.output == Some([]) && run.result == Err(OutOfRange)
  {
    var run := CreateModFileRun(info, meta, modid, maps0, meta0);
    var maps1, meta1 := run.maps, run.meta;
    var h := Header(modid, maps1);
    var first := Then(Fresh, EncodeField(h[0]));
    assert first == Output([], Some(OutOfRange));
    WrittenFour(Fresh, h);
    assert Written(Fresh, h) == first;
    ModRecordWritten(modid, maps1, meta1);
    WrittenFailed(first, StrFields(maps1));
    WrittenFailed(first, Middle(meta1));
    WrittenFailed(first, PairFields(meta1));
  }

  // ---------------------------------------------------------------------
  // When the writes succeed

  /** Every field of `fs` packs without raising. */
  predicate AllPack(fs: seq<Field>)
  {
    forall i :: 0 <= i < |fs| ==> EncodeField(fs[i]).Ok?
  }

  /** A string `write_ue4_string` can write: `len(s) + 1` fits in 32 bits. */
  predicate Fits(s: Text) { CodePoints(s) + 1 < TWO_31 }

  predicate AllFit(ss: seq<Text>) { forall i :: 0 <= i < |ss| ==> Fits(ss[i]) }

  lemma AllPackFour(fs: seq<Field>)
    requires |fs| == 4
    ensures AllPack(fs) <==>
              EncodeField(fs[0]).Ok? && EncodeField(fs[1]).Ok? && EncodeField(fs[2]).Ok? && EncodeField(fs[3]).Ok?
  {
  }

  /** "ModName" is seven characters long. */
  lemma ModNameFits()
    ensures CodePoints(ModName()) == 7 && Fits(ModName())
  {
    CodePointsIsLengthIffAscii(ModName());
  }

  /** The header packs exactly when the id and the map count fit in 32
      bits. */
  lemma HeaderPacks(modid: int, maps: seq<Text>)
    ensures AllPack(Header(modid, maps)) <==> IsInt32(modid) && |maps| < TWO_31
  {
    ModNameFits();
    EncodeStringLayout(ModName());
    EncodeEmpty();
    AllPackFour(Header(modid, maps));
  }

  /** The constants and the flag always pack; the pair count must fit. */
  lemma MiddlePacks(meta: seq<Pair>)
    ensures AllPack(Middle(meta)) <==> |meta| < TWO_31
  {
    AllPackFour(Middle(meta));
  }

  /** Strings pack exactly when each of them fits. */
  lemma StrFieldsPack(ss: seq<Text>)
    ensures AllPack(StrFields(ss)) <==> AllFit(ss)
  {
    forall i | 0 <= i < |ss| ensures EncodeField(StrFields(ss)[i]).Ok? <==> Fits(ss[i]) {
      EncodeStringLayout(ss[i]);
    }
  }

  /** The writes of the record all succeed exactly when the id and both
      counts fit in 32 bits and every map name, key and value is short
      enough for its length field. */
  lemma RecordSucceeds(modid: int, maps: seq<Text>, meta: seq<Pair>)
    ensures Serialize(ModRecord(modid, maps, meta)).raised.None? <==>
              IsInt32(modid) && |maps| < TWO_31 && |meta| < TWO_31 && AllFit(maps) && AllFit(PairStrings(meta))
  {
    var h, n, c, p := Header(modid, maps), StrFields(maps), Middle(meta), PairFields(meta);
    var o1 := Written(Fresh, h);
    var o2 := Written(o1, n);
    var o3 := Written(o2, c);
    ModRecordWritten(modid, maps, meta);
    WrittenSucceeds(Fresh, h);
    WrittenSucceeds(o1, n);
    WrittenSucceeds(o2, c);
    WrittenSucceeds(o3, p);
    HeaderPacks(modid, maps);
    StrFieldsPack(maps);
    MiddlePacks(meta);
    StrFieldsPack(PairStrings(meta));
  }

  // ---------------------------------------------------------------------
  // The bytes of the record

  /** An ASCII string short enough to read back is short enough to write. */
  lemma WritableFits(ss: seq<Text>)
    requires AllWritable(ss)
    ensures AllFit(ss)
  {
    forall i | 0 <= i < |ss| ensures Fits(ss[i]) {
      CodePointsIsLengthIffAscii(ss[i]);
    }
  }

  /** The bytes of `a + b` are those of `a`, then those of `b`. */
  lemma {:induction false} PacksAppend(a: seq<Field>, b: seq<Field>)
    ensures Packs(a + b) == Packs(a) + Packs(b)
    decreases |b|
  {
    if b == [] {
      AppendEmpty(a);
      AppendEmpty(Packs(a));
    } else {
      var init, last := b[..|b| - 1], EncodeField(b[|b| - 1]);
      var tail := if last.Ok? then last.value else [];
      DropLastAppend(a, b);
      assert Packs(a + b) == Packs(a + init) + tail;
      assert Packs(b) == Packs(init) + tail;
      PacksAppend(a, init);
      AppendAssoc(Packs(a), Packs(init), tail);
    }
  }

  /** The bytes of one more field of `fs`. */
  lemma PacksStep(fs: seq<Field>, i: nat)
    requires i < |fs| && EncodeField(fs[i]).Ok?
    ensures Packs(fs[..i + 1]) == Packs(fs[..i]) + EncodeField(fs[i]).value
  {
    TakeTake(fs, i, i + 1);
  }

  lemma PacksFour(fs: seq<Field>)
    requires |fs| == 4
    requires EncodeField(fs[0]).Ok? && EncodeField(fs[1]).Ok? && EncodeField(fs[2]).Ok? && EncodeField(fs[3]).Ok?
    ensures Packs(fs) ==
              EncodeField(fs[0]).value + EncodeField(fs[1]).value + EncodeField(fs[2]).value + EncodeField(fs[3]).value
  {
    var e0, e1, e2, e3 := EncodeField(fs[0]).value, EncodeField(fs[1]).value, EncodeField(fs[2]).value, EncodeField(fs[3]).value;
    TakeEnds(fs);
    EmptyAppend(e0);
    PacksStep(fs, 0);
    assert Packs(fs[..1]) == e0;
    PacksStep(fs, 1);
    PacksStep(fs, 2);
    PacksStep(fs, 3);
    assert Packs(fs[..4]) == e0 + e1 + e2 + e3;
  }

  lemma StrFieldsTake(ss: seq<Text>, k: nat)
    requires k <= |ss|
    ensures StrFields(ss)[..k] == StrFields(ss[..k])
  {
  }

  /** Written strings are their encodings, one after the other. */
  lemma {:induction false} PacksStrings(ss: seq<Text>)
    requires AllWritable(ss)
    ensures Packs(StrFields(ss)) == EncodeStrings(ss)
    decreases |ss|
  {
    if ss != [] {
      var k := |ss| - 1;
      StrFieldsTake(ss, k);
      PacksStrings(ss[..k]);
    }
  }

  /** The header: the id, four zero bytes, "ModName", the empty string
      (01 00 00 00 00) and the map count. */
  lemma HeaderBytes(modid: int, maps: seq<Text>)
    requires IsInt32(modid) && |maps| < TWO_31
    ensures Packs(Header(modid, maps)) ==
              PackInt32(modid).value + [0, 0, 0, 0] + Encoded(ModName()) + [1, 0, 0, 0, 0] + PackInt32(|maps|).value
  {
    var h := Header(modid, maps);
    HeaderPacks(modid, maps);
    AllPackFour(h);
    PacksFour(h);
    EncodeEmpty();
    assert Zeros(4) == [0, 0, 0, 0];
  }

  /** The constants 33 FF 22 FF and 02 00 00 00, the one flag byte 00, and
      the pair count. */
  lemma MiddleBytes(meta: seq<Pair>)
    requires |meta| < TWO_31
    ensures Packs(Middle(meta)) == [0x33, 0xFF, 0x22, 0xFF] + [2, 0, 0, 0] + [0] + PackInt32(|meta|).value
  {
    var c := Middle(meta);
    MiddlePacks(meta);
    AllPackFour(c);
    PacksFour(c);
    BarePascalIsZero(ModTypeFlag(meta));
    ConstantBytes();
  }

  /** The two constants as they are written: 4280483635 is 33 FF 22 FF. */
  lemma ConstantBytes()
    ensures PackUInt32(UnknownWord) == Ok([0x33, 0xFF, 0x22, 0xFF])
    ensures PackInt32(UnknownTwo) == Ok([2, 0, 0, 0])
  {
    assert LittleEndian(UnknownWord) == [0x33, 0xFF, 0x22, 0xFF];
    assert LittleEndian(UnknownTwo) == [2, 0, 0, 0];
  }

  /** When every string is ASCII and everything fits, the writes succeed
      and the record is, in order: the id, four zero bytes, "ModName", "",
      the map count and the map names, the two constants, the flag byte, and
      then exactly what `modmeta.info` holds when it lists the same pairs:
      the pair count and the keys and values pair by pair. */
  lemma RecordBytes(modid: int, maps: seq<Text>, meta: seq<Pair>)
    requires IsInt32(modid) && |maps| < TWO_31 && |meta| < TWO_31
    requires AllWritable(maps) && AllWritable(PairStrings(meta))
    ensures var out := Serialize(ModRecord(modid, maps, meta));
            out.raised.None? &&
            out.bytes == (PackInt32(modid).value + [0, 0, 0, 0] + Encoded(ModName()) + [1, 0, 0, 0, 0]) +
                         (PackInt32(|maps|).value + EncodeStrings(maps)) +
                         ([0x33, 0xFF, 0x22, 0xFF] + [2, 0, 0, 0] + [0]) + ModMetaFile(meta)
  {
    var h, n, c, p := Header(modid, maps), StrFields(maps), Middle(meta), PairFields(meta);
    var out := Serialize(ModRecord(modid, maps, meta));
    var x := PackInt32(modid).value + [0, 0, 0, 0] + Encoded(ModName()) + [1, 0, 0, 0, 0];
    var k: seq<byte> := [0x33, 0xFF, 0x22, 0xFF] + [2, 0, 0, 0] + [0];
    var cn, es, cm, ms := PackInt32(|maps|).value, EncodeStrings(maps), PackInt32(|meta|).value, EncodeStrings(PairStrings(meta));
    assert out.raised.None? by {
      WritableFits(maps);
      WritableFits(PairStrings(meta));
      RecordSucceeds(modid, maps, meta);
    }
    assert out.bytes == (Packs(h) + Packs(n)) + (Packs(c) + Packs(p)) by {
      WrittenBytes(Fresh, ModRecord(modid, maps, meta));
      EmptyAppend(Packs(ModRecord(modid, maps, meta)));
      PacksAppend(h + n, c + p);
      PacksAppend(h, n);
      PacksAppend(c, p);
    }
    assert Packs(h) == x + cn by {
      HeaderBytes(modid, maps);
    }
    assert Packs(c) == k + cm by {
      MiddleBytes(meta);
    }
    PacksStrings(maps);
    PacksStrings(PairStrings(meta));
    Regroup(x, cn, es, k, cm, ms);
  }
}
