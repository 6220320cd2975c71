/** What `modfile.py` reads from `mod.info` and `modmeta.info`, what it
    writes to `<modid>.mod`, and how `create_mod_file` chains the three, as
    functions of the files' bytes. The class in module ModFile is proved to
    follow these functions step by step. */
module ModLayout {
  import opened Outcomes
  import opened Bytes
  import opened Utf8
  import opened Ue4Strings
  import opened OrderedMaps
  import opened Loops
  import opened Writes
  import opened Seqs

  type Pair = (Text, Text)

  // ---------------------------------------------------------------------
  // mod.info

  /** One turn of the loop of `parse_base_info`: `read_ue4_string` at the
      cursor, which never passes the end of the file. */
  function MapTurn(d: seq<byte>): nat -> Step<Text>
  {
    (pos: nat) => if pos <= |d| then DecodeString(d, pos) else Step(Err(ShortRead), pos)
  }

  /** The map strings after `i` turns of the loop of `parse_base_info` that
      starts at cursor `p0`, empty strings included. */
  function StringsUpTo(d: seq<byte>, p0: nat, i: nat): Scan<Text>
  {
    Loop(MapTurn(d), p0, i)
  }

  /** A turn that reads string `t` at the cursor appends it. */
  lemma StringsGrow(d: seq<byte>, p0: nat, i: nat, pos: nat, t: Text, next: nat)
    requires StringsUpTo(d, p0, i).status == Ok(pos) && pos <= |d|
    requires DecodeString(d, pos) == Step(Ok(t), next)
    ensures StringsUpTo(d, p0, i + 1) == Scan(StringsUpTo(d, p0, i).items + [t], Ok(next))
  {
    assert MapTurn(d)(pos) == Step(Ok(t), next);
    LoopGrows(MapTurn(d), p0, i, pos, t, next);
  }

  /** A turn whose read raises ends the loop of `n` turns. */
  lemma StringsFail(d: seq<byte>, p0: nat, i: nat, n: nat, pos: nat)
    requires i < n && StringsUpTo(d, p0, i).status == Ok(pos) && pos <= |d|
    requires DecodeString(d, pos).outcome.Err?
    ensures StringsUpTo(d, p0, n) == Scan(StringsUpTo(d, p0, i).items, Err(DecodeString(d, pos).outcome.error))
  {
    assert MapTurn(d)(pos) == DecodeString(d, pos);
    LoopFails(MapTurn(d), p0, i, n, pos);
  }

  /** The strings of `xs` that are not empty, in their order: what
      `if cur_map: self.map_names.append(cur_map)` keeps. */
  function NonEmpty(xs: seq<Text>): (r: seq<Text>)
    ensures |r| <= |xs|
    ensures forall i :: 0 <= i < |r| ==> r[i] != []
  {
    if xs == [] then []
    else
      var init := xs[..|xs| - 1];
      var last := xs[|xs| - 1];
      assert xs == init + [last];
      NonEmpty(init) + if last != [] then [last] else []
  }

  /** Filtering distributes over concatenation, so `NonEmpty` keeps the
      order of what it keeps. */
  lemma {:induction false} NonEmptyAppend(xs: seq<Text>, ys: seq<Text>)
    ensures NonEmpty(xs + ys) == NonEmpty(xs) + NonEmpty(ys)
    decreases |ys|
  {
    if ys != [] {
      var init := ys[..|ys| - 1];
      assert (xs + ys)[..|xs + ys| - 1] == xs + init;
      NonEmptyAppend(xs, init);
    } else {
      assert xs + ys == xs;
    }
  }

  lemma NonEmptySnoc(xs: seq<Text>, t: Text)
    ensures NonEmpty(xs + [t]) == NonEmpty(xs) + if t != [] then [t] else []
  {
    assert (xs + [t])[..|xs|] == xs;
  }

  /** Of N strings with K empty ones among them, N - K are kept. */
  lemma {:induction false} NonEmptyCount(xs: seq<Text>)
    ensures |NonEmpty(xs)| == |xs| - multiset(xs)[[]]
  {
    if xs != [] {
      var init := xs[..|xs| - 1];
      assert xs == init + [xs[|xs| - 1]];
      NonEmptyCount(init);
    }
  }

  /** What `parse_base_info` appends to `map_names`, and what it returns
      (`Ok(false)` when `mod.info` is not a file) or raises. The first string
      of the file, the mod's name, is read and thrown away. */
  function BaseInfo(info: Option<seq<byte>>): (r: (seq<Text>, Result<bool>))
    ensures forall i :: 0 <= i < |r.0| ==> r.0[i] != []
  {
    match info
    case None => ([], Ok(false))
    case Some(d) =>
      var name := DecodeString(d, 0);
      if name.outcome.Err? then ([], Err(name.outcome.error))
      else
        var count := ReadInt32At(d, name.pos);
        if count.outcome.Err? then ([], Err(count.outcome.error))
        else
          var scan := StringsUpTo(d, count.pos, Iterations(count.outcome.value));
          (NonEmpty(scan.items), Finished(scan))
  }

  /** `BaseInfo` once the name and the map count have been read. */
  lemma BaseInfoAfterHeader(d: seq<byte>, p0: nat, count: int)
    requires DecodeString(d, 0).outcome.Ok?
    requires ReadInt32At(d, DecodeString(d, 0).pos) == Step(Ok(count), p0)
    ensures p0 <= |d|
    ensures var scan := StringsUpTo(d, p0, Iterations(count));
            BaseInfo(Some(d)) == (NonEmpty(scan.items), Finished(scan))
  {
  }

  // ---------------------------------------------------------------------
  // modmeta.info

  /** One turn of the loop of `parse_meta_data` at cursor `pos`: a key
      string, then a value string, each read as `read_ue4_string` reads. */
  function PairAt(d: seq<byte>, pos: nat): (r: Step<Pair>)
    requires pos <= |d|
    ensures pos <= r.pos <= |d|
  {
    var key := DecodeString(d, pos);
    match key.outcome
    case Err(e) => Step(Err(e), key.pos)
    case Ok(k) =>
      var value := DecodeString(d, key.pos);
      match value.outcome
      case Err(e) => Step(Err(e), value.pos)
      case Ok(v) => Step(Ok((k, v)), value.pos)
  }

  function PairTurn(d: seq<byte>): nat -> Step<Pair>
  {
    (pos: nat) => if pos <= |d| then PairAt(d, pos) else Step(Err(ShortRead), pos)
  }

  /** The key/value pairs after `i` turns of the loop of `parse_meta_data`
      that starts at cursor `p0`, empty keys and values included. */
  function PairsUpTo(d: seq<byte>, p0: nat, i: nat): Scan<Pair>
  {
    Loop(PairTurn(d), p0, i)
  }

  /** A turn that reads pair `p` at the cursor appends it. */
  lemma PairsGrow(d: seq<byte>, p0: nat, i: nat, pos: nat, p: Pair, next: nat)
    requires PairsUpTo(d, p0, i).status == Ok(pos) && pos <= |d|
    requires PairAt(d, pos) == Step(Ok(p), next)
    ensures PairsUpTo(d, p0, i + 1) == Scan(PairsUpTo(d, p0, i).items + [p], Ok(next))
  {
    assert PairTurn(d)(pos) == Step(Ok(p), next);
    LoopGrows(PairTurn(d), p0, i, pos, p, next);
  }

  /** A turn whose key or value read raises ends the loop of `n` turns. */
  lemma PairsFail(d: seq<byte>, p0: nat, i: nat, n: nat, pos: nat)
    requires i < n && PairsUpTo(d, p0, i).status == Ok(pos) && pos <= |d|
    requires PairAt(d, pos).outcome.Err?
    ensures PairsUpTo(d, p0, n) == Scan(PairsUpTo(d, p0, i).items, Err(PairAt(d, pos).outcome.error))
  {
    assert PairTurn(d)(pos) == PairAt(d, pos);
    LoopFails(PairTurn(d), p0, i, n, pos);
  }

  /** `if key and value: self.meta_data[key] = value` */
  function Assign(m: seq<Pair>, p: Pair): (r: seq<Pair>)
    requires DistinctKeys(m)
    ensures DistinctKeys(r)
  {
    if p.0 != [] && p.1 != [] then Put(m, p.0, p.1) else m
  }

  /** `meta_data` after assigning the pairs `ps` in turn. */
  function AssignAll(m: seq<Pair>, ps: seq<Pair>): (r: seq<Pair>)
    requires DistinctKeys(m)
    ensures DistinctKeys(r)
  {
    if ps == [] then m else Assign(AssignAll(m, ps[..|ps| - 1]), ps[|ps| - 1])
  }

  lemma AssignAllSnoc(m: seq<Pair>, ps: seq<Pair>, p: Pair)
    requires DistinctKeys(m)
    ensures AssignAll(m, ps + [p]) == Assign(AssignAll(m, ps), p)
  {
    assert (ps + [p])[..|ps|] == ps;
  }

  /** What `parse_meta_data` turns `meta_data` into, and what it returns
      (`Ok(false)` when `modmeta.info` is not a file) or raises. */
  function MetaData(meta: Option<seq<byte>>, m: seq<Pair>): (r: (seq<Pair>, Result<bool>))
    requires DistinctKeys(m)
    ensures DistinctKeys(r.0)
  {
    match meta
    case None => (m, Ok(false))
    case Some(d) =>
      var total := ReadInt32At(d, 0);
      if total.outcome.Err? then (m, Err(total.outcome.error))
      else
        var scan := PairsUpTo(d, total.pos, Iterations(total.outcome.value));
        (AssignAll(m, scan.items), Finished(scan))
  }

  /** `MetaData` once the pair count has been read. */
  lemma MetaDataAfterHeader(d: seq<byte>, m: seq<Pair>, p0: nat, count: int)
    requires DistinctKeys(m)
    requires ReadInt32At(d, 0) == Step(Ok(count), p0)
    ensures p0 <= |d|
    ensures var scan := PairsUpTo(d, p0, Iterations(count));
            MetaData(Some(d), m) == (AssignAll(m, scan.items), Finished(scan))
  {
  }

  // ---------------------------------------------------------------------
  // <modid>.mod

  /** The constant 'I' field whose meaning is unknown ("Not sure of the
      reason for this" in the source); its bytes are 33 FF 22 FF. */
  const UnknownWord: int := 4280483635
  /** The constant 'i' field after it, of equally unknown meaning. */
  const UnknownTwo: int := 2

  function ModName(): Text { Ascii("ModName") }
  function ModTypeKey(): Text { Ascii("ModType") }

  /** The one field of `struct.pack` or `write_ue4_string` that one write
      puts into the output. */
  datatype Field =
    | Int32(i: int)        // struct.pack('i', i)
    | PaddedInt32(i: int)  // struct.pack('ixxxx', i)
    | UInt32(u: int)       // struct.pack('I', u)
    | Str(s: Text)         // write_ue4_string(s)
    | Pascal(b: seq<byte>) // struct.pack('p', b)

  function EncodeField(f: Field): (r: Result<seq<byte>>)
    ensures r.Err? ==> r.error == OutOfRange
    ensures f.Pascal? ==> r == Ok([0])
  {
    match f
    case Int32(i) => PackInt32(i)
    case UInt32(u) => PackUInt32(u)
    case PaddedInt32(i) => if IsInt32(i) then Ok(PackInt32(i).value + Zeros(4)) else PackInt32(i)
    case Str(s) => EncodeString(s)
    case Pascal(b) => BarePascalIsZero(b); Ok(PackPascal(1, b))
  }

  /** The mod_type byte's argument: b'1' when "ModType" is a key, else b'0'. */
  function ModTypeFlag(meta: seq<Pair>): (b: seq<byte>)
    ensures b == Ascii("1") <==> ModTypeKey() in Keys(meta)
    ensures b == Ascii("0") <==> ModTypeKey() !in Keys(meta)
  {
    if ModTypeKey() in Keys(meta) then Ascii("1") else Ascii("0")
  }

  /** One `write_ue4_string` per string of `ss`, in order. */
  function StrFields(ss: seq<Text>): (r: seq<Field>)
    ensures |r| == |ss| && forall i :: 0 <= i < |ss| ==> r[i] == Str(ss[i])
  {
    seq(|ss|, i requires 0 <= i < |ss| => Str(ss[i]))
  }

  /** The key and the value of each pair, pair by pair: the strings that
      `for k, v in self.meta_data.items()` writes. */
  function PairStrings(meta: seq<Pair>): (r: seq<Text>)
    ensures |r| == 2 * |meta|
    ensures forall i :: 0 <= i < |meta| ==> r[2 * i] == meta[i].0 && r[2 * i + 1] == meta[i].1
  {
    if meta == [] then []
    else PairStrings(meta[..|meta| - 1]) + [meta[|meta| - 1].0, meta[|meta| - 1].1]
  }

  function PairFields(meta: seq<Pair>): (r: seq<Field>)
    ensures |r| == 2 * |meta|
    ensures forall i :: 0 <= i < |meta| ==> r[2 * i] == Str(meta[i].0) && r[2 * i + 1] == Str(meta[i].1)
  {
    StrFields(PairStrings(meta))
  }

  /** The first four writes of `create_mod_file`: the id with its padding,
      "ModName", "" and the map count. */
  function Header(modid: int, maps: seq<Text>): (r: seq<Field>)
    ensures |r| == 4
  {
    [PaddedInt32(modid), Str(ModName()), Str([]), Int32(|maps|)]
  }

  /** The four writes after the map names: the two unknown constants, the
      ModType byte and the pair count. */
  function Middle(meta: seq<Pair>): (r: seq<Field>)
    ensures |r| == 4
  {
    [UInt32(UnknownWord), Int32(UnknownTwo), Pascal(ModTypeFlag(meta)), Int32(|meta|)]
  }

  /** The writes of `create_mod_file`, in order. */
  function ModRecord(modid: int, maps: seq<Text>, meta: seq<Pair>): (r: seq<Field>)
    ensures |r| == 8 + |maps| + 2 * |meta|
  {
    (Header(modid, maps) + StrFields(maps)) + (Middle(meta) + PairFields(meta))
  }

  /** The file after the writes of `fs` in turn, after `o`. */
  function Written(o: Output, fs: seq<Field>): (r: Output)
    ensures o.bytes <= r.bytes
    ensures o.raised.Some? ==> r == o
  {
    if fs == [] then o else Then(Written(o, fs[..|fs| - 1]), EncodeField(fs[|fs| - 1]))
  }

  /** The writes of `fs` in turn to a freshly truncated file. */
  function Serialize(fs: seq<Field>): (r: Output)
    ensures r.raised.None? <==> forall i :: 0 <= i < |fs| ==> EncodeField(fs[i]).Ok?
  {
    WrittenSucceeds(Fresh, fs);
    Written(Fresh, fs)
  }

  /** The bytes of every field that packs, concatenated in order. */
  function Packs(fs: seq<Field>): seq<byte>
  {
    if fs == [] then []
    else
      var last := EncodeField(fs[|fs| - 1]);
      Packs(fs[..|fs| - 1]) + if last.Ok? then last.value else []
  }

  /** Writing one more field of `fs`. */
  lemma WrittenStep(o: Output, fs: seq<Field>, i: nat)
    requires i < |fs|
    ensures Written(o, fs[..i + 1]) == Then(Written(o, fs[..i]), EncodeField(fs[i]))
  {
    TakeTake(fs, i, i + 1);
  }

  /** After a pack has raised, later writes change nothing. */
  lemma {:induction false} WrittenFailed(o: Output, fs: seq<Field>)
    requires o.raised.Some?
    ensures Written(o, fs) == o
    decreases |fs|
  {
    if fs != [] {
      WrittenFailed(o, fs[..|fs| - 1]);
    }
  }

  /** Writing `a + b` is writing `a`, then `b`. */
  lemma {:induction false} WrittenAppend(o: Output, a: seq<Field>, b: seq<Field>)
    ensures Written(o, a + b) == Written(Written(o, a), b)
    decreases |b|
  {
    if b == [] {
      assert a + b == a;
    } else {
      assert (a + b)[..|a + b| - 1] == a + b[..|b| - 1];
      WrittenAppend(o, a, b[..|b| - 1]);
    }
  }

  /** Once the first `i` writes have raised, the rest change nothing. */
  lemma WrittenStops(o: Output, fs: seq<Field>, i: nat)
    requires i <= |fs| && Written(o, fs[..i]).raised.Some?
    ensures Written(o, fs) == Written(o, fs[..i])
  {
    assert fs == fs[..i] + fs[i..];
    WrittenAppend(o, fs[..i], fs[i..]);
    WrittenFailed(Written(o, fs[..i]), fs[i..]);
  }

  /** Writes only ever append: what the file held stays a prefix. */
  lemma {:induction false} WrittenExtends(o: Output, fs: seq<Field>)
    ensures o.bytes <= Written(o, fs).bytes
    decreases |fs|
  {
    if fs != [] {
      WrittenExtends(o, fs[..|fs| - 1]);
    }
  }

  /** The writes succeed exactly when nothing had raised before them and
      every field packs. */
  lemma {:induction false} WrittenSucceeds(o: Output, fs: seq<Field>)
    ensures Written(o, fs).raised.None? <==> o.raised.None? && forall i :: 0 <= i < |fs| ==> EncodeField(fs[i]).Ok?
    decreases |fs|
  {
    if o.raised.Some? {
      WrittenFailed(o, fs);
    } else if fs != [] {
      var init, last := fs[..|fs| - 1], fs[|fs| - 1];
      WrittenSucceeds(o, init);
      assert Written(o, fs) == Then(Written(o, init), EncodeField(last));
      if Written(o, fs).raised.None? {
        forall i | 0 <= i < |fs| ensures EncodeField(fs[i]).Ok? {
          if i < |init| { assert fs[i] == init[i]; }
        }
      } else if Written(o, init).raised.None? {
        assert !EncodeField(fs[|fs| - 1]).Ok?;
      } else {
        assert !EncodeField(init[0]).Ok? || exists i :: 0 <= i < |init| && !EncodeField(init[i]).Ok?;
        var i :| 0 <= i < |init| && !EncodeField(init[i]).Ok?;
        assert fs[i] == init[i];
      }
    }
  }

  /** When they succeed, the file gains the packed fields, concatenated in
      order. */
  lemma {:induction false} WrittenBytes(o: Output, fs: seq<Field>)
    requires Written(o, fs).raised.None?
    ensures Written(o, fs).bytes == o.bytes + Packs(fs)
    decreases |fs|
  {
    if fs != [] {
      var init, last := fs[..|fs| - 1], EncodeField(fs[|fs| - 1]);
      var prev := Written(o, init);
      assert Written(o, fs) == Then(prev, last);
      assert prev.raised.None? && last.Ok?;
      WrittenBytes(o, init);
      assert Packs(fs) == Packs(init) + last.value;
      assert (o.bytes + Packs(init)) + last.value == o.bytes + (Packs(init) + last.value);
    }
  }

  /** Four writes, one after the other. */
  lemma WrittenFour(o: Output, fs: seq<Field>)
    requires |fs| == 4
    ensures Written(o, fs) ==
              Then(Then(Then(Then(o, EncodeField(fs[0])), EncodeField(fs[1])), EncodeField(fs[2])), EncodeField(fs[3]))
  {
    TakeEnds(fs);
    WrittenStep(o, fs, 0);
    WrittenStep(o, fs, 1);
    WrittenStep(o, fs, 2);
    WrittenStep(o, fs, 3);
  }

  /** Writing the key and the value of pair `j`. */
  lemma PairWritten(o: Output, meta: seq<Pair>, j: nat)
    requires j < |meta|
    ensures Written(o, PairFields(meta)[..2 * j + 2]) ==
              Then(Then(Written(o, PairFields(meta)[..2 * j]), EncodeString(meta[j].0)), EncodeString(meta[j].1))
  {
    WrittenStep(o, PairFields(meta), 2 * j);
    WrittenStep(o, PairFields(meta), 2 * j + 1);
  }

  /** The record is written part by part. */
  lemma ModRecordWritten(modid: int, maps: seq<Text>, meta: seq<Pair>)
    ensures Serialize(ModRecord(modid, maps, meta)) ==
              Written(Written(Written(Written(Fresh, Header(modid, maps)), StrFields(maps)), Middle(meta)), PairFields(meta))
  {
    var h, m := Header(modid, maps), StrFields(maps);
    var c, p := Middle(meta), PairFields(meta);
    WrittenAppend(Fresh, h + m, c + p);
    WrittenAppend(Fresh, h, m);
    WrittenAppend(Written(Fresh, h + m), c, p);
  }

  /** What `create_mod_file` leaves behind: its result, the output file
      (`None` when it was never opened), and the two fields. */
  datatype Run = Run(result: Result<bool>, output: Option<seq<byte>>, maps: seq<Text>, meta: seq<Pair>)

  /** `create_mod_file`: parse `mod.info`, then (only if that returned True)
      `modmeta.info`, then (only if that returned True too) open, truncate
      and fill the output file. */
  function CreateModFileRun(info: Option<seq<byte>>, meta: Option<seq<byte>>, modid: int,
                            maps0: seq<Text>, meta0: seq<Pair>): (r: Run)
    requires DistinctKeys(meta0)
    ensures DistinctKeys(r.meta)
  {
    var (added, rb) := BaseInfo(info);
    var maps1 := maps0 + added;
    if rb != Ok(true) then Run(rb, None, maps1, meta0)
    else
      var (meta1, rm) := MetaData(meta, meta0);
      if rm != Ok(true) then Run(rm, None, maps1, meta1)
      else
        var out := Serialize(ModRecord(modid, maps1, meta1));
        Run(if out.raised.Some? then Err(out.raised.value) else Ok(true), Some(out.bytes), maps1, meta1)
  }
}
