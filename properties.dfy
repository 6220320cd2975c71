/** What `parse_base_info`, `parse_meta_data` and `create_mod_file` promise,
    stated about the functions of module ModLayout, which the methods of
    `ModFileCreator` are proved to follow. */
module ModProperties {
  import opened Outcomes
  import opened Bytes
  import opened Utf8
  import opened Ue4Strings
  import opened OrderedMaps
  import opened Loops
  import opened Writes
  import opened ModLayout
  import opened Seqs

  // ---------------------------------------------------------------------
  // meta_data

  /** A pair that `if key and value:` lets through. */
  predicate Stored(p: Pair) { p.0 != [] && p.1 != [] }

  /** The keys of the pairs that are stored, in the order read. */
  function StoredKeys(ps: seq<Pair>): (ks: seq<Text>)
    ensures |ks| <= |ps|
  {
    if ps == [] then []
    else StoredKeys(ps[..|ps| - 1]) + if Stored(ps[|ps| - 1]) then [ps[|ps| - 1].0] else []
  }

  /** A stored pair sets its key. */
  lemma AssignSets(m: seq<Pair>, p: Pair)
    requires DistinctKeys(m) && Stored(p)
    ensures Get(Assign(m, p), p.0) == Some(p.1)
  {
    GetPut(m, p.0, p.1, p.0);
  }

  /** A pair leaves every key it does not store alone. */
  lemma AssignKeeps(m: seq<Pair>, p: Pair, k: Text)
    requires DistinctKeys(m) && (Stored(p) ==> p.0 != k)
    ensures Get(Assign(m, p), k) == Get(m, k)
  {
    if Stored(p) {
      GetPut(m, p.0, p.1, k);
    }
  }

  /** The last stored assignment to a key is the value it ends with. */
  lemma {:induction false} LastAssignmentWins(m: seq<Pair>, ps: seq<Pair>, i: nat)
    requires DistinctKeys(m) && i < |ps| && Stored(ps[i])
    requires forall j :: i < j < |ps| && Stored(ps[j]) ==> ps[j].0 != ps[i].0
    ensures Get(AssignAll(m, ps), ps[i].0) == Some(ps[i].1)
    decreases |ps|
  {
    var init, last := ps[..|ps| - 1], ps[|ps| - 1];
    var before := AssignAll(m, init);
    if i == |ps| - 1 {
      AssignSets(before, last);
    } else {
      LaterAssignments(ps, i);
      LastAssignmentWins(m, init, i);
      AssignKeeps(before, last, ps[i].0);
    }
  }

  /** What `LastAssignmentWins` asks of `ps` still holds without its last
      pair, and that pair does not store the key. */
  lemma LaterAssignments(ps: seq<Pair>, i: nat)
    requires i < |ps| - 1
    requires forall j :: i < j < |ps| && Stored(ps[j]) ==> ps[j].0 != ps[i].0
    ensures var init := ps[..|ps| - 1];
            init[i] == ps[i] && forall j :: i < j < |init| && Stored(init[j]) ==> init[j].0 != init[i].0
    ensures Stored(ps[|ps| - 1]) ==> ps[|ps| - 1].0 != ps[i].0
  {
  }

  /** A key that no stored pair names reads as it did before. */
  lemma {:induction false} UnassignedKeyKept(m: seq<Pair>, ps: seq<Pair>, k: Text)
    requires DistinctKeys(m)
    requires forall j :: 0 <= j < |ps| && Stored(ps[j]) ==> ps[j].0 != k
    ensures Get(AssignAll(m, ps), k) == Get(m, k)
    decreases |ps|
  {
    if ps != [] {
      var init, last := ps[..|ps| - 1], ps[|ps| - 1];
      forall j | 0 <= j < |init| && Stored(init[j]) ensures init[j].0 != k {
        assert init[j] == ps[j];
      }
      UnassignedKeyKept(m, init, k);
      if Stored(last) {
        GetPut(AssignAll(m, init), last.0, last.1, k);
      }
    }
  }

  /** Hence an empty key, or a key read only with empty values, is never
      added: the pairs that the TODO in `parse_meta_data` worries about are
      dropped. */
  lemma EmptyKeyNeverStored(m: seq<Pair>, ps: seq<Pair>)
    requires DistinctKeys(m)
    ensures var empty: Text := []; Get(AssignAll(m, ps), empty) == Get(m, empty)
  {
    var empty: Text := [];
    assert forall j :: 0 <= j < |ps| && Stored(ps[j]) ==> ps[j].0 != empty;
    UnassignedKeyKept(m, ps, empty);
  }

  /** The dictionary's keys are its old keys, then each newly stored key in
      the order of its first stored assignment: a key assigned again keeps
      its place. */
  lemma {:induction false} AssignAllKeys(m: seq<Pair>, ps: seq<Pair>)
    requires DistinctKeys(m)
    ensures Keys(AssignAll(m, ps)) == FirstOccurrences(Keys(m) + StoredKeys(ps))
    decreases |ps|
  {
    if ps == [] {
      AppendEmpty(Keys(m));
      FirstOccurrencesOfDistinct(Keys(m));
    } else {
      var init, last := ps[..|ps| - 1], ps[|ps| - 1];
      var before := AssignAll(m, init);
      var xs := Keys(m) + StoredKeys(init);
      AssignAllKeys(m, init);
      AssignKeys(before, last);
      if Stored(last) {
        AppendAssoc(Keys(m), StoredKeys(init), [last.0]);
        FirstOccurrencesSnoc(xs, last.0);
      } else {
        AppendEmpty(StoredKeys(init));
      }
    }
  }

  /** The keys after one more pair: a stored pair with a new key adds it at
      the end. */
  lemma AssignKeys(m: seq<Pair>, p: Pair)
    requires DistinctKeys(m)
    ensures Keys(Assign(m, p)) == if Stored(p) && p.0 !in Keys(m) then Keys(m) + [p.0] else Keys(m)
  {
    if Stored(p) {
      KeysPut(m, p.0, p.1);
    }
  }

  // ---------------------------------------------------------------------
  // Reading back what the format writes

  /** A string that `read_ue4_string` reads back from what
      `write_ue4_string` writes: ASCII, and short enough for its length. */
  predicate Writable(s: Text) { IsAscii(s) && |s| + 1 < TWO_31 }

  predicate AllWritable(ss: seq<Text>) { forall k :: 0 <= k < |ss| ==> Writable(ss[k]) }

  /** `write_ue4_string(s)` for a string it cannot fail on. */
  function Encoded(s: Text): (r: seq<byte>)
    requires Writable(s)
    ensures EncodeString(s) == Ok(r) && |r| == |s| + 5
  {
    EncodeAsciiLength(s);
    EncodeStringLayout(s);
    EncodeString(s).value
  }

  /** The strings `ss` written one after the other. */
  function EncodeStrings(ss: seq<Text>): seq<byte>
    requires AllWritable(ss)
  {
    if ss == [] then [] else EncodeStrings(ss[..|ss| - 1]) + Encoded(ss[|ss| - 1])
  }

  lemma EncodeStringsSnoc(ss: seq<Text>, k: nat)
    requires AllWritable(ss) && k < |ss|
    ensures EncodeStrings(ss[..k + 1]) == EncodeStrings(ss[..k]) + Encoded(ss[k])
  {
    assert ss[..k + 1][..k] == ss[..k];
  }

  /** What the first `k` strings write is a prefix of what all of them do. */
  lemma {:induction false} EncodeStringsPrefix(ss: seq<Text>, k: nat)
    requires AllWritable(ss) && k <= |ss|
    ensures EncodeStrings(ss[..k]) <= EncodeStrings(ss)
    decreases |ss| - k
  {
    if k < |ss| {
      EncodeStringsPrefix(ss, k + 1);
      EncodeStringsSnoc(ss, k);
    } else {
      assert ss[..k] == ss;
    }
  }

  /** Where string `k` of `ss` starts, when `ss` is written from `p0` on. */
  function StringStart(ss: seq<Text>, p0: nat, k: nat): nat
    requires AllWritable(ss) && k <= |ss|
  {
    p0 + |EncodeStrings(ss[..k])|
  }

  lemma SameStart(ss: seq<Text>, p0: nat, k: nat, k': nat)
    requires AllWritable(ss) && k == k' <= |ss|
    ensures StringStart(ss, p0, k) == StringStart(ss, p0, k')
  {
  }

  /** The bytes `y` that follow `x` at the start of `all`, where `all` is
      found at `p0` in `d`. */
  lemma SliceWithin(d: seq<byte>, p0: nat, all: seq<byte>, x: seq<byte>, y: seq<byte>)
    requires p0 + |all| <= |d| && d[p0..p0 + |all|] == all && x + y <= all
    ensures d[p0 + |x|..p0 + |x| + |y|] == y
  {
    forall i | 0 <= i < |y| ensures d[p0 + |x| + i] == y[i] {
      assert all[|x| + i] == (x + y)[|x| + i];
      assert d[p0 + |x| + i] == d[p0..p0 + |all|][|x| + i];
    }
  }

  /** String `k` of `ss` lies between its start and the next one. */
  lemma StringPlace(d: seq<byte>, p0: nat, ss: seq<Text>, k: nat)
    requires AllWritable(ss) && k < |ss|
    requires p0 + |EncodeStrings(ss)| <= |d| && d[p0..p0 + |EncodeStrings(ss)|] == EncodeStrings(ss)
    ensures var pos, next := StringStart(ss, p0, k), StringStart(ss, p0, k + 1);
            pos + |Encoded(ss[k])| == next <= |d| && d[pos..next] == Encoded(ss[k])
  {
    var x, y := EncodeStrings(ss[..k]), Encoded(ss[k]);
    var pos, next := StringStart(ss, p0, k), StringStart(ss, p0, k + 1);
    assert pos == p0 + |x|;
    assert next == pos + |y| by {
      EncodeStringsSnoc(ss, k);
    }
    var all := EncodeStrings(ss);
    assert x + y <= all by {
      EncodeStringsSnoc(ss, k);
      EncodeStringsPrefix(ss, k + 1);
    }
    SliceWithin(d, p0, all, x, y);
  }

  /** Reading at the start of string `k` gives string `k` and moves to the
      start of the next. */
  lemma StringAt(d: seq<byte>, p0: nat, ss: seq<Text>, k: nat)
    requires AllWritable(ss) && k < |ss|
    requires p0 + |EncodeStrings(ss)| <= |d| && d[p0..p0 + |EncodeStrings(ss)|] == EncodeStrings(ss)
    ensures StringStart(ss, p0, k) < StringStart(ss, p0, k + 1) <= |d|
    ensures DecodeString(d, StringStart(ss, p0, k)) == Step(Ok(ss[k]), StringStart(ss, p0, k + 1))
  {
    var pos, next := StringStart(ss, p0, k), StringStart(ss, p0, k + 1);
    StringPlace(d, p0, ss, k);
    AsciiReadsBack(d, pos, ss[k], Encoded(ss[k]));
  }

  /** The first `i` turns of the loop of `parse_base_info`, run where `ss`
      was written, read the first `i` strings of `ss`. */
  lemma {:induction false} StringsReadBack(d: seq<byte>, p0: nat, ss: seq<Text>, i: nat)
    requires AllWritable(ss) && i <= |ss|
    requires p0 + |EncodeStrings(ss)| <= |d| && d[p0..p0 + |EncodeStrings(ss)|] == EncodeStrings(ss)
    ensures StringsUpTo(d, p0, i) == Scan(ss[..i], Ok(StringStart(ss, p0, i)))
  {
    if i == 0 {
      assert ss[..0] == [];
    } else {
      var pos, next := StringStart(ss, p0, i - 1), StringStart(ss, p0, i);
      StringsReadBack(d, p0, ss, i - 1);
      StringAt(d, p0, ss, i - 1);
      StringsGrow(d, p0, i - 1, pos, ss[i - 1], next);
      TakeSnoc(ss, i);
    }
  }

  /** The three parts of `a + b + c`. */
  lemma ThreeParts(a: seq<byte>, b: seq<byte>, c: seq<byte>)
    ensures (a + b + c)[0..|a|] == a
    ensures (a + b + c)[|a|..|a| + |b|] == b
    ensures (a + b + c)[|a| + |b|..|a| + |b| + |c|] == c
  {
  }

  /** A `mod.info` holding the name and then the map names, as the same
      format writes them. */
  function ModInfoFile(name: Text, maps: seq<Text>): seq<byte>
    requires Writable(name) && AllWritable(maps) && |maps| < TWO_31
  {
    Encoded(name) + PackInt32(|maps|).value + EncodeStrings(maps)
  }

  /** `parse_base_info` reads such a file back: it returns True and appends
      the map names that are not empty, in their order. */
  lemma BaseInfoReadsBack(name: Text, maps: seq<Text>)
    requires Writable(name) && AllWritable(maps) && |maps| < TWO_31
    ensures BaseInfo(Some(ModInfoFile(name, maps))) == (NonEmpty(maps), Ok(true))
  {
    var d := ModInfoFile(name, maps);
    var p0 := |Encoded(name)| + 4;
    ModInfoHeader(name, maps);
    ModInfoMaps(name, maps);
    BaseInfoAfterHeader(d, p0, |maps|);
  }

  /** The name and the map count read back from the front of the file. */
  lemma ModInfoHeader(name: Text, maps: seq<Text>)
    requires Writable(name) && AllWritable(maps) && |maps| < TWO_31
    ensures var d, n := ModInfoFile(name, maps), |Encoded(name)|;
            DecodeString(d, 0) == Step(Ok(name), n) && ReadInt32At(d, n) == Step(Ok(|maps|), n + 4)
  {
    var d := ModInfoFile(name, maps);
    var n, count, rest := Encoded(name), PackInt32(|maps|).value, EncodeStrings(maps);
    assert |count| == 4 && d == n + count + rest;
    ThreeParts(n, count, rest);
    StringRoundTrip(d, 0, name);
    CountAt(d, |n|, |maps|);
  }

  /** The map names read back from the rest of the file. */
  lemma ModInfoMaps(name: Text, maps: seq<Text>)
    requires Writable(name) && AllWritable(maps) && |maps| < TWO_31
    ensures var d, p0 := ModInfoFile(name, maps), |Encoded(name)| + 4;
            StringsUpTo(d, p0, |maps|) == Scan(maps, Ok(|d|))
  {
    var d := ModInfoFile(name, maps);
    var n, count, rest := Encoded(name), PackInt32(|maps|).value, EncodeStrings(maps);
    var p0 := |n| + |count|;
    assert |count| == 4 && d == n + count + rest;
    ThreeParts(n, count, rest);
    assert maps[..|maps|] == maps;
    StringsReadBack(d, p0, maps, |maps|);
    assert StringStart(maps, p0, |maps|) == |d|;
  }


  /** A `modmeta.info` holding the pairs `pairs`, as `create_mod_file`
      writes `len(meta_data)` and the pairs after it. */
  function ModMetaFile(pairs: seq<Pair>): seq<byte>
    requires AllWritable(PairStrings(pairs)) && |pairs| < TWO_31
  {
    PackInt32(|pairs|).value + EncodeStrings(PairStrings(pairs))
  }

  /** One turn of the loop of `parse_meta_data` at the start of pair `j`
      reads pair `j` and moves to the start of the next. */
  lemma PairReadAt(d: seq<byte>, p0: nat, ps: seq<Pair>, j: nat)
    requires AllWritable(PairStrings(ps)) && j < |ps|
    requires p0 + |EncodeStrings(PairStrings(ps))| <= |d|
    requires d[p0..p0 + |EncodeStrings(PairStrings(ps))|] == EncodeStrings(PairStrings(ps))
    ensures var ss := PairStrings(ps);
            StringStart(ss, p0, 2 * j) <= |d| &&
            PairAt(d, StringStart(ss, p0, 2 * j)) == Step(Ok(ps[j]), StringStart(ss, p0, 2 * j + 2))
  {
    var ss, k := PairStrings(ps), 2 * j;
    StringAt(d, p0, ss, k);
    StringAt(d, p0, ss, k + 1);
    assert ss[k] == ps[j].0 && ss[k + 1] == ps[j].1;
  }

  /** The first `i` turns of the loop of `parse_meta_data`, run where the
      keys and values of `ps` were written, read the first `i` pairs. */
  lemma {:induction false} PairsReadBack(d: seq<byte>, p0: nat, ps: seq<Pair>, i: nat)
    requires AllWritable(PairStrings(ps)) && i <= |ps|
    requires p0 + |EncodeStrings(PairStrings(ps))| <= |d|
    requires d[p0..p0 + |EncodeStrings(PairStrings(ps))|] == EncodeStrings(PairStrings(ps))
    ensures PairsUpTo(d, p0, i) == Scan(ps[..i], Ok(StringStart(PairStrings(ps), p0, 2 * i)))
  {
    if i == 0 {
      TakeEnds(ps);
    } else {
      var ss, j := PairStrings(ps), i - 1;
      var a, c := StringStart(ss, p0, 2 * j), StringStart(ss, p0, 2 * j + 2);
      PairsReadBack(d, p0, ps, j);
      PairReadAt(d, p0, ps, j);
      PairsGrow(d, p0, j, a, ps[j], c);
      TakeSnoc(ps, i);
      SameStart(ss, p0, 2 * j + 2, 2 * i);
    }
  }

  /** `parse_meta_data` reads such a file back: it assigns the pairs in
      turn and returns True. */
  lemma MetaDataReadsBack(m: seq<Pair>, pairs: seq<Pair>)
    requires DistinctKeys(m) && AllWritable(PairStrings(pairs)) && |pairs| < TWO_31
    ensures MetaData(Some(ModMetaFile(pairs)), m) == (AssignAll(m, pairs), Ok(true))
  {
    var d := ModMetaFile(pairs);
    var count, rest := PackInt32(|pairs|).value, EncodeStrings(PairStrings(pairs));
    var p0 := |count|;
    assert |count| == 4 && d == count + rest;
    assert d[0..4] == count && d[p0..p0 + |rest|] == rest;
    CountAt(d, 0, |pairs|);
    PairsReadBack(d, p0, pairs, |pairs|);
    TakeEnds(pairs);
    MetaDataAfterHeader(d, m, p0, |pairs|);
  }

  /** Reading back a count that 'i' packed. */
  lemma CountAt(d: seq<byte>, pos: nat, x: int)
    requires IsInt32(x) && pos + 4 <= |d| && d[pos..pos + 4] == PackInt32(x).value
    ensures ReadInt32At(d, pos) == Step(Ok(x), pos + 4)
  {
    var c := ReadInt32At(d, pos);
    UnpackPackInt32(c.outcome.value);
    UnpackPackInt32(x);
  }

}
