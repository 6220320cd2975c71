/** The length-prefixed string of Unreal Engine 4 archives, as `modfile.py`
    reads and writes it: a signed 32-bit length, then that many bytes, the
    last of which is a NUL terminator. */
module Ue4Strings {
  import opened Outcomes
  import opened Bytes
  import opened Utf8
  import opened Streams

  /** What a read from a file at some cursor yields, and where it leaves the
      cursor. */
  datatype Step<+T> = Step(outcome: Result<T>, pos: nat)

  /** `struct.unpack('i', file.read(4))[0]` with the cursor at `pos`: the
      read takes up to four bytes, and the unpack raises when it got fewer. */
  function ReadInt32At(d: seq<byte>, pos: nat): (r: Step<int>)
    requires pos <= |d|
    ensures r.pos == Min(pos + 4, |d|)
    ensures r.outcome.Ok? <==> pos + 4 <= |d|
    ensures r.outcome.Err? ==> r.outcome.error == ShortRead
    ensures r.outcome.Ok? ==> PackInt32(r.outcome.value) == Ok(d[pos..pos + 4])
  {
    var raw := ReadAt(d, pos, 4);
    if |raw| < 4 then Step(Err(ShortRead), pos + |raw|)
    else PackUnpackInt32(raw); Step(Ok(UnpackInt32(raw)), pos + 4)
  }

  /** Python's `raw[:-1]`: all but the last byte, and nothing of nothing. */
  function DropLast(raw: seq<byte>): (r: seq<byte>)
    ensures raw != [] ==> r + [raw[|raw| - 1]] == raw
    ensures raw == [] ==> r == []
  {
    if raw == [] then [] else raw[..|raw| - 1]
  }

  /** `read_ue4_string` with the cursor at `pos`. A length below zero is the
      wide-string flag and a length of zero is an empty string: both give ""
      and read no payload. A positive length reads up to that many bytes
      (fewer at the end of the file), drops the last one and decodes the
      rest. */
  function DecodeString(d: seq<byte>, pos: nat): (r: Step<Text>)
    requires pos <= |d|
    ensures pos <= r.pos <= |d|
    ensures r.outcome == Err(ShortRead) <==> |d| - pos < 4
    ensures r.outcome.Ok? && r.outcome.value != [] ==>
              pos + 4 < r.pos && r.outcome.value == d[pos + 4..r.pos - 1]
  {
    var len := ReadInt32At(d, pos);
    match len.outcome
    case Err(e) => Step(Err(e), len.pos)
    case Ok(count) =>
      if count <= 0 then Step(Ok([]), len.pos)
      else
        var raw := ReadAt(d, len.pos, count);
        var payload := DropLast(raw);
        if ValidUtf8(payload) then Step(Ok(payload), len.pos + |raw|)
        else Step(Err(BadUtf8), len.pos + |raw|)
  }

  /** The bytes `write_ue4_string` writes: `len(s) + 1` as 'i', the UTF-8
      bytes of `s`, then a bare 'p' of b'0'. The pack of the length raises
      (before anything is written) when it does not fit in 32 bits. */
  function EncodeString(s: Text): (r: Result<seq<byte>>)
    ensures r.Ok? <==> CodePoints(s) + 1 < TWO_31
    ensures r.Err? ==> r.error == OutOfRange
  {
    match PackInt32(CodePoints(s) + 1)
    case Err(e) => Err(e)
    case Ok(n) => Ok(n + s + PackPascal(1, Ascii("0")))
  }

  /** The write succeeds exactly when `len(s) + 1` fits in 32 bits; it is
      then the length field, which unpacks to `len(s) + 1`, the bytes of
      `s`, and one zero byte. */
  lemma EncodeStringLayout(s: Text)
    ensures EncodeString(s).Ok? <==> CodePoints(s) + 1 < TWO_31
    ensures EncodeString(s).Ok? ==> |EncodeString(s).value| == |s| + 5
    ensures EncodeString(s).Ok? ==> UnpackInt32(EncodeString(s).value[..4]) == CodePoints(s) + 1
    ensures EncodeString(s).Ok? ==> EncodeString(s).value[4..] == s + [0]
  {
    if CodePoints(s) + 1 < TWO_31 {
      var n := PackInt32(CodePoints(s) + 1).value;
      UnpackPackInt32(CodePoints(s) + 1);
      BarePascalIsZero(Ascii("0"));
      var r := n + s + PackPascal(1, Ascii("0"));
      assert r[..4] == n;
      assert r[4..] == s + [0];
    }
  }

  /** The empty string encodes as 01 00 00 00 00. */
  lemma EncodeEmpty()
    ensures EncodeString([]) == Ok([1, 0, 0, 0, 0])
  {
    assert CodePoints([]) == 0;
    assert LittleEndian(1) == [1, 0, 0, 0];
    assert PackInt32(1) == Ok([1, 0, 0, 0]);
    BarePascalIsZero(Ascii("0"));
    assert [1, 0, 0, 0] + [] + [0] == [1, 0, 0, 0, 0];
  }

  /** For ASCII text the length field is the byte count plus one. */
  lemma EncodeAsciiLength(s: Text)
    requires IsAscii(s) && |s| + 1 < TWO_31
    ensures EncodeString(s).Ok?
    ensures UnpackInt32(EncodeString(s).value[..4]) == |s| + 1
  {
    CodePointsIsLengthIffAscii(s);
    EncodeStringLayout(s);
  }

  /** A length field of zero or less, the negative wide-string flag
      included, reads as "" and consumes only the four length bytes. */
  lemma DecodeNonPositive(d: seq<byte>, pos: nat)
    requires pos + 4 <= |d| && UnpackInt32(d[pos..pos + 4]) <= 0
    ensures DecodeString(d, pos) == Step(Ok([]), pos + 4)
  {
  }

  /** A positive length `c` reads `file.read(c)`, which is short at the end
      of the file; the result is all of it but the last byte, or a decode
      error. */
  lemma DecodePositive(d: seq<byte>, pos: nat)
    requires pos + 4 <= |d|
    requires UnpackInt32(d[pos..pos + 4]) > 0
    ensures var raw := ReadAt(d, pos + 4, UnpackInt32(d[pos..pos + 4]));
            DecodeString(d, pos) ==
              if ValidUtf8(DropLast(raw)) then Step(Ok(DropLast(raw)), pos + 4 + |raw|)
              else Step(Err(BadUtf8), pos + 4 + |raw|)
  {
    assert ReadAt(d, pos, 4) == d[pos..pos + 4];
  }

  /** Reading back what `write_ue4_string` wrote gives the same str exactly
      when it is ASCII, and then leaves the cursor just past it. For other
      text the length field counts code points, not bytes, so the read
      stops short. */
  lemma {:induction false} StringRoundTrip(d: seq<byte>, pos: nat, s: Text)
    requires EncodeString(s).Ok?
    requires pos + |s| + 5 <= |d| && d[pos..pos + |s| + 5] == EncodeString(s).value
    ensures DecodeString(d, pos).outcome == Ok(s) <==> IsAscii(s)
    ensures IsAscii(s) ==> DecodeString(d, pos).pos == pos + |s| + 5
  {
    EncodeStringLayout(s);
    var enc := EncodeString(s).value;
    var cp := CodePoints(s);
    assert d[pos..pos + 4] == enc[..4];
    CodePointsIsLengthIffAscii(s);
    var raw := ReadAt(d, pos + 4, cp + 1);
    assert raw == d[pos + 4..pos + 5 + cp];
    assert raw == (s + [0])[..cp + 1] by {
      assert d[pos + 4..pos + |s| + 5] == s + [0];
    }
    if IsAscii(s) {
      assert raw == s + [0];
      assert DropLast(raw) == s;
    } else {
      assert |DropLast(raw)| == cp < |s|;
    }
  }

  /** Hence an ASCII string reads back whole, with the cursor just past
      it. */
  lemma AsciiReadsBack(d: seq<byte>, pos: nat, s: Text, e: seq<byte>)
    requires IsAscii(s) && EncodeString(s) == Ok(e)
    requires pos + |e| <= |d| && d[pos..pos + |e|] == e
    ensures DecodeString(d, pos) == Step(Ok(s), pos + |e|)
  {
    EncodeStringLayout(s);
    StringRoundTrip(d, pos, s);
  }

  /** "é" (C3 A9) is written with length 2, so the read takes C3 A9, drops
      A9 as if it were the terminator, and cannot decode the lone C3. */
  lemma NonAsciiDoesNotRoundTrip()
    ensures EncodeString([0xC3, 0xA9]) == Ok([2, 0, 0, 0, 0xC3, 0xA9, 0])
    ensures DecodeString([2, 0, 0, 0, 0xC3, 0xA9, 0], 0) == Step(Err(BadUtf8), 6)
  {
    var s: seq<byte> := [0xC3, 0xA9];
    assert LeadWidth(s) == 2;
    assert ValidUtf8(s[2..]);
    assert CodePoints(s) == 1 by { assert CodePoints(s[2..]) == 0; }
    assert LittleEndian(2) == [2, 0, 0, 0];
    assert PackInt32(2) == Ok([2, 0, 0, 0]);
    BarePascalIsZero(Ascii("0"));
    assert [2, 0, 0, 0] + s + [0] == [2, 0, 0, 0, 0xC3, 0xA9, 0];
    var d: seq<byte> := [2, 0, 0, 0, 0xC3, 0xA9, 0];
    assert d[0..4] == [2, 0, 0, 0];
    assert ReadAt(d, 4, 2) == [0xC3, 0xA9];
    assert DropLast([0xC3, 0xA9]) == [0xC3];
    assert !ValidUtf8([0xC3]);
  }

  /** `struct.unpack('i', file.read(4))[0]` on an open file. */
  method ReadInt32(f: Reader) returns (r: Result<int>)
    requires f.Valid()
    modifies f`pos
    ensures f.Valid()
    ensures Step(r, f.pos) == ReadInt32At(f.data, old(f.pos))
  {
    var raw := f.Read(4);
    if |raw| < 4 {
      return Err(ShortRead);
    }
    r := Ok(UnpackInt32(raw));
  }
}
