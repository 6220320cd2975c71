/** The fixed-width encodings of Python's `struct` module that the codec uses:
    'i' (signed 32-bit), 'I' (unsigned 32-bit), 'x' (a pad byte) and 'p'
    (a Pascal string). The native byte order of 'i' and 'I' is taken to be
    little-endian, as on x86. */
module Bytes {
  import opened Outcomes

  type byte = x: int | 0 <= x < 256

  const TWO_31: int := 0x8000_0000
  const TWO_32: int := 0x1_0000_0000

  predicate IsInt32(x: int) { -TWO_31 <= x < TWO_31 }

  predicate IsUInt32(x: int) { 0 <= x < TWO_32 }

  /** The four little-endian bytes of an unsigned 32-bit value. */
  function LittleEndian(u: int): (b: seq<byte>)
    requires IsUInt32(u)
    ensures |b| == 4
  {
    [u % 256, u / 0x100 % 256, u / 0x1_0000 % 256, u / 0x100_0000]
  }

  /** The unsigned value of four little-endian bytes. */
  function FromLittleEndian(b: seq<byte>): (u: int)
    requires |b| == 4
    ensures IsUInt32(u)
  {
    var b0, b1, b2, b3 := b[0] as int, b[1] as int, b[2] as int, b[3] as int;
    b0 + 0x100 * b1 + 0x1_0000 * b2 + 0x100_0000 * b3
  }

  lemma LittleEndianInverse(u: int)
    requires IsUInt32(u)
    ensures FromLittleEndian(LittleEndian(u)) == u
  {
    var q1 := u / 0x100;
    var q2 := q1 / 0x100;
    assert u / 0x1_0000 == q2;
    assert u / 0x100_0000 == q2 / 0x100;
    assert u == u % 256 + 0x100 * (q1 % 256) + 0x1_0000 * (q2 % 256) + 0x100_0000 * (q2 / 0x100);
  }

  lemma FromLittleEndianInverse(b: seq<byte>)
    requires |b| == 4
    ensures LittleEndian(FromLittleEndian(b)) == b
  {
    var u := FromLittleEndian(b);
    var b0, b1, b2, b3 := b[0] as int, b[1] as int, b[2] as int, b[3] as int;
    assert u % 256 == b0;
    assert u / 0x100 == b1 + 0x100 * b2 + 0x1_0000 * b3;
    assert u / 0x1_0000 == b2 + 0x100 * b3;
    assert u / 0x100_0000 == b3;
  }

  /** struct.pack('i', x): raises struct.error unless x fits in 32 signed bits;
      a negative x is stored in two's complement. */
  function PackInt32(x: int): (r: Result<seq<byte>>)
    ensures r.Ok? <==> IsInt32(x)
    ensures r.Ok? ==> |r.value| == 4
    ensures r.Err? ==> r.error == OutOfRange
  {
    if IsInt32(x) then Ok(LittleEndian(if x < 0 then x + TWO_32 else x)) else Err(OutOfRange)
  }

  /** struct.unpack('i', b)[0] for exactly four bytes. */
  function UnpackInt32(b: seq<byte>): (x: int)
    requires |b| == 4
    ensures IsInt32(x)
    ensures x < 0 <==> b[3] >= 0x80
  {
    var u := FromLittleEndian(b);
    if u < TWO_31 then u else u - TWO_32
  }

  /** Unpacking what 'i' packed gives the value back. */
  lemma UnpackPackInt32(x: int)
    requires IsInt32(x)
    ensures UnpackInt32(PackInt32(x).value) == x
  {
    LittleEndianInverse(if x < 0 then x + TWO_32 else x);
  }

  /** Packing what 'i' unpacked gives the bytes back: every four bytes are
      some 32-bit integer. */
  lemma PackUnpackInt32(b: seq<byte>)
    requires |b| == 4
    ensures PackInt32(UnpackInt32(b)) == Ok(b)
  {
    FromLittleEndianInverse(b);
  }

  /** struct.pack('I', x): raises struct.error unless 0 <= x < 2^32. */
  function PackUInt32(x: int): (r: Result<seq<byte>>)
    ensures r.Ok? <==> IsUInt32(x)
    ensures r.Ok? ==> |r.value| == 4 && FromLittleEndian(r.value) == x
    ensures r.Err? ==> r.error == OutOfRange
  {
    if IsUInt32(x) then LittleEndianInverse(x); Ok(LittleEndian(x)) else Err(OutOfRange)
  }

  /** `n` pad bytes, as struct's 'x' writes them. */
  function Zeros(n: nat): (r: seq<byte>)
    ensures |r| == n
  {
    seq(n, _ => 0)
  }

  function Min(a: int, b: int): int { if a < b then a else b }

  /** struct.pack('<count>p', s): a Pascal string of exactly `count` bytes.
      The first byte holds the stored length, which is the length of `s`
      capped at `count - 1` and at 255; then come the stored bytes of `s`,
      then zero padding. A bare 'p' has count 1. */
  function PackPascal(count: nat, s: seq<byte>): (r: seq<byte>)
    requires count >= 1
    ensures |r| == count
  {
    var kept := s[..Min(|s|, count - 1)];
    [Min(|kept|, 255)] + kept + Zeros(count - 1 - |kept|)
  }

  lemma PackPascalLayout(count: nat, s: seq<byte>)
    requires count >= 1
    ensures PackPascal(count, s)[0] == Min(Min(|s|, count - 1), 255)
    ensures forall i :: 1 <= i < count ==> PackPascal(count, s)[i] == if i - 1 < |s| then s[i - 1] else 0
  {
  }

  /** A bare 'p' writes the single byte 0x00, whatever it is given: there is
      no room for any byte of `s` after the length byte, so the stored
      length is 0. */
  lemma BarePascalIsZero(s: seq<byte>)
    ensures PackPascal(1, s) == [0]
  {
  }

  /** Hence two bare 'p' packs cannot be told apart by what they write. */
  lemma BarePascalIgnoresInput(s: seq<byte>, t: seq<byte>)
    ensures PackPascal(1, s) == PackPascal(1, t)
  {
    BarePascalIsZero(s);
    BarePascalIsZero(t);
  }
}
