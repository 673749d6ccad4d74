/** The parts of Python's `struct` module the protocol uses: the big-endian
    16-bit formats `'>h'` and `'>H'` and the little-endian fields of the weight
    response. Packing a value out of range, or unpacking a buffer of the
    wrong size, raises `struct.error`; here that is an `Err`. */
module StructPack {
  import opened Bits

  /** Why `struct` raised. */
  datatype Error =
    | PackOutOfRange      // a value does not fit the packed format
    | UnpackSizeMismatch  // the buffer is not exactly the format's size

  /** A value, or the `struct.error` raised instead of producing it. The
      other modules use it for every operation that can raise `struct.error`. */
  datatype Result<T> = Ok(value: T) | Err(error: Error)

  /** The bytes of s read as one big-endian unsigned number (`int.from_bytes(s, 'big')`). */
  function UIntBE(s: seq<byte>): nat
    decreases |s|
  {
    if s == [] then 0 else UIntBE(s[..|s| - 1]) * 0x100 + s[|s| - 1]
  }

  /** `struct.unpack('>H', s)` of a two-byte buffer. */
  function UInt16BE(s: seq<byte>): (v: nat)
    requires |s| == 2
    ensures v < 0x1_0000 && v == UIntBE(s)
  {
    assert s[..1][..0] == [] && s[..1][0] == s[0];
    assert UIntBE(s[..1]) == s[0];
    (s[0] as int) * 0x100 + s[1]
  }

  /** `struct.unpack('>h', s)` of a two-byte buffer. */
  function Int16BE(s: seq<byte>): (v: int)
    requires |s| == 2
    ensures -0x8000 <= v < 0x8000
    ensures v >= 0 <==> s[0] < 0x80
  {
    var u := (s[0] as int) * 0x100 + s[1];
    if u >= 0x8000 then u - 0x1_0000 else u
  }

  /** `struct.pack('>H', v)`: two bytes, most significant first. */
  function PackUInt16BE(v: int): (r: Result<seq<byte>>)
    ensures r.Ok? <==> 0 <= v < 0x1_0000
    ensures r.Ok? ==> |r.value| == 2 && UInt16BE(r.value) == v
    ensures r.Err? ==> r.error == PackOutOfRange
  {
    if 0 <= v < 0x1_0000 then Ok([v / 0x100, v % 0x100]) else Err(PackOutOfRange)
  }

  /** `struct.pack('>h', v)`: two's complement, most significant byte first. */
  function PackInt16BE(v: int): (r: Result<seq<byte>>)
    ensures r.Ok? <==> -0x8000 <= v < 0x8000
    ensures r.Ok? ==> |r.value| == 2 && Int16BE(r.value) == v
    ensures r.Err? ==> r.error == PackOutOfRange
  {
    if -0x8000 <= v < 0x8000 then
      var u := if v < 0 then v + 0x1_0000 else v;
      Ok([u / 0x100, u % 0x100])
    else
      Err(PackOutOfRange)
  }

  /** Every two-byte buffer is what `'>H'` packs for the value it unpacks to. */
  lemma PackUnpackUInt16BE(s: seq<byte>)
    requires |s| == 2
    ensures PackUInt16BE(UInt16BE(s)) == Ok(s)
  {
    var v := UInt16BE(s);
    assert [v / 0x100, v % 0x100] == s;
  }

  /** `struct.unpack('<H', s)` of a two-byte buffer. */
  function UInt16LE(s: seq<byte>): (v: nat)
    requires |s| == 2
    ensures v < 0x1_0000
  {
    (s[0] as int) + 0x100 * (s[1] as int)
  }

  /** `struct.unpack('<I', s)` of a four-byte buffer. */
  function UInt32LE(s: seq<byte>): (v: nat)
    requires |s| == 4
    ensures v < 0x1_0000_0000
  {
    UInt16LE(s[..2]) + 0x1_0000 * UInt16LE(s[2..])
  }

  /** `struct.unpack('<b', [x])`: the byte as a signed char. */
  function Int8(x: byte): (v: int)
    ensures -0x80 <= v < 0x80
    ensures v >= 0 <==> x < 0x80
  {
    if x >= 0x80 then x - 0x100 else x
  }

  /** The two bytes of a 16-bit value, least significant first. */
  function LE16(u: nat): (s: seq<byte>)
    requires u < 0x1_0000
    ensures |s| == 2 && UInt16LE(s) == u
  {
    [u % 0x100, u / 0x100]
  }

  /** `struct.pack('<H', v)`. */
  function PackUInt16LE(v: int): (r: Result<seq<byte>>)
    ensures r.Ok? <==> 0 <= v < 0x1_0000
    ensures r.Ok? ==> |r.value| == 2 && UInt16LE(r.value) == v
  {
    if 0 <= v < 0x1_0000 then Ok(LE16(v)) else Err(PackOutOfRange)
  }

  /** `struct.pack('<I', v)`: the low 16 bits, then the high 16 bits. */
  function PackUInt32LE(v: int): (r: Result<seq<byte>>)
    ensures r.Ok? <==> 0 <= v < 0x1_0000_0000
    ensures r.Ok? ==> |r.value| == 4 && UInt32LE(r.value) == v
  {
    if 0 <= v < 0x1_0000_0000 then
      var s := LE16(v % 0x1_0000) + LE16(v / 0x1_0000);
      assert s[..2] == LE16(v % 0x1_0000) && s[2..] == LE16(v / 0x1_0000);
      Ok(s)
    else
      Err(PackOutOfRange)
  }

  /** `struct.pack('<b', v)`. */
  function PackInt8(v: int): (r: Result<byte>)
    ensures r.Ok? <==> -0x80 <= v < 0x80
    ensures r.Ok? ==> Int8(r.value) == v
  {
    if -0x80 <= v < 0x80 then Ok(if v < 0 then v + 0x100 else v) else Err(PackOutOfRange)
  }

  /** Every two-byte buffer is what `'<H'` packs for the value it unpacks to. */
  lemma PackUnpackUInt16LE(s: seq<byte>)
    requires |s| == 2
    ensures PackUInt16LE(UInt16LE(s)) == Ok(s)
  {
    var v := UInt16LE(s);
    assert v % 0x100 == s[0] && v / 0x100 == s[1];
    assert LE16(v) == s;
  }

  /** Every four-byte buffer is what `'<I'` packs for the value it unpacks to. */
  lemma PackUnpackUInt32LE(s: seq<byte>)
    requires |s| == 4
    ensures PackUInt32LE(UInt32LE(s)) == Ok(s)
  {
    var lo, hi := UInt16LE(s[..2]), UInt16LE(s[2..]);
    var v := UInt32LE(s);
    assert v % 0x1_0000 == lo && v / 0x1_0000 == hi;
    PackUnpackUInt16LE(s[..2]);
    PackUnpackUInt16LE(s[2..]);
    assert s == s[..2] + s[2..];
  }

  /** Every byte is what `'<b'` packs for the value it unpacks to. */
  lemma PackUnpackInt8(x: byte)
    ensures PackInt8(Int8(x)) == Ok(x)
  {
  }
}
