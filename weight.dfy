/** `parse_weight` (gluescales_lamiflex.py:106-130): the scale's reply to the
    weight command unpacked with the fixed little-endian layout
    `'<3sHBIbB2s'` into a dictionary of seven fields. The header, the length
    and the checksum of the reply are extracted but never checked. */
module Weight {
  import opened Bits
  import opened StructPack

  /** The dictionary `parse_weight` returns (lines 120-128). */
  datatype Reading = Reading(
    header: seq<byte>,  // 'Header', format 3s
    length: nat,        // 'Length', format H
    command: byte,      // 'Command', format B
    weight: nat,        // 'Weight', format I: unsigned 32 bits
    division: int,      // 'Division', format b: signed 8 bits
    stable: byte,       // 'Stable', format B
    crc: seq<byte>      // 'CRC', format 2s
  )

  /** The size of `'<3sHBIbB2s'`: 3 + 2 + 1 + 4 + 1 + 1 + 2 bytes, with no
      padding because of the `'<'` prefix. */
  const ResponseSize: nat := 14

  /** `struct.unpack('<3sHBIbB2s', resp)` and the dictionary built from it. */
  function ParseWeight(resp: seq<byte>): (r: Result<Reading>)
    ensures r.Ok? <==> |resp| == ResponseSize
    ensures r.Err? ==> r.error == UnpackSizeMismatch
    ensures r.Ok? ==>
      && r.value.header == resp[..3]
      && r.value.length == resp[3] as int + 0x100 * resp[4] as int
      && r.value.command == resp[5]
      && r.value.weight == resp[6] as int + 0x100 * resp[7] as int
           + 0x1_0000 * resp[8] as int + 0x100_0000 * resp[9] as int
      && r.value.division == (if resp[10] < 0x80 then resp[10] as int else resp[10] as int - 0x100)
      && r.value.stable == resp[11]
      && r.value.crc == resp[12..]
    ensures r.Ok? ==> r.value.weight < 0x1_0000_0000 && -0x80 <= r.value.division < 0x80
    ensures r.Ok? ==> PackWeight(r.value) == Ok(resp)
  {
    if |resp| != ResponseSize then Err(UnpackSizeMismatch)
    else
      var w := Reading(resp[..3], UInt16LE(resp[3..5]), resp[5], UInt32LE(resp[6..10]),
                       Int8(resp[10]), resp[11], resp[12..]);
      PackUnpackUInt16LE(resp[3..5]);
      PackUnpackUInt32LE(resp[6..10]);
      PackUnpackInt8(resp[10]);
      assert resp == resp[..3] + resp[3..5] + [resp[5]] + resp[6..10] + [resp[10], resp[11]] + resp[12..];
      Ok(w)
  }

  /** `struct.pack('<ns', s)`: s cut or zero-padded to exactly n bytes. */
  function FixedBytes(s: seq<byte>, n: nat): (r: seq<byte>)
    ensures |r| == n
    ensures |s| == n ==> r == s
  {
    if |s| >= n then s[..n] else s + seq(n - |s|, _ => 0)
  }

  /** `struct.pack('<3sHBIbB2s', ...)` of the seven fields: the inverse of
      the unpack, used to state what the unpack preserves. */
  function PackWeight(w: Reading): (r: Result<seq<byte>>)
    ensures r.Ok? <==> w.length < 0x1_0000 && w.weight < 0x1_0000_0000 && -0x80 <= w.division < 0x80
    ensures r.Ok? ==> |r.value| == ResponseSize
  {
    match (PackUInt16LE(w.length), PackUInt32LE(w.weight), PackInt8(w.division))
    case (Ok(length), Ok(weight), Ok(division)) =>
      Ok(FixedBytes(w.header, 3) + length + [w.command] + weight + [division, w.stable]
         + FixedBytes(w.crc, 2))
    case _ => Err(PackOutOfRange)
  }

  /** Every reading whose fields fit the layout is recovered from its bytes. */
  lemma ParsePacked(w: Reading)
    requires PackWeight(w).Ok?
    requires |w.header| == 3 && |w.crc| == 2
    ensures ParseWeight(PackWeight(w).value) == Ok(w)
  {
    var s := PackWeight(w).value;
    var length, weight, division :=
      PackUInt16LE(w.length).value, PackUInt32LE(w.weight).value, PackInt8(w.division).value;
    var front := w.header + length + [w.command];
    var back := weight + [division, w.stable];
    assert s == front + back + w.crc;
    assert |front| == 6 && |back| == 6;
    assert s[..6] == front && s[6..12] == back && s[12..] == w.crc;
    assert front[..3] == w.header && front[3..5] == length && front[5] == w.command;
    assert back[..4] == weight && back[4] == division && back[5] == w.stable;
    assert s[..3] == w.header && s[3..5] == length && s[5] == w.command;
    assert s[6..10] == weight && s[10] == division && s[11] == w.stable;
    assert UInt16LE(s[3..5]) == w.length && UInt32LE(s[6..10]) == w.weight;
    assert Int8(s[10]) == w.division;
    assert ParseWeight(s)
        == Ok(Reading(s[..3], UInt16LE(s[3..5]), s[5], UInt32LE(s[6..10]), Int8(s[10]), s[11], s[12..]));
  }
}
