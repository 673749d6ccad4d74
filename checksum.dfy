/** The frame checksum `crc16` (gluescales_lamiflex.py:27-52): a CRC with
    polynomial 0x1021 written over Python's unbounded ints. None of `acc`,
    `temp` or `crc` is ever masked, so the running value is not kept to 16
    bits, and the final `struct.pack('>h', crc)` raises once it exceeds 0x7FFF.

    The specification functions below follow the loops step by step; the
    method `Crc16` is the loop itself, proved to compute them. The lemmas then
    show what the unmasked computation really is: while the message's
    big-endian value stays below 0x10000 the running value equals it, and
    once it is at or above 0x10000 the running value never comes back down. */
module Checksum {
  import opened Bits
  import opened StructPack

  /** The generator polynomial of line 45. */
  const Poly: nat := 0x1021

  /** `x & 0x8000` is non-zero: bit 15 of x is set. */
  predicate Bit15(x: nat)
  {
    x / 0x8000 % 2 == 1
  }

  /** `(crc >> 8) << 8`: crc with its low byte cleared (line 41). */
  function ClearLowByte(crc: nat): (t: nat)
    ensures t == crc - crc % 0x100
  {
    crc / 0x100 * 0x100
  }

  /** The two variables of the inner loop (lines 40-48). */
  datatype Inner = Inner(temp: nat, acc: nat)

  /** One pass of the inner loop body (lines 44-48). */
  function InnerStep(s: Inner): Inner
  {
    var acc := if Bit15(Xor(s.temp, s.acc)) then Xor(s.acc * 2, Poly) else s.acc * 2;
    Inner(s.temp * 2, acc)
  }

  /** The inner loop's variables after j passes, starting from `temp0` and
      `acc = 0` (lines 40-41). */
  function InnerAfter(temp0: nat, j: nat): Inner
  {
    if j == 0 then Inner(temp0, 0) else InnerStep(InnerAfter(temp0, j - 1))
  }

  /** The value `acc` has when the inner loop ends for the running value crc. */
  function AccFor(crc: nat): nat
  {
    InnerAfter(ClearLowByte(crc), 8).acc
  }

  /** One pass of the outer loop: the new running value after byte b
      (line 50; `b & 0xFFFF` is b itself for a byte). */
  function CrcStep(crc: nat, b: byte): nat
  {
    Xor(Xor(AccFor(crc), crc * 0x100), (b as nat) % 0x1_0000)
  }

  /** The running value `crc` after the outer loop has consumed all of data. */
  function RunningCrc(data: seq<byte>): nat
    decreases |data|
  {
    if data == [] then 0 else CrcStep(RunningCrc(data[..|data| - 1]), data[|data| - 1])
  }

  /** What `crc16(data)` returns, or the `struct.error` it raises (line 52). */
  function Crc16Result(data: seq<byte>): (r: Result<seq<byte>>)
    ensures r.Ok? <==> RunningCrc(data) <= 0x7FFF
    ensures r.Ok? ==> r.value == [RunningCrc(data) / 0x100, RunningCrc(data) % 0x100]
  {
    PackInt16BE(RunningCrc(data))
  }

  /** `crc16` as the source writes it: two nested loops updating `crc`,
      `acc` and `temp`, then the `'>h'` pack. */
  method Crc16(data: seq<byte>) returns (r: Result<seq<byte>>)
    ensures r == Crc16Result(data)
    ensures r.Ok? <==> UIntBE(data) <= 0x7FFF
    ensures r.Ok? ==> r.value == [UIntBE(data) / 0x100, UIntBE(data) % 0x100]
  {
    var crc: nat := 0;
    for n := 0 to |data|
      invariant crc == RunningCrc(data[..n])
    {
      var acc: nat := 0;
      var temp: nat := ClearLowByte(crc);
      for i := 0 to 8
        invariant Inner(temp, acc) == InnerAfter(ClearLowByte(crc), i)
      {
        if Bit15(Xor(temp, acc)) {
          acc := Xor(acc * 2, Poly);
        } else {
          acc := acc * 2;
        }
        temp := temp * 2;
      }
      var b: nat := data[n];
      crc := Xor(Xor(acc, crc * 0x100), b % 0x1_0000);
      assert data[..n + 1][..n] == data[..n];
    }
    assert data[..|data|] == data;
    r := PackInt16BE(crc);
    Crc16ClosedForm(data);
  }

  /** After its first pass from zero, `acc` gains at most one bit per pass. */
  lemma {:induction false} AccGrowth(temp0: nat, i: nat, j: nat)
    requires i <= j
    requires InnerAfter(temp0, i).acc == 0
    ensures InnerAfter(temp0, j).acc < Pow2(12 + (j - i))
  {
    Pow2Values();
    if j > i {
      AccGrowth(temp0, i, j - 1);
      var s := InnerAfter(temp0, j - 1);
      var m := 12 + (j - i);
      assert s.acc * 2 < Pow2(m);
      Pow2Monotone(13, m);
      XorBelow(s.acc * 2, Poly, m);
    } else {
      Pow2Monotone(0, 12);
    }
  }

  /** `acc` stays below 2^20, whatever `temp` is. */
  lemma AccBelow20(crc: nat)
    ensures AccFor(crc) < 0x10_0000
  {
    Pow2Values();
    AccGrowth(ClearLowByte(crc), 0, 8);
  }

  /** When `temp` starts below 2^12 the first four passes see bit 15 clear,
      so `acc` is still zero after them and ends below 2^16. */
  lemma AccBelow16(crc: nat)
    requires crc < 0x1000
    ensures AccFor(crc) < 0x1_0000
  {
    var t := ClearLowByte(crc);
    assert InnerAfter(t, 1) == Inner(t * 2, 0);
    assert InnerAfter(t, 2) == Inner(t * 4, 0);
    assert InnerAfter(t, 3) == Inner(t * 8, 0);
    assert InnerAfter(t, 4) == Inner(t * 16, 0);
    Pow2Values();
    AccGrowth(t, 4, 8);
  }

  /** With `temp` zero the inner loop never sets a bit of `acc`. */
  lemma {:induction false} InnerQuiet(j: nat)
    ensures InnerAfter(0, j) == Inner(0, 0)
  {
    if j > 0 { InnerQuiet(j - 1); }
  }

  /** A running value below 0x100 leaves `temp`, and so `acc`, at zero. */
  lemma AccQuiet(crc: nat)
    requires crc < 0x100
    ensures AccFor(crc) == 0
  {
    assert ClearLowByte(crc) == 0;
    InnerQuiet(8);
  }

  /** Below 0x100, shifting the running value up one byte frees the low
      byte, so the exclusive or with the new byte is a sum. */
  lemma XorIntoFreedByte(crc: nat, b: byte)
    ensures Xor(crc * 0x100, b) == crc * 0x100 + b
  {
    Pow2Values();
    XorDisjointIsSum(crc, b, 8);
    ShlByte(crc);
  }

  /** Line 50 when `acc` is zero and the running value is below 0x100: the
      new byte lands in the low byte freed by the shift. */
  lemma ShiftInByte(acc: nat, crc: nat, b: byte)
    requires acc == 0
    requires crc < 0x100
    ensures Xor(Xor(acc, crc * 0x100), (b as nat) % 0x1_0000) == crc * 0x100 + b
  {
    var x := crc * 0x100;
    assert Xor(acc, x) == x;
    var m := (b as nat) % 0x1_0000;
    assert m == b;
    XorIntoFreedByte(crc, m);
  }

  /** A running value below 0x100 is shifted up one byte and the new byte
      lands in the freed low byte. */
  lemma StepSmall(crc: nat, b: byte)
    requires crc < 0x100
    ensures CrcStep(crc, b) == crc * 0x100 + b
  {
    AccQuiet(crc);
    ShiftInByte(AccFor(crc), crc, b);
  }

  /** A running value of 0x100 or more yields 0x10000 or more. */
  lemma StepLarge(crc: nat, b: byte)
    requires crc >= 0x100
    ensures CrcStep(crc, b) >= 0x1_0000
  {
    Pow2Values();
    var acc := AccFor(crc);
    if crc < 0x1000 {
      AccBelow16(crc);
      XorBelow(acc, crc * 0x100, 16);
    } else {
      AccBelow20(crc);
      XorBelow(acc, crc * 0x100, 20);
      Pow2Monotone(16, 20);
    }
    var x := Xor(acc, crc * 0x100);
    assert x >= 0x1_0000;
    XorCommutes(x, b);
    XorBelow(b, x, 16);
    assert b % 0x1_0000 == b;
    assert CrcStep(crc, b) == Xor(x, b);
  }

  /** Once the running value exceeds 0x7FFF it stays above it for the next
      byte, because line 50 shifts it left without masking. */
  lemma OverflowPersists(crc: nat, b: byte)
    requires crc > 0x7FFF
    ensures CrcStep(crc, b) > 0x7FFF
  {
    StepLarge(crc, b);
  }

  /** ... and so for every later byte. */
  lemma {:induction false} OverflowPersistsOver(data: seq<byte>, more: seq<byte>)
    requires RunningCrc(data) > 0x7FFF
    ensures RunningCrc(data + more) > 0x7FFF
    decreases |more|
  {
    if more != [] {
      var init := more[..|more| - 1];
      var last := more[|more| - 1];
      assert (data + more)[..|data + more| - 1] == data + init;
      assert (data + more)[|data + more| - 1] == last;
      assert RunningCrc(data + more) == CrcStep(RunningCrc(data + init), last);
      OverflowPersistsOver(data, init);
      OverflowPersists(RunningCrc(data + init), last);
    } else {
      assert data + more == data;
    }
  }

  /** The running value is the message's big-endian value while that is
      below 0x10000, and at least 0x10000 otherwise. */
  lemma {:induction false} RunningCrcClosedForm(data: seq<byte>)
    ensures UIntBE(data) < 0x1_0000 ==> RunningCrc(data) == UIntBE(data)
    ensures UIntBE(data) >= 0x1_0000 ==> RunningCrc(data) >= 0x1_0000
    decreases |data|
  {
    if data != [] {
      var init, b := data[..|data| - 1], data[|data| - 1];
      RunningCrcClosedForm(init);
      if UIntBE(init) < 0x100 {
        StepSmall(RunningCrc(init), b);
      } else {
        StepLarge(RunningCrc(init), b);
      }
    }
  }

  /** `crc16` succeeds exactly when the message read as a big-endian number
      is at most 0x7FFF, and then it returns that number's two bytes. */
  lemma Crc16ClosedForm(data: seq<byte>)
    ensures Crc16Result(data).Ok? <==> UIntBE(data) <= 0x7FFF
    ensures Crc16Result(data).Ok? ==>
      Crc16Result(data).value == [UIntBE(data) / 0x100, UIntBE(data) % 0x100]
  {
    RunningCrcClosedForm(data);
  }

  /** Failing as soon as the running value exceeds 0x7FFF is the same as
      failing at the final pack: the pack fails exactly when some prefix
      already overflowed. */
  lemma Crc16FailsIffSomePrefixOverflows(data: seq<byte>)
    ensures Crc16Result(data).Err? <==>
      exists k :: 0 <= k <= |data| && RunningCrc(data[..k]) > 0x7FFF
  {
    if k :| 0 <= k <= |data| && RunningCrc(data[..k]) > 0x7FFF {
      var done, rest := data[..k], data[k..];
      assert done + rest == data;
      OverflowPersistsOver(done, rest);
    } else {
      assert data[..|data|] == data;
    }
  }

  /** The checksum of the empty message is `00 00`. */
  lemma Crc16Empty()
    ensures Crc16Result([]) == Ok([0x00, 0x00])
  {
  }

  /** The checksum of a one-byte message b is `00 b`. */
  lemma Crc16SingleByte(b: byte)
    ensures Crc16Result([b]) == Ok([0x00, b])
  {
    assert UIntBE([b]) == b by {
      assert [b][..0] == [];
    }
    assert Crc16Result([b]).Ok? && Crc16Result([b]).value == [b / 0x100, b % 0x100] by {
      Crc16ClosedForm([b]);
    }
    assert [b / 0x100, b % 0x100] == [0x00, b];
  }

  /** A two-byte message whose first byte has its top bit set makes
      `crc16` raise: `80 00` is the smallest such message. */
  lemma Crc16TwoBytesHighBit(b0: byte, b1: byte)
    requires b0 >= 0x80
    ensures Crc16Result([b0, b1]).Err?
  {
    assert [b0, b1][..1] == [b0] && [b0][..0] == [];
    assert UIntBE([b0, b1]) == UInt16BE([b0, b1]) >= 0x8000;
    Crc16ClosedForm([b0, b1]);
  }
}
