/// The SCALE codec helpers of src/util.rs: the "compact" variable-length integer codec
/// (`nom_scale_compact_usize`, `encode_scale_compact_usize`) and the decoders of `bool`,
/// `Option`, byte vectors and strings built on it. `usize` is fixed at 64 bits.
module ScaleCodec {
  import opened Wrappers

  type Byte = x: int | 0 <= x < 256

  /// `usize` on a 64-bit target.
  type Usize = x: int | 0 <= x < 0x1_0000_0000_0000_0000

  const USIZE_LIMIT: nat := 0x1_0000_0000_0000_0000

  /// The result of a nom parser: the unconsumed input and the decoded value, or an error
  /// (nom's error kinds are not distinguished).
  datatype IResult<T> = Done(rest: seq<Byte>, value: T) | Error

  // ------------------------------------------------------------------ arithmetic

  function Pow2(n: nat): (r: nat)
    ensures r >= 1
  {
    if n == 0 then 1 else 2 * Pow2(n - 1)
  }

  lemma {:induction false} Pow2Add(a: nat, b: nat)
    ensures Pow2(a + b) == Pow2(a) * Pow2(b)
  {
    if a > 0 {
      Pow2Add(a - 1, b);
      assert Pow2(a + b) == 2 * Pow2(a - 1 + b);
    }
  }

  lemma Pow2Monotone(a: nat, b: nat)
    requires a <= b
    ensures Pow2(a) <= Pow2(b)
  {
    Pow2Add(a, b - a);
  }

  lemma Pow2Byte()
    ensures Pow2(8) == 256
  {
    assert Pow2(4) == 16;
  }

  lemma Pow2Values()
    ensures Pow2(0) == 1 && Pow2(2) == 4 && Pow2(6) == 64 && Pow2(8) == 256
    ensures Pow2(14) == 0x4000 && Pow2(16) == 0x1_0000 && Pow2(22) == 0x40_0000
    ensures Pow2(24) == 0x100_0000 && Pow2(30) == 0x4000_0000
    ensures Pow2(56) == 0x100_0000_0000_0000 && Pow2(64) == USIZE_LIMIT
  {
    assert Pow2(1) == 2;
    assert Pow2(2) == 4;
    assert Pow2(3) == 8;
    assert Pow2(4) == 16;
    assert Pow2(5) == 32;
    assert Pow2(6) == 64;
    assert Pow2(7) == 128;
    assert Pow2(8) == 256;
    Pow2Add(8, 6);
    Pow2Add(8, 8);
    Pow2Add(16, 6);
    Pow2Add(16, 8);
    Pow2Add(24, 6);
    Pow2Add(16, 16);
    Pow2Add(32, 24);
    Pow2Add(32, 32);
  }

  lemma DivModUnique(x: int, d: int, q: int, r: int)
    requires d > 0 && 0 <= r < d && x == d * q + r
    ensures x / d == q && x % d == r
  {
    var q0, r0 := x / d, x % d;
    assert d * (q0 - q) == r - r0;
    if q0 > q {
      MulMonotone(1, q0 - q, d);
    } else if q0 < q {
      MulMonotone(1, q - q0, d);
    }
  }

  lemma MulMonotone(a: int, b: int, p: int)
    requires a <= b && p >= 0
    ensures a * p <= b * p
  {
    assert b * p - a * p == (b - a) * p;
  }

  // ------------------------------------------------------------------ little-endian digits

  /// The number whose base-256 digits, least significant first, are `bs`.
  function LittleEndian(bs: seq<Byte>): nat
  {
    if bs == [] then 0 else bs[0] + 256 * LittleEndian(bs[1..])
  }

  lemma {:induction false} LittleEndianBound(bs: seq<Byte>)
    ensures LittleEndian(bs) < Pow2(8 * |bs|)
  {
    if bs != [] {
      LittleEndianBound(bs[1..]);
      Pow2Byte();
      Pow2Add(8, 8 * (|bs| - 1));
    }
  }

  lemma {:induction false} LittleEndianLowerBound(bs: seq<Byte>)
    requires bs != [] && bs[|bs| - 1] != 0
    ensures LittleEndian(bs) >= Pow2(8 * (|bs| - 1))
  {
    if |bs| == 1 {
      assert bs[1..] == [];
    } else {
      LittleEndianLowerBound(bs[1..]);
      Pow2Byte();
      Pow2Add(8, 8 * (|bs| - 2));
    }
  }

  lemma {:induction false} LittleEndianAppend(bs: seq<Byte>, b: Byte)
    ensures LittleEndian(bs + [b]) == LittleEndian(bs) + b * Pow2(8 * |bs|)
  {
    if bs == [] {
      assert (bs + [b])[1..] == [];
    } else {
      assert (bs + [b])[1..] == bs[1..] + [b];
      LittleEndianAppend(bs[1..], b);
      var p := Pow2(8 * (|bs| - 1));
      Pow2Byte();
      Pow2Add(8, 8 * (|bs| - 1));
      assert Pow2(8 * |bs|) == 256 * p;
      assert b * (256 * p) == 256 * (b * p);
    }
  }

  /// The `n` low base-256 digits of `x`, least significant first.
  function FixedLE(x: nat, n: nat): (r: seq<Byte>)
    ensures |r| == n
  {
    if n == 0 then [] else [x % 256] + FixedLE(x / 256, n - 1)
  }

  lemma {:induction false} FixedLERoundTrip(x: nat, n: nat)
    requires x < Pow2(8 * n)
    ensures LittleEndian(FixedLE(x, n)) == x
  {
    if n > 0 {
      Pow2Byte();
      Pow2Add(8, 8 * (n - 1));
      FixedLERoundTrip(x / 256, n - 1);
      assert FixedLE(x, n)[1..] == FixedLE(x / 256, n - 1);
    }
  }

  /// The shortest base-256 digits of `v`, least significant first: the last one is not zero.
  function MinimalLE(v: nat): seq<Byte>
    decreases v
  {
    if v == 0 then [] else [v % 256] + MinimalLE(v / 256)
  }

  lemma {:induction false} MinimalLEValue(v: nat)
    ensures LittleEndian(MinimalLE(v)) == v
    ensures v > 0 ==> MinimalLE(v)[|MinimalLE(v)| - 1] != 0
  {
    if v > 0 {
      MinimalLEValue(v / 256);
      assert MinimalLE(v)[1..] == MinimalLE(v / 256);
    }
  }

  lemma {:induction false} MinimalLELength(v: nat, n: nat)
    ensures v < Pow2(8 * n) ==> |MinimalLE(v)| <= n
    ensures v >= Pow2(8 * n) ==> |MinimalLE(v)| > n
  {
    Pow2Byte();
    if n > 0 && v > 0 {
      Pow2Add(8, 8 * (n - 1));
      MinimalLELength(v / 256, n - 1);
    }
  }

  // ------------------------------------------------------------------ compact integers

  /// Total length of a compact encoding, read off its first byte: the two low bits select the
  /// mode; in mode 0b11 the six upper bits hold the number of value bytes minus four.
  function CompactLength(b0: Byte): (n: nat)
    ensures 1 <= n <= 68
  {
    var mode := b0 % 4;
    if mode == 0 then 1 else if mode == 1 then 2 else if mode == 2 then 4 else b0 / 4 + 5
  }

  /// Reference definition of compact decoding. In modes 0b00, 0b01 and 0b10 the value is the
  /// little-endian number formed by the 1, 2 or 4 consumed bytes, without its two mode bits. In
  /// mode 0b11 it is the little-endian number formed by the value bytes after the header;
  /// their last byte must not be zero (canonical form) and the number must fit in 64 bits.
  function DecodeCompact(bytes: seq<Byte>): (r: IResult<Usize>)
    ensures r.Done? <==>
      && |bytes| > 0
      && |bytes| >= CompactLength(bytes[0])
      && (bytes[0] % 4 == 3 ==> bytes[CompactLength(bytes[0]) - 1] != 0 && CompactLength(bytes[0]) <= 9)
    ensures r.Done? ==> r.rest == bytes[CompactLength(bytes[0])..]
    ensures r.Done? && bytes[0] % 4 == 0 ==> r.value < 0x40
    ensures r.Done? && bytes[0] % 4 == 1 ==> r.value < 0x4000
    ensures r.Done? && bytes[0] % 4 == 2 ==> r.value < 0x4000_0000
    ensures r.Done? && bytes[0] % 4 == 3 ==> r.value >= Pow2(8 * (CompactLength(bytes[0]) - 2))
  {
    if |bytes| == 0 then Error
    else
      var len := CompactLength(bytes[0]);
      if |bytes| < len then Error
      else if bytes[0] % 4 != 3 then
        ShortFormBound(bytes[..len]);
        Done(bytes[len..], LittleEndian(bytes[..len]) / 4)
      else if bytes[len - 1] == 0 || len > 9 then Error
      else
        var valueBytes := bytes[1..len];
        assert valueBytes[|valueBytes| - 1] == bytes[len - 1];
        LongFormBound(valueBytes);
        Done(bytes[len..], LittleEndian(valueBytes))
  }

  /// The value of 1, 2 or 4 little-endian digits without the two mode bits fits in 6, 14 or 30
  /// bits.
  lemma ShortFormBound(prefix: seq<Byte>)
    ensures |prefix| == 1 ==> LittleEndian(prefix) / 4 < 0x40
    ensures |prefix| == 2 ==> LittleEndian(prefix) / 4 < 0x4000
    ensures |prefix| == 4 ==> LittleEndian(prefix) / 4 < 0x4000_0000
  {
    LittleEndianBound(prefix);
    Pow2Values();
  }

  /// Canonical value bytes, at most eight, form a number of 64 bits whose highest byte is set.
  lemma LongFormBound(valueBytes: seq<Byte>)
    requires 0 < |valueBytes| <= 8 && valueBytes[|valueBytes| - 1] != 0
    ensures Pow2(8 * (|valueBytes| - 1)) <= LittleEndian(valueBytes) < USIZE_LIMIT
  {
    LittleEndianBound(valueBytes);
    LittleEndianLowerBound(valueBytes);
    Pow2Values();
    Pow2Monotone(8 * |valueBytes|, 64);
  }

  /// Mode 0b00: the value is the upper six bits of the single byte.
  lemma OneByteDecode(bytes: seq<Byte>)
    requires |bytes| > 0 && bytes[0] % 4 == 0
    ensures DecodeCompact(bytes) == Done(bytes[1..], bytes[0] / 4)
  {
    LittleEndianShort(bytes[..1]);
  }

  /// Mode 0b01: the upper six bits of the first byte, then the eight bits of the second.
  lemma TwoByteDecode(bytes: seq<Byte>)
    requires |bytes| >= 2 && bytes[0] % 4 == 1
    ensures DecodeCompact(bytes) == Done(bytes[2..], (bytes[1] as int) * 0x40 + bytes[0] / 4)
  {
    LittleEndianShort(bytes[..2]);
    DivModUnique(bytes[0] + 256 * (bytes[1] as int), 4, (bytes[1] as int) * 0x40 + bytes[0] / 4, 1);
  }

  /// Mode 0b10: the upper six bits of the first byte, then the eight bits of each of the next
  /// three.
  lemma FourByteDecode(bytes: seq<Byte>)
    requires |bytes| >= 4 && bytes[0] % 4 == 2
    ensures DecodeCompact(bytes) ==
      Done(bytes[4..], (bytes[3] as int) * 0x40_0000 + (bytes[2] as int) * 0x4000 + (bytes[1] as int) * 0x40 + bytes[0] / 4)
  {
    var prefix := bytes[..4];
    LittleEndianShort(prefix);
    DivModUnique(LittleEndian(prefix), 4,
      (bytes[3] as int) * 0x40_0000 + (bytes[2] as int) * 0x4000 + (bytes[1] as int) * 0x40 + bytes[0] / 4, 2);
  }

  /// Mode 0b11 with a nonzero highest byte: the value bytes are decoded when there are at most
  /// eight of them, and rejected otherwise since their value reaches 2^64.
  lemma LongDecode(bytes: seq<Byte>)
    requires |bytes| > 0 && bytes[0] % 4 == 3
    requires |bytes| >= bytes[0] / 4 + 5 && bytes[bytes[0] / 4 + 4] != 0
    ensures var numBytes := bytes[0] / 4 + 4;
      && (numBytes <= 8 ==> DecodeCompact(bytes) == Done(bytes[numBytes + 1..], LittleEndian(bytes[1..numBytes + 1])))
      && (numBytes > 8 ==> DecodeCompact(bytes) == Error && LittleEndian(bytes[1..numBytes + 1]) >= USIZE_LIMIT)
  {
    var numBytes := bytes[0] / 4 + 4;
    var valueBytes := bytes[1..numBytes + 1];
    if numBytes > 8 {
      assert valueBytes[|valueBytes| - 1] == bytes[numBytes];
      LittleEndianLowerBound(valueBytes);
      Pow2Values();
      Pow2Monotone(64, 8 * (numBytes - 1));
    }
  }

  /// `usize::from(b).checked_mul(1 << shift)` (src/util.rs:148) as evidently intended:
  /// `b * 2^shift` when that fits in 64 bits, `None` when it does not.
  function CheckedShiftedByte(b: Byte, shift: nat): Option<Usize>
  {
    if b * Pow2(shift) < USIZE_LIMIT then Some(b * Pow2(shift)) else None
  }

  /// A byte shifted by at most 56 bits never overflows a `usize`.
  lemma CheckedShiftedByteBound(b: Byte, shift: nat)
    requires shift <= 56
    ensures CheckedShiftedByte(b, shift).Some?
  {
    var p := Pow2(shift);
    Pow2Monotone(shift, 56);
    Pow2Values();
    MulMonotone(b, 255, p);
    assert 255 * p <= 255 * 0x100_0000_0000_0000;
  }

  /// Adding a byte above the digits of a number below 2^64 keeps it below 2^64 when the
  /// shifted byte itself fits.
  lemma AppendFits(bs: seq<Byte>, b: Byte)
    requires LittleEndian(bs) < USIZE_LIMIT
    requires b * Pow2(8 * |bs|) < USIZE_LIMIT
    ensures LittleEndian(bs + [b]) < USIZE_LIMIT
  {
    LittleEndianAppend(bs, b);
    if b > 0 {
      Pow2Values();
      MulMonotone(1, b, Pow2(8 * |bs|));
      if 8 * |bs| >= 64 {
        Pow2Monotone(64, 8 * |bs|);
        assert false;
      }
      LittleEndianBound(bs + [b]);
      Pow2Monotone(8 * |bs + [b]|, 64);
    }
  }

  /// The value of one, two or four little-endian digits.
  lemma LittleEndianShort(bs: seq<Byte>)
    ensures |bs| == 1 ==> LittleEndian(bs) == bs[0]
    ensures |bs| == 2 ==> LittleEndian(bs) == bs[0] + 0x100 * (bs[1] as int)
    ensures |bs| == 4 ==>
      LittleEndian(bs) == bs[0] + 0x100 * (bs[1] as int) + 0x1_0000 * (bs[2] as int) + 0x100_0000 * (bs[3] as int)
  {
    if |bs| == 1 || |bs| == 2 || |bs| == 4 {
      var last := bs[|bs| - 1..];
      assert last[1..] == [];
      assert LittleEndian(last) == bs[|bs| - 1];
      if |bs| >= 2 {
        assert bs[|bs| - 2..][1..] == last;
      }
      if |bs| == 4 {
        assert bs[1..][1..] == bs[2..];
        assert bs[2..][1..] == last;
      }
    }
  }

  /// Adding the shifted byte that `CheckedShiftedByte` accepted above the digits of a 64-bit
  /// number appends that byte to its digits and stays within 64 bits.
  lemma AccumulateStep(bs: seq<Byte>, b: Byte, term: Usize)
    requires LittleEndian(bs) < USIZE_LIMIT
    requires CheckedShiftedByte(b, 8 * |bs|) == Some(term)
    ensures LittleEndian(bs + [b]) == LittleEndian(bs) + term < USIZE_LIMIT
  {
    AppendFits(bs, b);
    LittleEndianAppend(bs, b);
  }

  /// `nom_scale_compact_usize`, branch by branch as src/util.rs:75-168 writes it; bit operations
  /// on disjoint bit ranges are written as additions. The 0b11 loop uses the checked product of
  /// `CheckedShiftedByte`, so a value that does not fit in 64 bits is an error.
  method NomScaleCompactUsize(bytes: seq<Byte>) returns (r: IResult<Usize>)
    ensures r == DecodeCompact(bytes)
  {
    if |bytes| == 0 {
      return Error;
    }
    var mode := bytes[0] % 4;
    if mode == 0 {
      var value := bytes[0] / 4;
      OneByteDecode(bytes);
      r := Done(bytes[1..], value);
    } else if mode == 1 {
      if |bytes| < 2 {
        return Error;
      }
      var byte0: nat := bytes[0] / 4;
      var byte1: nat := bytes[1];
      var value := byte1 * 0x40 + byte0;
      TwoByteDecode(bytes);
      r := Done(bytes[2..], value);
    } else if mode == 2 {
      if |bytes| < 4 {
        return Error;
      }
      var byte0: nat := bytes[0] / 4;
      var byte1: nat := bytes[1];
      var byte2: nat := bytes[2];
      var byte3: nat := bytes[3];
      // `usize::try_from` of this `u32` cannot fail with a 64-bit `usize`.
      var value := byte3 * 0x40_0000 + byte2 * 0x4000 + byte1 * 0x40 + byte0;
      FourByteDecode(bytes);
      r := Done(bytes[4..], value);
    } else {
      var numBytes := bytes[0] / 4 + 4;
      if |bytes| < numBytes + 1 {
        return Error;
      }
      // The value is not canonical if its highest byte is zero.
      if bytes[numBytes] == 0 {
        return Error;
      }
      LongDecode(bytes);
      var outValue: Usize := 0;
      var shift: nat := 0;
      var byteIndex := 1;
      while byteIndex <= numBytes
        invariant 1 <= byteIndex <= numBytes + 1
        invariant shift == 8 * (byteIndex - 1)
        invariant outValue == LittleEndian(bytes[1..byteIndex])
      {
        match CheckedShiftedByte(bytes[byteIndex], shift) {
          case None =>
            // Overflow: the encoded value does not fit in a `usize`.
            if byteIndex <= 8 {
              CheckedShiftedByteBound(bytes[byteIndex], shift);
              assert false;
            }
            return Error;
          case Some(term) =>
            assert bytes[1..byteIndex] + [bytes[byteIndex]] == bytes[1..byteIndex + 1];
            AccumulateStep(bytes[1..byteIndex], bytes[byteIndex], term);
            // `out_value |= term`: `term` has no bit below `shift`, `out_value` none above.
            outValue := outValue + term;
        }
        shift := shift + 8;
        byteIndex := byteIndex + 1;
      }
      r := Done(bytes[numBytes + 1..], outValue);
    }
  }

  /// Reference definition of the compact encoding of `v`. Below 2^30 it is `v` shifted left by
  /// two with the mode in the two low bits, written as 1, 2 or 4 little-endian bytes by
  /// magnitude. From 2^30 on it is a header byte holding, above the mode bits 0b11, the number
  /// of value bytes minus four, followed by the shortest little-endian digits of `v`.
  function EncodeCompact(v: Usize): (e: seq<Byte>)
    ensures 1 <= |e| <= 9
    ensures v < 0x40 ==> |e| == 1
    ensures 0x40 <= v < 0x4000 ==> |e| == 2
    ensures 0x4000 <= v < 0x4000_0000 ==> |e| == 4
    ensures 0x4000_0000 <= v ==> 5 <= |e| && e[0] % 4 == 3
  {
    if v < 0x40 then FixedLE(4 * v, 1)
    else if v < 0x4000 then FixedLE(4 * v + 1, 2)
    else if v < 0x4000_0000 then FixedLE(4 * v + 2, 4)
    else
      var digits := MinimalLE(v);
      LongFormDigits(v);
      [4 * (|digits| - 4) + 3] + digits
  }

  /// A value of the long form, at least 2^30 and below 2^64, has four to eight digits.
  lemma LongFormDigits(v: nat)
    requires 0x4000_0000 <= v < USIZE_LIMIT
    ensures 4 <= |MinimalLE(v)| <= 8
  {
    Pow2Values();
    MinimalLELength(v, 3);
    MinimalLELength(v, 8);
  }

  /// The first byte of `FixedLE(4 * v + mode, n)` carries `mode` in its two low bits.
  lemma FixedLEMode(v: nat, mode: nat, n: nat)
    requires mode < 4 && n > 0
    ensures FixedLE(4 * v + mode, n)[0] % 4 == mode
  {
    var x := 4 * v + mode;
    DivModUnique(x, 256, x / 256, x % 256);
    DivModUnique(x % 256, 4, v - 64 * (x / 256), mode);
  }

  /// Round trip: decoding the encoding of any 64-bit `v` followed by any bytes yields `v` and
  /// leaves exactly those bytes.
  lemma CompactRoundTrip(v: Usize, rest: seq<Byte>)
    ensures DecodeCompact(EncodeCompact(v) + rest) == Done(rest, v)
  {
    if v < 0x4000_0000 {
      ShortRoundTrip(v, rest);
    } else {
      LongRoundTrip(v, rest);
    }
  }

  lemma ShortRoundTrip(v: Usize, rest: seq<Byte>)
    requires v < 0x4000_0000
    ensures DecodeCompact(EncodeCompact(v) + rest) == Done(rest, v)
  {
    if v < 0x40 {
      assert EncodeCompact(v) == FixedLE(4 * v, 1);
      FixedFormRoundTrip(v, 0, 1, rest);
    } else if v < 0x4000 {
      assert EncodeCompact(v) == FixedLE(4 * v + 1, 2);
      FixedFormRoundTrip(v, 1, 2, rest);
    } else {
      assert EncodeCompact(v) == FixedLE(4 * v + 2, 4);
      FixedFormRoundTrip(v, 2, 4, rest);
    }
  }

  /// Decoding `n` fixed little-endian bytes of `4 * v + mode` in mode 0b00, 0b01 or 0b10.
  lemma FixedFormRoundTrip(v: Usize, mode: nat, n: nat, rest: seq<Byte>)
    requires mode < 3 && n == (if mode == 0 then 1 else if mode == 1 then 2 else 4)
    requires v < (if mode == 0 then 0x40 else if mode == 1 then 0x4000 else 0x4000_0000)
    ensures DecodeCompact(FixedLE(4 * v + mode, n) + rest) == Done(rest, v)
  {
    var x := 4 * v + mode;
    var e := FixedLE(x, n);
    ShortFormFits(v, mode, n);
    FixedLERoundTrip(x, n);
    FixedLEMode(v, mode, n);
    DivModUnique(x, 4, v, mode);
    ShortFormDecode(e, rest);
  }

  lemma ShortFormFits(v: nat, mode: nat, n: nat)
    requires mode < 3 && n == (if mode == 0 then 1 else if mode == 1 then 2 else 4)
    requires v < (if mode == 0 then 0x40 else if mode == 1 then 0x4000 else 0x4000_0000)
    ensures 4 * v + mode < Pow2(8 * n)
  {
    Pow2Byte();
    if n > 1 {
      Pow2Add(8, 8);
    }
    if n > 2 {
      Pow2Add(16, 16);
    }
  }

  /// Decoding the 1, 2 or 4 bytes `e` of a mode-0b00, 0b01 or 0b10 form followed by any bytes.
  lemma ShortFormDecode(e: seq<Byte>, rest: seq<Byte>)
    requires |e| > 0 && e[0] % 4 != 3 && |e| == CompactLength(e[0])
    ensures DecodeCompact(e + rest) == Done(rest, LittleEndian(e) / 4)
  {
    var bytes := e + rest;
    assert bytes[0] == e[0];
    assert bytes[..|e|] == e && bytes[|e|..] == rest;
  }

  lemma LongRoundTrip(v: Usize, rest: seq<Byte>)
    requires v >= 0x4000_0000
    ensures DecodeCompact(EncodeCompact(v) + rest) == Done(rest, v)
  {
    var e := EncodeCompact(v);
    var bytes := e + rest;
    var digits := MinimalLE(v);
    MinimalLEValue(v);
    LongFormDigits(v);
    var header := 4 * (|digits| - 4) + 3;
    assert e == [header] + digits;
    DivModUnique(header, 4, |digits| - 4, 3);
    assert CompactLength(bytes[0]) == |digits| + 1;
    assert bytes[1..|digits| + 1] == digits;
    assert bytes[|digits|] == digits[|digits| - 1];
  }

  /// The bytes of the 1-byte form: `value << 2`.
  lemma OneByteForm(value: nat)
    requires value < 0x40
    ensures FixedLE(4 * value, 1) == [4 * value]
  {
    DivModUnique(4 * value, 0x100, 0, 4 * value);
    assert FixedLE(4 * value, 1) == [4 * value % 0x100] + FixedLE(4 * value / 0x100, 0);
  }

  /// The bytes of the 2-byte form: the six low bits of `value` above the mode, then the
  /// next eight bits.
  lemma TwoByteForm(value: nat)
    requires value < 0x4000
    ensures FixedLE(4 * value + 1, 2) == [(value % 0x40) * 4 + 1, (value / 0x40) % 0x100]
  {
    DivModUnique(value, 0x40, value / 0x40, value % 0x40);
    DivModUnique(4 * value + 1, 0x100, value / 0x40, (value % 0x40) * 4 + 1);
    assert FixedLE(4 * value + 1, 2) == [(4 * value + 1) % 0x100] + FixedLE((4 * value + 1) / 0x100, 1);
    assert FixedLE(value / 0x40, 1) == [value / 0x40 % 0x100] + FixedLE(value / 0x40 / 0x100, 0);
  }

  /// The bytes of the 4-byte form: the six low bits of `value` above the mode, then bits 6 to
  /// 13, 14 to 21 and 22 to 29.
  lemma FourByteForm(value: nat)
    requires value < 0x4000_0000
    ensures FixedLE(4 * value + 2, 4) ==
      [(value % 0x40) * 4 + 2, (value / 0x40) % 0x100, (value / 0x4000) % 0x100, (value / 0x40_0000) % 0x100]
  {
    var x := 4 * value + 2;
    DivModUnique(value, 0x40, value / 0x40, value % 0x40);
    DivModUnique(x, 0x100, value / 0x40, (value % 0x40) * 4 + 2);
    DivModUnique(value, 0x4000, value / 0x40 / 0x100, (value / 0x40) % 0x100 * 0x40 + value % 0x40);
    DivModUnique(value, 0x40_0000, value / 0x4000 / 0x100, (value / 0x4000) % 0x100 * 0x4000 + value % 0x4000);
    assert FixedLE(x, 4) == [x % 0x100] + FixedLE(x / 0x100, 3);
    assert FixedLE(x / 0x100, 3) == [x / 0x100 % 0x100] + FixedLE(x / 0x100 / 0x100, 2);
    assert FixedLE(x / 0x100 / 0x100, 2) == [x / 0x100 / 0x100 % 0x100] + FixedLE(x / 0x100 / 0x100 / 0x100, 1);
    assert FixedLE(x / 0x100 / 0x100 / 0x100, 1) == [x / 0x100 / 0x100 / 0x100 % 0x100] + [];
  }

  /// `encode_scale_compact_usize` as src/util.rs:171-196 writes it: bytes pushed one by one
  /// into a buffer of capacity 9, the header of the long form written last.
  method EncodeScaleCompactUsize(value: Usize) returns (encoded: seq<Byte>)
    ensures encoded == EncodeCompact(value)
  {
    if value < 0x40 {
      encoded := [value * 4];
      OneByteForm(value);
    } else if value < 0x4000 {
      encoded := [(value % 0x40) * 4 + 1];
      encoded := encoded + [(value / 0x40) % 0x100];
      TwoByteForm(value);
    } else if value < 0x4000_0000 {
      encoded := [(value % 0x40) * 4 + 2];
      encoded := encoded + [(value / 0x40) % 0x100];
      encoded := encoded + [(value / 0x4000) % 0x100];
      encoded := encoded + [(value / 0x40_0000) % 0x100];
      FourByteForm(value);
    } else {
      encoded := EncodeLongForm(value);
    }
  }

  /// The long form of `encode_scale_compact_usize` (src/util.rs:186-192): a placeholder header,
  /// the value bytes pushed while the value is nonzero, then the header byte overwritten with the
  /// number of value bytes.
  method EncodeLongForm(value: Usize) returns (encoded: seq<Byte>)
    requires 0x4000_0000 <= value
    ensures encoded == EncodeCompact(value)
  {
    encoded := [0];
    var v: nat := value;
    LongFormDigits(value);
    while v != 0
      invariant |encoded| >= 1 && encoded[0] == 0
      invariant encoded[1..] + MinimalLE(v) == MinimalLE(value)
      invariant |encoded| + |MinimalLE(v)| <= 9
      decreases v
    {
      assert MinimalLE(v) == [v % 256] + MinimalLE(v / 256);
      // The buffer has room: pushing never exceeds its capacity of 9.
      assert |encoded| < 9;
      encoded := encoded + [v % 256];
      v := v / 256;
    }
    assert encoded[1..] == MinimalLE(value);
    encoded := encoded[0 := (|encoded| - 1 - 4) * 4 + 3];
    assert encoded == [encoded[0]] + MinimalLE(value);
  }

  // ------------------------------------------------------------------ the as-written 0b11 loop

  /// `usize::from(b).checked_mul(1 << shift)` exactly as src/util.rs:148 writes it: on a 64-bit
  /// `usize` a release build takes the amount of `1 << shift` modulo 64 (a debug build panics
  /// once `shift` reaches 64), so the product never overflows and `None` never happens.
  function CheckedShiftedByteAsWritten(b: Byte, shift: nat): Option<Usize>
  {
    CheckedShiftedByte(b, shift % 64)
  }

  /// Bitwise OR of two naturals, bit by bit from the least significant.
  function BitOr(a: nat, b: nat): nat
    decreases a + b
  {
    if a == 0 && b == 0 then 0
    else (if a % 2 == 1 || b % 2 == 1 then 1 else 0) + 2 * BitOr(a / 2, b / 2)
  }

  lemma {:induction false} BitOrZero(a: nat)
    ensures BitOr(a, 0) == a
  {
    if a > 0 {
      BitOrZero(a / 2);
    }
  }

  /// The mode-0b11 loop of src/util.rs:145-162 as written, over the value bytes: every term is
  /// ORed into the accumulator.
  function AccumulateAsWritten(valueBytes: seq<Byte>, shift: nat, outValue: nat): Option<nat>
    decreases |valueBytes|
  {
    if valueBytes == [] then Some(outValue)
    else match CheckedShiftedByteAsWritten(valueBytes[0], shift)
      case None => None
      case Some(term) => AccumulateAsWritten(valueBytes[1..], shift + 8, BitOr(outValue, term))
  }

  /// A decoded `usize` seen as an unbounded natural.
  function Widen(r: IResult<Usize>): IResult<nat>
  {
    match r
    case Done(rest, v) => Done(rest, v)
    case Error => Error
  }

  /// `nom_scale_compact_usize` with the mode-0b11 loop as written.
  function DecodeCompactAsWritten(bytes: seq<Byte>): IResult<nat>
  {
    if |bytes| == 0 || bytes[0] % 4 != 3 then Widen(DecodeCompact(bytes))
    else
      var len := CompactLength(bytes[0]);
      if |bytes| < len || bytes[len - 1] == 0 then Error
      else match AccumulateAsWritten(bytes[1..len], 0, 0)
        case None => Error
        case Some(v) => Done(bytes[len..], v)
  }

  lemma {:induction false} BitOrZeroLeft(b: nat)
    ensures BitOr(0, b) == b
  {
    if b > 0 {
      BitOrZeroLeft(b / 2);
    }
  }

  /// ORing a multiple of 2^k into a number below 2^k adds the two: their bits do not overlap.
  lemma {:induction false} BitOrDisjoint(a: nat, b: nat, k: nat)
    requires a < Pow2(k)
    ensures BitOr(a, b * Pow2(k)) == a + b * Pow2(k)
  {
    if k == 0 {
      BitOrZeroLeft(b);
    } else {
      var c := b * Pow2(k);
      assert c == 2 * (b * Pow2(k - 1));
      BitOrDisjoint(a / 2, b, k - 1);
    }
  }

  /// While the shift stays below 64, ORing each shifted value byte into the accumulator builds
  /// the little-endian number of the bytes read so far.
  lemma {:induction false} AccumulateAgrees(done: seq<Byte>, todo: seq<Byte>)
    requires |done| + |todo| <= 8
    ensures AccumulateAsWritten(todo, 8 * |done|, LittleEndian(done)) == Some(LittleEndian(done + todo))
    decreases |todo|
  {
    if todo == [] {
      assert done + todo == done;
    } else {
      var b := todo[0];
      var shift := 8 * |done|;
      CheckedShiftedByteBound(b, shift);
      assert CheckedShiftedByteAsWritten(b, shift) == Some(b * Pow2(shift));
      LittleEndianBound(done);
      BitOrDisjoint(LittleEndian(done), b, shift);
      LittleEndianAppend(done, b);
      assert done + todo == (done + [b]) + todo[1..];
      AccumulateAgrees(done + [b], todo[1..]);
    }
  }

  /// With at most eight value bytes the as-written loop never reaches a shift of 64, and the
  /// as-written decoder agrees with the corrected one on every input: the two differ only on
  /// headers announcing nine or more value bytes.
  lemma AsWrittenAgrees(bytes: seq<Byte>)
    requires |bytes| > 0 ==> CompactLength(bytes[0]) <= 9
    ensures DecodeCompactAsWritten(bytes) == Widen(DecodeCompact(bytes))
  {
    if |bytes| > 0 && bytes[0] % 4 == 3 {
      var len := CompactLength(bytes[0]);
      if |bytes| >= len && bytes[len - 1] != 0 {
        AccumulateAgrees([], bytes[1..len]);
        assert [] + bytes[1..len] == bytes[1..len];
      }
    }
  }

  /// Zero value bytes add nothing to the as-written accumulator.
  lemma {:induction false} AccumulateZerosAsWritten(zeros: seq<Byte>, tail: seq<Byte>, shift: nat, outValue: nat)
    requires forall i | 0 <= i < |zeros| :: zeros[i] == 0
    ensures AccumulateAsWritten(zeros + tail, shift, outValue) == AccumulateAsWritten(tail, shift + 8 * |zeros|, outValue)
  {
    if zeros == [] {
      assert zeros + tail == tail;
    } else {
      AccumulateZeroStep(zeros, tail, shift, outValue);
      AccumulateZerosAsWritten(zeros[1..], tail, shift + 8, outValue);
    }
  }

  lemma AccumulateZeroStep(zeros: seq<Byte>, tail: seq<Byte>, shift: nat, outValue: nat)
    requires zeros != [] && zeros[0] == 0
    ensures AccumulateAsWritten(zeros + tail, shift, outValue) == AccumulateAsWritten(zeros[1..] + tail, shift + 8, outValue)
  {
    assert (zeros + tail)[1..] == zeros[1..] + tail;
    assert CheckedShiftedByteAsWritten(0, shift) == Some(0);
    BitOrZero(outValue);
  }

  lemma {:induction false} LittleEndianZeros(zeros: seq<Byte>)
    requires forall i | 0 <= i < |zeros| :: zeros[i] == 0
    ensures LittleEndian(zeros) == 0
  {
    if zeros != [] {
      LittleEndianZeros(zeros[1..]);
    }
  }

  /// The value bytes of the counterexample encode 2^64, one more than the largest `usize`.
  lemma OversizedCompactValue()
    ensures LittleEndian(OversizedCompact()[1..]) == USIZE_LIMIT
  {
    var zeros: seq<Byte> := [0, 0, 0, 0, 0, 0, 0, 0];
    Pow2Values();
    assert OversizedCompact()[1..] == zeros + [1];
    LittleEndianZeros(zeros);
    LittleEndianAppend(zeros, 1);
  }

  /// The corrected decoder rejects the counterexample.
  lemma OversizedCompactRejected()
    ensures DecodeCompact(OversizedCompact()) == Error
  {
    var bytes := OversizedCompact();
    assert |bytes| == 10 && bytes[0] == 0x17 && bytes[9] == 1;
    assert CompactLength(0x17) == 10;
  }

  /// Counterexample: header 0x17 announces nine value bytes, the last of which is 1, so the
  /// encoded number is 2^64. As written, the ninth byte is multiplied by `1 << 0` and the input
  /// decodes to 1 instead of being rejected.
  lemma OversizedCompactAsWritten()
    ensures DecodeCompactAsWritten(OversizedCompact()) == Done([], 1)
    ensures DecodeCompact(OversizedCompact()) == Error
  {
    var bytes := OversizedCompact();
    assert |bytes| == 10 && bytes[0] == 0x17 && bytes[9] == 1;
    assert CompactLength(0x17) == 10;
    var zeros := bytes[1..9];
    assert forall i | 0 <= i < |zeros| :: zeros[i] == 0;
    assert bytes[1..10] == zeros + [1];
    OversizedAccumulate(zeros);
    assert bytes[10..] == [];
    OversizedCompactRejected();
  }

  /// The as-written loop over eight zero value bytes followed by the byte 1, as in the
  /// counterexample: the zero bytes add nothing, and the ninth is shifted by 64 modulo 64, that
  /// is not at all.
  lemma OversizedAccumulate(zeros: seq<Byte>)
    requires |zeros| == 8 && forall i | 0 <= i < |zeros| :: zeros[i] == 0
    ensures AccumulateAsWritten(zeros + [1], 0, 0) == Some(1)
  {
    AccumulateZerosAsWritten(zeros, [1], 0, 0);
    assert AccumulateAsWritten(zeros + [1], 0, 0) == AccumulateAsWritten([1], 64, 0);
    AccumulateLastByte();
  }

  /// The ninth value byte is shifted by 64, taken modulo 64 as a shift by zero.
  lemma AccumulateLastByte()
    ensures AccumulateAsWritten([1], 64, 0) == Some(1)
  {
    assert CheckedShiftedByteAsWritten(1, 64) == Some(1);
    BitOrZeroLeft(1);
    assert [1][1..] == [];
  }

  /// The input of the counterexample: a mode-0b11 header announcing nine value bytes, eight
  /// zero bytes, then the byte 1.
  function OversizedCompact(): seq<Byte>
  {
    [0x17, 0, 0, 0, 0, 0, 0, 0, 0, 1]
  }

  // ------------------------------------------------------------------ combinators

  /// `nom_bool_decode`: the byte 0 is `false`, the byte 1 is `true`, anything else an error.
  function NomBoolDecode(bytes: seq<Byte>): (r: IResult<bool>)
    ensures r.Done? <==> |bytes| > 0 && bytes[0] < 2
    ensures r.Done? ==> r.rest == bytes[1..] && (r.value <==> bytes[0] == 1)
  {
    if |bytes| > 0 && bytes[0] == 0 then Done(bytes[1..], false)
    else if |bytes| > 0 && bytes[0] == 1 then Done(bytes[1..], true)
    else Error
  }

  /// The SCALE encoding of a boolean, the partner of `NomBoolDecode`.
  function EncodeBool(b: bool): seq<Byte>
  {
    if b then [1] else [0]
  }

  /// `NomBoolDecode` and `EncodeBool` are inverse: every encoding decodes back, and every
  /// successful decode consumed exactly an encoding.
  lemma BoolRoundTrip(bytes: seq<Byte>, b: bool, rest: seq<Byte>)
    ensures NomBoolDecode(EncodeBool(b) + rest) == Done(rest, b)
    ensures NomBoolDecode(bytes) == Done(rest, b) <==> bytes == EncodeBool(b) + rest
  {
    assert (EncodeBool(b) + rest)[1..] == rest;
    if NomBoolDecode(bytes) == Done(rest, b) {
      assert bytes == [bytes[0]] + bytes[1..];
    }
  }

  /// `nom_option_decode(inner)`: the tag 0 is `None`; the tag 1 followed by a successful
  /// `inner` decode is `Some`; anything else is an error.
  function NomOptionDecode<T>(inner: seq<Byte> -> IResult<T>, bytes: seq<Byte>): (r: IResult<Option<T>>)
    ensures r.Done? <==> |bytes| > 0 && (bytes[0] == 0 || (bytes[0] == 1 && inner(bytes[1..]).Done?))
    ensures r.Done? ==> |bytes| > 0 && (r.value.None? <==> bytes[0] == 0)
    ensures r.Done? && r.value.None? ==> r.rest == bytes[1..]
    ensures r.Done? && r.value.Some? ==> inner(bytes[1..]) == Done(r.rest, r.value.value)
  {
    if |bytes| > 0 && bytes[0] == 0 then Done(bytes[1..], None)
    else if |bytes| > 0 && bytes[0] == 1 then
      match inner(bytes[1..])
      case Done(rest, x) => Done(rest, Some(x))
      case Error => Error
    else Error
  }

  /// The SCALE encoding of an `Option`, given the encoding of its content.
  function EncodeOption<T>(encode: T -> seq<Byte>, x: Option<T>): seq<Byte>
  {
    match x
    case None => [0]
    case Some(y) => [1] + encode(y)
  }

  /// An `Option` decodes back from its encoding whenever its content does.
  lemma OptionRoundTrip<T>(inner: seq<Byte> -> IResult<T>, encode: T -> seq<Byte>, x: Option<T>, rest: seq<Byte>)
    requires x.Some? ==> inner(encode(x.value) + rest) == Done(rest, x.value)
    ensures NomOptionDecode(inner, EncodeOption(encode, x) + rest) == Done(rest, x)
  {
    var bytes := EncodeOption(encode, x) + rest;
    if x.Some? {
      assert bytes[1..] == encode(x.value) + rest;
    } else {
      assert bytes[1..] == rest;
    }
  }

  /// `nom_bytes_decode`: a compact length prefix, then exactly that many bytes.
  function NomBytesDecode(bytes: seq<Byte>): (r: IResult<seq<Byte>>)
    ensures r.Done? <==> DecodeCompact(bytes).Done? && DecodeCompact(bytes).value <= |DecodeCompact(bytes).rest|
    ensures r.Done? ==> |r.value| == DecodeCompact(bytes).value
    ensures r.Done? ==> r.value + r.rest == DecodeCompact(bytes).rest
  {
    match DecodeCompact(bytes)
    case Error => Error
    case Done(rest, n) =>
      if |rest| < n then Error
      else
        assert rest[..n] + rest[n..] == rest;
        Done(rest[n..], rest[..n])
  }

  /// The SCALE encoding of a byte vector: its compact length, then its bytes.
  function EncodeBytes(b: seq<Byte>): seq<Byte>
    requires |b| < USIZE_LIMIT
  {
    EncodeCompact(|b|) + b
  }

  /// A byte vector decodes back from its encoding, leaving what follows.
  lemma BytesRoundTrip(b: seq<Byte>, rest: seq<Byte>)
    requires |b| < USIZE_LIMIT
    ensures NomBytesDecode(EncodeBytes(b) + rest) == Done(rest, b)
  {
    CompactRoundTrip(|b|, b + rest);
    assert EncodeBytes(b) + rest == EncodeCompact(|b|) + (b + rest);
    assert (b + rest)[..|b|] == b;
    assert (b + rest)[|b|..] == rest;
  }

  /// `nom_string_decode`: a byte vector that must be valid UTF-8. UTF-8 validation comes from
  /// the standard library and is the parameter `isUtf8`; the string is returned as its bytes.
  function NomStringDecode(isUtf8: seq<Byte> -> bool, bytes: seq<Byte>): (r: IResult<seq<Byte>>)
    ensures r.Done? <==> NomBytesDecode(bytes).Done? && isUtf8(NomBytesDecode(bytes).value)
    ensures r.Done? ==> r == NomBytesDecode(bytes)
  {
    match NomBytesDecode(bytes)
    case Error => Error
    case Done(rest, s) => if isUtf8(s) then Done(rest, s) else Error
  }

  /// A valid UTF-8 string decodes back from its encoding; an invalid one never decodes.
  lemma StringRoundTrip(isUtf8: seq<Byte> -> bool, s: seq<Byte>, rest: seq<Byte>)
    requires |s| < USIZE_LIMIT
    ensures isUtf8(s) ==> NomStringDecode(isUtf8, EncodeBytes(s) + rest) == Done(rest, s)
    ensures !isUtf8(s) ==> NomStringDecode(isUtf8, EncodeBytes(s) + rest) == Error
  {
    BytesRoundTrip(s, rest);
  }
}
