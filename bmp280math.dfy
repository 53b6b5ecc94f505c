/**
 * The integer layer of the BMP280 barometer driver: register address
 * encoding, the little-endian calibration words, the 20-bit raw readings and
 * the fixed-point compensation formulas of section 3.11.3 of the Bosch BMP280
 * datasheet, with the C operators written out (32- and 64-bit wrap-around,
 * arithmetic right shift, division toward zero, the final cast to uint32_t).
 */
module Bmp280Math {
  import opened Wrappers
  import opened CInts
  import opened CBits

  type Byte = x: int | 0 <= x < 256

  const DeviceId: Byte := 0x58
  const ResetValue: Byte := 0xB6
  const RegTempMsb: Byte := 0xFA
  const RegPressMsb: Byte := 0xF7
  const RegConfig: Byte := 0xF5
  const RegCtrlMeas: Byte := 0xF4
  const RegReset: Byte := 0xE0
  const RegId: Byte := 0xD0
  const RegCalib00: Byte := 0x88

  const ModeLowPower: int := 0
  const ModeNormalPower: int := 1
  /** ctrl_meas: temperature x2, pressure x8, normal mode. */
  const CtrlMeasLow: Byte := 0x53
  /** ctrl_meas: temperature x2, pressure x16, normal mode. */
  const CtrlMeasNormal: Byte := 0x57
  /** config: standby 62.5 ms, IIR filter x16, 4-wire SPI. */
  const ConfigLow: Byte := 0x30
  /** config: standby 0.5 ms, IIR filter x16, 4-wire SPI. */
  const ConfigNormal: Byte := 0x10

  /** The raw reading the sensor reports when it has made no measurement (datasheet sections 3.3.1 and 3.3.2). */
  const NoMeasurement: int := 0x80000

  /** The control byte of a register read: bit 7 set, the low seven bits of the register kept. */
  function ReadAddress(reg: Byte): Byte
  {
    0x80 + reg % 0x80
  }

  /** It is what `reg |= 0x80` computes. */
  lemma ReadAddressIsOr(reg: Byte)
    ensures ReadAddress(reg) == BitOr(reg, 0x80)
  {
    assert Pow2(7) == 0x80;
    OrBit(reg, 7);
    if reg < 0x80 {
      assert reg / 0x80 == 0 && reg % 0x80 == reg;
    } else {
      assert reg / 0x80 == 1 && reg % 0x80 == reg - 0x80;
    }
  }

  /** The control byte of a register write: bit 7 cleared, the low seven bits kept. */
  function WriteAddress(reg: Byte): Byte
  {
    reg % 0x80
  }

  /**
   * It is what `reg &= ~0x80` computes on a uint8_t: ~0x80 has every bit but
   * bit 7 set and reg has none above bit 7, so the mask that matters is 0x7F.
   */
  lemma WriteAddressIsAnd(reg: Byte)
    ensures WriteAddress(reg) == BitAnd(reg, 0x7F)
  {
    assert Pow2(7) - 1 == 0x7F;
    AndLowMask(reg, 7);
  }

  /** The two control bytes name the same register and differ only in bit 7. */
  lemma AddressesDifferInBit7(reg: Byte)
    ensures ReadAddress(reg) == WriteAddress(reg) + 0x80
    ensures ReadAddress(reg) / 0x80 == 1 && WriteAddress(reg) / 0x80 == 0
    ensures ReadAddress(WriteAddress(reg)) == ReadAddress(reg) && WriteAddress(ReadAddress(reg)) == WriteAddress(reg)
  {
  }

  /** A 16-bit word from its low and high byte. */
  function Word(lo: Byte, hi: Byte): int
  {
    hi * 256 + lo
  }

  /** It is what `(hi << 8) | lo` computes, and it fits 16 bits. */
  lemma WordIsOr(lo: Byte, hi: Byte)
    ensures Word(lo, hi) == BitOr(Shl(hi, 8), lo)
    ensures 0 <= Word(lo, hi) < Two16
  {
    OrDisjoint(hi, lo, 8);
  }

  /** The trimming parameters: T1 and P1 are uint16_t, the others int16_t. */
  datatype Calibration = Calibration(
    t1: int, t2: int, t3: int,
    p1: int, p2: int, p3: int, p4: int, p5: int, p6: int, p7: int, p8: int, p9: int)
  {
    predicate Valid()
    {
      0 <= t1 < Two16 && 0 <= p1 < Two16 &&
      -0x8000 <= t2 < 0x8000 && -0x8000 <= t3 < 0x8000 &&
      -0x8000 <= p2 < 0x8000 && -0x8000 <= p3 < 0x8000 && -0x8000 <= p4 < 0x8000 && -0x8000 <= p5 < 0x8000 &&
      -0x8000 <= p6 < 0x8000 && -0x8000 <= p7 < 0x8000 && -0x8000 <= p8 < 0x8000 && -0x8000 <= p9 < 0x8000
    }
  }

  /** The words of registers 0x88..0x9F, low byte first; the signed ones reinterpreted as two's complement. */
  function CalibrationOf(buf: seq<Byte>): (c: Calibration)
    requires |buf| >= 24
    ensures c.Valid()
  {
    Calibration(
      Word(buf[0], buf[1]), ToInt16(Word(buf[2], buf[3])), ToInt16(Word(buf[4], buf[5])),
      Word(buf[6], buf[7]), ToInt16(Word(buf[8], buf[9])), ToInt16(Word(buf[10], buf[11])),
      ToInt16(Word(buf[12], buf[13])), ToInt16(Word(buf[14], buf[15])), ToInt16(Word(buf[16], buf[17])),
      ToInt16(Word(buf[18], buf[19])), ToInt16(Word(buf[20], buf[21])), ToInt16(Word(buf[22], buf[23])))
  }

  /** The two register bytes, low byte first, that hold a 16-bit value (signed values as two's complement). */
  function WordBytes(v: int): (b: seq<Byte>)
    requires -0x8000 <= v < Two16
    ensures |b| == 2
  {
    var u := if v < 0 then v + Two16 else v;
    [u % 256, u / 256]
  }

  /** The 24 calibration register bytes that hold a calibration: the reference encoding. */
  function CalibrationBytes(c: Calibration): (b: seq<Byte>)
    requires c.Valid()
    ensures |b| == 24
  {
    WordBytes(c.t1) + WordBytes(c.t2) + WordBytes(c.t3) +
    WordBytes(c.p1) + WordBytes(c.p2) + WordBytes(c.p3) + WordBytes(c.p4) + WordBytes(c.p5) +
    WordBytes(c.p6) + WordBytes(c.p7) + WordBytes(c.p8) + WordBytes(c.p9)
  }

  lemma UnsignedWord(v: int)
    requires 0 <= v < Two16
    ensures Word(WordBytes(v)[0], WordBytes(v)[1]) == v
  {
  }

  lemma SignedWord(v: int)
    requires -0x8000 <= v < 0x8000
    ensures ToInt16(Word(WordBytes(v)[0], WordBytes(v)[1])) == v
  {
  }

  lemma WordOfBytes(lo: Byte, hi: Byte, signed: bool)
    ensures !signed ==> WordBytes(Word(lo, hi)) == [lo, hi]
    ensures signed ==> WordBytes(ToInt16(Word(lo, hi))) == [lo, hi]
  {
  }

  /** Decoding the encoding of a calibration gives it back. */
  lemma CalibrationRoundTrip(c: Calibration)
    requires c.Valid()
    ensures CalibrationOf(CalibrationBytes(c)) == c
  {
    var b := CalibrationBytes(c);
    UnsignedWord(c.t1); SignedWord(c.t2); SignedWord(c.t3);
    UnsignedWord(c.p1); SignedWord(c.p2); SignedWord(c.p3); SignedWord(c.p4); SignedWord(c.p5);
    SignedWord(c.p6); SignedWord(c.p7); SignedWord(c.p8); SignedWord(c.p9);
    assert b[0..2] == WordBytes(c.t1) && b[2..4] == WordBytes(c.t2) && b[4..6] == WordBytes(c.t3);
    assert b[6..8] == WordBytes(c.p1) && b[8..10] == WordBytes(c.p2) && b[10..12] == WordBytes(c.p3);
    assert b[12..14] == WordBytes(c.p4) && b[14..16] == WordBytes(c.p5) && b[16..18] == WordBytes(c.p6);
    assert b[18..20] == WordBytes(c.p7) && b[20..22] == WordBytes(c.p8) && b[22..24] == WordBytes(c.p9);
  }

  /** Every 24 bytes are the encoding of the calibration read from them: nothing is lost in decoding. */
  lemma CalibrationBytesRoundTrip(buf: seq<Byte>)
    requires |buf| == 24
    ensures CalibrationBytes(CalibrationOf(buf)) == buf
  {
    var c := CalibrationOf(buf);
    TemperatureBytes(buf);
    PressureBytes(buf);
    assert buf == buf[0..6] + buf[6..24];
  }

  lemma TemperatureBytes(buf: seq<Byte>)
    requires |buf| >= 24
    ensures var c := CalibrationOf(buf); WordBytes(c.t1) + WordBytes(c.t2) + WordBytes(c.t3) == buf[0..6]
  {
    WordOfBytes(buf[0], buf[1], false); WordOfBytes(buf[2], buf[3], true); WordOfBytes(buf[4], buf[5], true);
    assert buf[0..6] == buf[0..2] + buf[2..4] + buf[4..6];
  }

  lemma PressureBytes(buf: seq<Byte>)
    requires |buf| >= 24
    ensures var c := CalibrationOf(buf);
      WordBytes(c.p1) + WordBytes(c.p2) + WordBytes(c.p3) + WordBytes(c.p4) + WordBytes(c.p5) +
      WordBytes(c.p6) + WordBytes(c.p7) + WordBytes(c.p8) + WordBytes(c.p9) == buf[6..24]
  {
    WordOfBytes(buf[6], buf[7], false); WordOfBytes(buf[8], buf[9], true); WordOfBytes(buf[10], buf[11], true);
    WordOfBytes(buf[12], buf[13], true); WordOfBytes(buf[14], buf[15], true); WordOfBytes(buf[16], buf[17], true);
    WordOfBytes(buf[18], buf[19], true); WordOfBytes(buf[20], buf[21], true); WordOfBytes(buf[22], buf[23], true);
    assert buf[6..24] == buf[6..8] + buf[8..10] + buf[10..12] + buf[12..14] + buf[14..16] +
      buf[16..18] + buf[18..20] + buf[20..22] + buf[22..24];
  }

  /** The raw 20-bit reading from its three register bytes, the last one holding four bits. */
  function Adc(msb: Byte, lsb: Byte, xlsb: Byte): (adc: int)
    ensures 0 <= adc < 0x10_0000
  {
    msb * 4096 + lsb * 16 + xlsb / 16
  }

  /** It is what `(msb << 12) | (lsb << 4) | ((xlsb >> 4) & 0x0F)` computes. */
  lemma AdcIsOr(msb: Byte, lsb: Byte, xlsb: Byte)
    ensures Adc(msb, lsb, xlsb) == BitOr(BitOr(Shl(msb, 12), Shl(lsb, 4)), BitAnd(Sar(xlsb, 4), 0x0F))
  {
    var low := xlsb / 16;
    var word := msb * 256 + lsb;
    var p := Pow2(4);
    assert p == 16;
    LowNibble(xlsb);
    HighBits(msb, lsb);
    OrDisjoint(word, low, 4);
    assert word * p + low == msb * 4096 + lsb * 16 + low;
  }

  lemma LowNibble(xlsb: Byte)
    ensures BitAnd(Sar(xlsb, 4), 0x0F) == xlsb / 16
  {
    var x := xlsb / 16;
    assert Pow2(4) == 16;
    assert Sar(xlsb, 4) == x;
    assert x < 16;
    AndLowMask(x, 4);
    assert x % 16 == x;
  }

  lemma HighBits(msb: Byte, lsb: Byte)
    ensures BitOr(Shl(msb, 12), Shl(lsb, 4)) == (msb * 256 + lsb) * Pow2(4)
  {
    var p4, p12 := Pow2(4), Pow2(12);
    assert p4 == 16;
    assert p12 == 4096;
    assert lsb * p4 < p12;
    OrDisjoint(msb, lsb * p4, 12);
    assert msb * p12 + lsb * p4 == (msb * 256 + lsb) * p4;
  }

  /** Exactly one register content reads as "no measurement": 0x80, 0x00 and an upper nibble of 0 in the last byte. */
  lemma NoMeasurementBytes(msb: Byte, lsb: Byte, xlsb: Byte)
    ensures Adc(msb, lsb, xlsb) == NoMeasurement <==> msb == 0x80 && lsb == 0 && xlsb < 16
  {
  }

  /*
   * The compensation formulas below write each constant shift with its power
   * of two spelled out: `x >> k` on a signed value is `x / 2^k` (Sar: the
   * target shifts arithmetically, which rounds toward minus infinity, as
   * Dafny's `/` does for a positive divisor) and `x << k` is `x * 2^k` (Shl),
   * reduced to the width of the C type wherever the C expression is.
   */

  /** var1 of the temperature formula, `((adc_T >> 3) - (T1 << 1)) * T2 >> 11`, in int32_t. */
  function TemperatureVar1(c: Calibration, adcT: int): int
  {
    Wrap32(Wrap32(adcT / 8 - Wrap32(c.t1 * 2)) * c.t2) / 2048
  }

  /** var2 of the temperature formula, `((d * d) >> 12) * T3 >> 14` with `d = (adc_T >> 4) - T1`, in int32_t. */
  function TemperatureVar2(c: Calibration, adcT: int): int
  {
    var d := Wrap32(adcT / 16 - c.t1);
    Wrap32(Wrap32(d * d) / 4096 * c.t3) / 16384
  }

  /** t_fine from a raw temperature reading: var1 + var2 of the datasheet, in int32_t. */
  function TFine(c: Calibration, adcT: int): int
  {
    Wrap32(TemperatureVar1(c, adcT) + TemperatureVar2(c, adcT))
  }

  /**
   * When the raw reading is near its calibration point (as for every working
   * sensor, the datasheet's example included), no int32_t operation of t_fine
   * overflows: it is the datasheet formula over unbounded integers.
   */
  lemma TFineExact(c: Calibration, adcT: int)
    requires c.Valid() && 0 <= adcT < 0x10_0000
    requires -0x8000 < adcT / 8 - 2 * c.t1 < 0x8000 && -0x2000 < adcT / 16 - c.t1 < 0x2000
    ensures TFine(c, adcT) ==
      ((adcT / 8 - 2 * c.t1) * c.t2) / 2048 + (((adcT / 16 - c.t1) * (adcT / 16 - c.t1)) / 4096 * c.t3) / 16384
  {
    TemperatureVar1Exact(c, adcT);
    TemperatureVar2Exact(c, adcT);
  }

  lemma TemperatureVar1Exact(c: Calibration, adcT: int)
    requires c.Valid() && 0 <= adcT
    requires -0x8000 < adcT / 8 - 2 * c.t1 < 0x8000
    ensures TemperatureVar1(c, adcT) == ((adcT / 8 - 2 * c.t1) * c.t2) / 2048
    ensures -0x10_0000 <= TemperatureVar1(c, adcT) <= 0x10_0000
  {
    var d1 := adcT / 8 - 2 * c.t1;
    assert Wrap32(adcT / 8 - Wrap32(c.t1 * 2)) == d1;
    var x := d1 * c.t2;
    MulBound(d1, c.t2, 0x8000, 0x8000);
    assert Wrap32(x) == x;
    assert TemperatureVar1(c, adcT) == x / 2048;
  }

  lemma TemperatureVar2Exact(c: Calibration, adcT: int)
    requires c.Valid() && 0 <= adcT
    requires -0x2000 < adcT / 16 - c.t1 < 0x2000
    ensures TemperatureVar2(c, adcT) == (((adcT / 16 - c.t1) * (adcT / 16 - c.t1)) / 4096 * c.t3) / 16384
    ensures -0x8000 <= TemperatureVar2(c, adcT) <= 0x8000
  {
    var d := adcT / 16 - c.t1;
    assert Wrap32(adcT / 16 - c.t1) == d;
    MulBound(d, d, 0x2000, 0x2000);
    assert Wrap32(d * d) == d * d;
    var sq := (d * d) / 4096;
    assert 0 <= sq <= 0x4000 by {
      assert d * d >= 0;
    }
    MulBound(sq, c.t3, 0x4000, 0x8000);
    assert Wrap32(sq * c.t3) == sq * c.t3;
    assert TemperatureVar2(c, adcT) == (sq * c.t3) / 16384;
  }

  lemma MulBound(a: int, b: int, x: int, y: int)
    requires -x <= a <= x && -y <= b <= y
    ensures -(x * y) <= a * b <= x * y
  {
    MulMono(Abs(a), Abs(b), x, y);
    SignedProduct(Abs(a), Abs(b));
    assert Abs(a * b) == Abs(a) * Abs(b) by {
      if a < 0 && b >= 0 {
        assert a * b == -(Abs(a) * Abs(b));
      } else if a >= 0 && b < 0 {
        assert a * b == -(Abs(a) * Abs(b));
      } else if a < 0 {
        assert a * b == Abs(a) * Abs(b);
      }
    }
  }

  lemma MulMono(p: nat, q: nat, x: nat, y: nat)
    requires p <= x && q <= y
    ensures p * q <= x * y
  {
    var e: nat, f: nat := x - p, y - q;
    assert x * y == p * q + p * f + e * q + e * f;
  }

  /** The temperature in hundredths of a degree Celsius, `(t_fine * 5 + 128) >> 8` in int32_t. */
  function Temperature(tFine: int): int
  {
    Wrap32(Wrap32(tFine * 5) + 128) / 256
  }

  /** Where no overflow can happen, the temperature is t_fine / 51.2 rounded to nearest, halves up. */
  lemma TemperatureRounds(tFine: int)
    requires -0x1000_0000 <= tFine < 0x1000_0000
    ensures 256 * Temperature(tFine) <= 5 * tFine + 128 < 256 * Temperature(tFine) + 256
  {
  }

  /** ... and it never decreases as t_fine grows. */
  lemma TemperatureMonotonic(a: int, b: int)
    requires -0x1000_0000 <= a <= b < 0x1000_0000
    ensures Temperature(a) <= Temperature(b)
  {
    TemperatureRounds(a);
    TemperatureRounds(b);
  }

  /**
   * The offset term of the pressure formula: var2 after its third update,
   * `var1 * var1 * P6 + ((var1 * P5) << 17) + (P4 << 35)` with
   * `var1 = t_fine - 128000`, in int64_t.
   */
  function PressureOffset(c: Calibration, tFine: int): int
  {
    var var1 := Wrap64(tFine - 128000);
    var var2 := Wrap64(Wrap64(var1 * var1) * c.p6);
    var var2' := Wrap64(var2 + Wrap64(Wrap64(var1 * c.p5) * 0x2_0000));
    Wrap64(var2' + Wrap64(c.p4 * 0x8_0000_0000))
  }

  /**
   * The divisor of the pressure formula: var1 after its second update,
   * `(((1 << 47) + ((var1 * var1 * P3) >> 8) + ((var1 * P2) << 12)) * P1) >> 33`,
   * in int64_t.
   */
  function PressureDivisor(c: Calibration, tFine: int): int
  {
    var var1 := Wrap64(tFine - 128000);
    var var1' := Wrap64(Wrap64(Wrap64(var1 * var1) * c.p3) / 256 + Wrap64(Wrap64(var1 * c.p2) * 0x1000));
    Wrap64(Wrap64(0x8000_0000_0000 + var1') * c.p1) / 0x2_0000_0000
  }

  /** The first estimate of p, `(((p << 31) - var2) * 3125) / var1`, dividing toward zero in int64_t. */
  function PressureEstimate(adcP: int, offset: int, divisor: int): int
    requires divisor != 0
  {
    var p := Wrap64(1048576 - adcP);
    Wrap64(TruncDiv(Wrap64(Wrap64(Wrap64(p * 0x8000_0000) - offset) * 3125), divisor))
  }

  /**
   * The second-order correction of the estimate and the P7 offset,
   * `((p + ((P9 * (p >> 13) * (p >> 13)) >> 25) + ((P8 * p) >> 19)) >> 8) + (P7 << 4)`,
   * in int64_t before the cast.
   */
  function PressureRefined(c: Calibration, p: int): int
  {
    var q := p / 8192;
    var var1 := Wrap64(Wrap64(c.p9 * q) * q) / 0x200_0000;
    var var2 := Wrap64(c.p8 * p) / 0x8_0000;
    Wrap64(Wrap64(Wrap64(p + var1) + var2) / 256 + Wrap64(c.p7 * 16))
  }

  /**
   * The pressure in Pa as an unsigned Q24.8 number (`(uint32_t)p`), or None
   * when the divisor is zero and the driver refuses to divide.
   */
  function Pressure(c: Calibration, tFine: int, adcP: int): (r: Option<int>)
    ensures r.None? <==> PressureDivisor(c, tFine) == 0
    ensures r.Some? ==> 0 <= r.value < Two32
  {
    var divisor := PressureDivisor(c, tFine);
    if divisor == 0 then None
    else Some(ToUint32(PressureRefined(c, PressureEstimate(adcP, PressureOffset(c, tFine), divisor))))
  }

  /** An all-zero P1 (an unprogrammed or misread part) always gives the division guard. */
  lemma NoPressureWithoutP1(c: Calibration, tFine: int, adcP: int)
    requires c.p1 == 0
    ensures Pressure(c, tFine, adcP) == None
  {
  }

  /** The trimming parameters of the worked example in section 8.2 of the BMP280 datasheet. */
  const Example := Calibration(27504, 26435, -1000, 36477, -10685, 3024, 2855, 140, -7, 15500, -14600, 6000)

  /** The worked example: raw temperature 519888 gives t_fine 128422 and 25.08 degrees Celsius. */
  lemma TemperatureExample()
    ensures TFine(Example, 519888) == 128422
    ensures Temperature(128422) == 2508
  {
    TemperatureExampleVar1();
    TemperatureExampleVar2();
    assert 642238 / 256 == 2508;
  }

  lemma TemperatureExampleVar1()
    ensures TemperatureVar1(Example, 519888) == 128793
  {
    assert 519888 / 8 == 64986;
    assert Wrap32(64986 - Wrap32(27504 * 2)) == 9978;
    assert Wrap32(9978 * 26435) == 263768430;
    assert 263768430 / 2048 == 128793;
  }

  lemma TemperatureExampleVar2()
    ensures TemperatureVar2(Example, 519888) == -371
  {
    assert 519888 / 16 == 32493;
    assert Wrap32(4989 * 4989) == 24890121;
    assert 24890121 / 4096 == 6076;
    assert Wrap32(6076 * -1000) == -6076000;
    assert -6076000 / 16384 == -371;
  }

  /** The divisor and the offset of the worked example, at t_fine 128422. */
  lemma DivisorExample()
    ensures PressureDivisor(Example, 128422) == 597560748
  {
    assert Wrap64(128422 - 128000) == 422;
    assert Wrap64(Wrap64(422 * 422) * 3024) / 256 == 2103617;
    assert Wrap64(Wrap64(422 * -10685) * 0x1000) == -18469150720;
    assert Wrap64(2103617 + -18469150720) == -18467047103;
    assert Wrap64(0x8000_0000_0000 + -18467047103) == 140719021308225;
    assert Wrap64(140719021308225 * 36477) == 5133007740260123325;
    assert 5133007740260123325 / 8589934592 == 597560748;
  }

  lemma OffsetExample()
    ensures PressureOffset(Example, 128422) == 98104795527812
  {
    assert Wrap64(128422 - 128000) == 422;
    assert Wrap64(Wrap64(422 * 422) * -7) == -1246588;
    assert Wrap64(Wrap64(422 * 140) * 0x2_0000) == 7743733760;
    assert Wrap64(2855 * 0x8_0000_0000) == 98097053040640;
  }

  lemma EstimateExample()
    ensures PressureEstimate(415148, 98104795527812, 597560748) == 6600644165
  {
    assert Wrap64(633428 * 0x8000_0000) == 1360276272185344;
    assert TruncDiv(3944285864554787500, 597560748) == 6600644165 by {
      DivUnique(3944285864554787500, 597560748, 6600644165, 35552080);
    }
  }

  lemma RefinedExample()
    ensures PressureRefined(Example, 6600644165) == 25767233
  {
    assert 6600644165 / 8192 == 805742;
    assert Wrap64(6000 * 805742) == 4834452000;
    assert Wrap64(4834452000 * 805742) == 3895321023384000;
    assert 3895321023384000 / 33554432 == 116089612;
    assert Wrap64(-14600 * 6600644165) == -96369404809000;
    assert -96369404809000 / 524288 == -183810053;
    assert Wrap64(Wrap64(6600644165 + 116089612) + -183810053) == 6532923724;
    assert 6532923724 / 256 == 25519233;
    assert Wrap64(15500 * 16) == 248000;
  }

  /** The worked example: raw pressure 415148 gives 25767233 / 256 Pa, about 100653.25 Pa. */
  lemma PressureExample()
    ensures Pressure(Example, 128422, 415148) == Some(25767233)
  {
    DivisorExample();
    OffsetExample();
    EstimateExample();
    RefinedExample();
  }
}
