/**
 * The BMP280 driver over SPI: register reads and writes, the soft reset, the
 * mode setting, reading the calibration, and the temperature, pressure and
 * altitude updates of the caller's record. The HAL's SPI peripheral is a
 * scripted bus: the answer (HAL_OK or not) of each coming call, and the bytes
 * the sensor will clock out.
 */
module Bmp280Driver {
  import opened CInts
  import opened Bmp280Math

  /** What is left of the script after k calls; calls past its end consume nothing. */
  function After(o: seq<bool>, k: nat): (r: seq<bool>)
    ensures |r| == if k <= |o| then |o| - k else 0
  {
    if k <= |o| then o[k..] else []
  }

  /** The next n calls all return HAL_OK. */
  predicate AllOk(o: seq<bool>, n: nat)
  {
    n <= |o| && forall i :: 0 <= i < n ==> o[i]
  }

  /** How many of n calls are made when the calls stop at the first one that fails. */
  function Attempts(o: seq<bool>, n: nat): (k: nat)
    ensures k <= n
  {
    if n == 0 then 0
    else if o == [] || !o[0] then 1
    else 1 + Attempts(o[1..], n - 1)
  }

  /** A chain of calls that all succeed makes every call; one that fails stops right after the first failure. */
  lemma {:induction false} AttemptsStop(o: seq<bool>, n: nat)
    ensures AllOk(o, n) ==> Attempts(o, n) == n
    ensures !AllOk(o, n) ==> exists i :: 0 <= i < n && Attempts(o, n) == i + 1 && AllOk(o, i) && (i == |o| || !o[i])
    decreases n
  {
    if n > 0 && o != [] && o[0] {
      AttemptsStop(o[1..], n - 1);
      if !AllOk(o, n) {
        var i :| 0 <= i < n - 1 && Attempts(o[1..], n - 1) == i + 1 && AllOk(o[1..], i) && (i == |o[1..]| || !o[1..][i]);
        assert AllOk(o, i + 1) by {
          forall j | 0 <= j < i + 1 ensures o[j] {
            if j > 0 {
              assert o[j] == o[1..][j - 1];
            }
          }
        }
        assert i + 1 == |o| || !o[i + 1];
      }
    } else if n > 0 {
      assert Attempts(o, n) == 0 + 1 && AllOk(o, 0);
    }
  }

  /** Three calls that stop at the first failure, one by one. */
  lemma AttemptsOfThree(o: seq<bool>)
    ensures !AllOk(o, 1) ==> Attempts(o, 3) == 1 && !AllOk(o, 3)
    ensures AllOk(o, 1) && !AllOk(After(o, 1), 1) ==> Attempts(o, 3) == 2 && !AllOk(o, 3)
    ensures AllOk(o, 1) && AllOk(After(o, 1), 1) ==>
      Attempts(o, 3) == 3 && After(After(o, 1), 1) == After(o, 2) &&
      (AllOk(o, 3) <==> AllOk(After(o, 2), 1))
  {
    if AllOk(o, 1) && AllOk(After(o, 1), 1) {
      assert o[1..][0] == o[1] && o[1..][1..] == o[2..];
      assert Attempts(o[2..], 1) == 1;
      assert Attempts(o[1..], 2) == 2;
      if AllOk(After(o, 2), 1) {
        assert o[2..][0] == o[2];
      }
    }
  }

  /** The SPI peripheral and the sensor behind it, as seen from the driver. */
  class Spi {
    /** Every frame handed to HAL_SPI_Transmit, in order. */
    var sent: seq<seq<Byte>>
    /** Whether each coming HAL call returns HAL_OK. */
    var outcomes: seq<bool>
    /** The bytes the sensor will clock out on coming receives. */
    var incoming: seq<Byte>
    /** The chip-select line is driven low. */
    var selected: bool

    constructor(outcomes: seq<bool>, incoming: seq<Byte>)
      ensures this.sent == [] && this.outcomes == outcomes && this.incoming == incoming && !selected
    {
      this.sent := [];
      this.outcomes := outcomes;
      this.incoming := incoming;
      this.selected := false;
    }

    /** HAL_GPIO_WritePin on the chip-select pin. */
    method Select(low: bool)
      modifies this
      ensures selected == low
      ensures sent == old(sent) && outcomes == old(outcomes) && incoming == old(incoming)
    {
      selected := low;
    }

    /** HAL_SPI_Transmit. */
    method Transmit(frame: seq<Byte>) returns (ok: bool)
      modifies this
      ensures ok == AllOk(old(outcomes), 1)
      ensures sent == old(sent) + [frame] && outcomes == After(old(outcomes), 1)
      ensures incoming == old(incoming) && selected == old(selected)
    {
      ok := AllOk(outcomes, 1);
      sent := sent + [frame];
      outcomes := After(outcomes, 1);
    }

    /** HAL_SPI_Receive: it times out when the sensor has fewer than size bytes to give. */
    method Receive(buf: array<Byte>, size: nat) returns (ok: bool)
      requires size <= buf.Length
      modifies this, buf
      ensures ok == (AllOk(old(outcomes), 1) && size <= |old(incoming)|)
      ensures outcomes == After(old(outcomes), 1) && sent == old(sent) && selected == old(selected)
      ensures ok ==> buf[..size] == old(incoming)[..size] && buf[size..] == old(buf[size..]) && incoming == old(incoming)[size..]
      ensures !ok ==> buf[..] == old(buf[..]) && incoming == old(incoming)
    {
      ok := AllOk(outcomes, 1) && size <= |incoming|;
      outcomes := After(outcomes, 1);
      if ok {
        forall i | 0 <= i < size {
          buf[i] := incoming[i];
        }
        incoming := incoming[size..];
      }
    }
  }

  /** The caller's record: the last readings, the reference pressure and the calibration. */
  class Bmp280 {
    /** press_Pa, as an exact real. */
    var pressure: real
    var pressureRef: real
    /** temp_C, as an exact real. */
    var temperature: real
    /** alt_m, as the pressure and reference pressure it was last computed from. */
    var altitudeFrom: (real, real)
    var tFine: int
    var calib: Calibration

    constructor()
      ensures pressure == 0.0 && pressureRef == 0.0 && temperature == 0.0 && altitudeFrom == (0.0, 0.0) && tFine == 0
      ensures calib == Calibration(0, 0, 0, 0, 0, 0, 0, 0, 0, 0, 0, 0)
    {
      pressure, pressureRef, temperature, altitudeFrom, tFine := 0.0, 0.0, 0.0, (0.0, 0.0), 0;
      calib := Calibration(0, 0, 0, 0, 0, 0, 0, 0, 0, 0, 0, 0);
    }
  }

  /** A register read succeeds: both HAL calls return HAL_OK and the sensor has the bytes. */
  predicate ReadOk(o: seq<bool>, incoming: seq<Byte>, size: nat)
  {
    AllOk(o, 2) && size <= |incoming|
  }

  /** The raw reading in the first three bytes the sensor clocks out. */
  function RawOf(incoming: seq<Byte>): int
    requires |incoming| >= 3
  {
    Adc(incoming[0], incoming[1], incoming[2])
  }

  /** A measurement read succeeds and the sensor reports a measurement. */
  predicate Measured(o: seq<bool>, incoming: seq<Byte>)
  {
    ReadOk(o, incoming, 3) && RawOf(incoming) != NoMeasurement
  }

  /** The three writes of SetMode: soft reset, ctrl_meas, config. */
  function ModeFrames(mode: Byte): seq<seq<Byte>>
  {
    [[WriteAddress(RegReset), ResetValue],
     [WriteAddress(RegCtrlMeas), if mode == ModeLowPower then CtrlMeasLow else CtrlMeasNormal],
     [WriteAddress(RegConfig), if mode == ModeLowPower then ConfigLow else ConfigNormal]]
  }

  /** The frames on the wire: 0x60 0xB6, then 0x74 and 0x75 with the mode's settings. */
  lemma ModeFrameBytes(mode: Byte)
    ensures mode == 0 ==> ModeFrames(mode) == [[0x60, 0xB6], [0x74, 0x53], [0x75, 0x30]]
    ensures mode != 0 ==> ModeFrames(mode) == [[0x60, 0xB6], [0x74, 0x57], [0x75, 0x10]]
  {
  }

  /** The measurement registers are read with the control bytes 0xFA and 0xF7: bit 7 is already set. */
  lemma MeasurementAddresses()
    ensures ReadAddress(RegTempMsb) == 0xFA && ReadAddress(RegPressMsb) == 0xF7
    ensures ReadAddress(RegCalib00) == 0x88 && ReadAddress(RegId) == 0xD0
  {
  }

  /** The driver's globals: the SPI handle and the 26-byte receive buffer. */
  class Driver {
    const spi: Spi
    const rx: array<Byte>

    predicate Valid()
    {
      rx.Length == 26
    }

    constructor(spi: Spi)
      ensures Valid() && this.spi == spi && fresh(rx)
    {
      this.spi := spi;
      rx := new Byte[26](_ => 0);
    }

    /** BMP280_Read: the address with bit 7 set, then size bytes into buf; chip select stays low on an error. */
    method Read(reg: Byte, buf: array<Byte>, size: nat) returns (rc: int)
      requires size <= buf.Length
      modifies spi, buf
      ensures rc == 0 || rc == -1
      ensures rc == 0 <==> ReadOk(old(spi.outcomes), old(spi.incoming), size)
      ensures spi.sent == old(spi.sent) + [[ReadAddress(reg)]]
      ensures spi.outcomes == After(old(spi.outcomes), Attempts(old(spi.outcomes), 2))
      ensures rc == 0 ==>
        buf[..size] == old(spi.incoming)[..size] && buf[size..] == old(buf[size..]) &&
        spi.incoming == old(spi.incoming)[size..] && !spi.selected
      ensures rc != 0 ==> buf[..] == old(buf[..]) && spi.incoming == old(spi.incoming) && spi.selected
    {
      spi.Select(true);
      var ok := spi.Transmit([ReadAddress(reg)]);
      if !ok {
        return -1;
      }
      ok := spi.Receive(buf, size);
      if !ok {
        return -1;
      }
      spi.Select(false);
      return 0;
    }

    /** BMP280_Write: the address with bit 7 cleared and the value, in one frame. */
    method Write(reg: Byte, value: Byte) returns (rc: int)
      modifies spi
      ensures rc == 0 || rc == -1
      ensures rc == 0 <==> AllOk(old(spi.outcomes), 1)
      ensures spi.sent == old(spi.sent) + [[WriteAddress(reg), value]]
      ensures spi.outcomes == After(old(spi.outcomes), 1) && spi.incoming == old(spi.incoming)
      ensures spi.selected == (rc != 0)
    {
      spi.Select(true);
      var ok := spi.Transmit([WriteAddress(reg), value]);
      if !ok {
        return -1;
      }
      spi.Select(false);
      return 0;
    }

    /** BMP280_SoftReset: 0xB6 into the reset register. */
    method SoftReset() returns (rc: int)
      modifies spi
      ensures rc == 0 || rc == -1
      ensures rc == 0 <==> AllOk(old(spi.outcomes), 1)
      ensures spi.sent == old(spi.sent) + [[WriteAddress(RegReset), ResetValue]]
      ensures spi.outcomes == After(old(spi.outcomes), 1) && spi.incoming == old(spi.incoming)
      ensures spi.selected == (rc != 0)
    {
      rc := Write(RegReset, ResetValue);
      if rc != 0 {
        return -1;
      }
      return 0;
    }

    /**
     * BMP280_SetMode: reset, then ctrl_meas, then config; the writes stop at
     * the first failure, and the result is 0 only when all three succeed.
     */
    method SetMode(mode: Byte) returns (rc: int)
      modifies spi
      ensures rc == 0 || rc == -1
      ensures rc == 0 <==> AllOk(old(spi.outcomes), 3)
      ensures spi.sent == old(spi.sent) + ModeFrames(mode)[..Attempts(old(spi.outcomes), 3)]
      ensures spi.outcomes == After(old(spi.outcomes), Attempts(old(spi.outcomes), 3))
      ensures spi.incoming == old(spi.incoming)
      ensures spi.selected == (rc != 0)
    {
      ghost var o := spi.outcomes;
      AttemptsOfThree(o);
      rc := SoftReset();
      if rc != 0 {
        return -1;
      }
      var ctrlMeas, config := CtrlMeasNormal, ConfigNormal;
      if mode == ModeLowPower {
        ctrlMeas, config := CtrlMeasLow, ConfigLow;
      }
      rc := Write(RegCtrlMeas, ctrlMeas);
      if rc != 0 {
        return -1;
      }
      rc := Write(RegConfig, config);
      if rc != 0 {
        return -1;
      }
      assert ModeFrames(mode)[..3] == ModeFrames(mode);
      return 0;
    }

    /** BMP280_ReadCalibrationData: 26 bytes from 0x88; the first 24 are the calibration words. */
    method ReadCalibrationData(data: Bmp280) returns (rc: int)
      requires Valid()
      modifies spi, rx, data`calib
      ensures rc == 0 || rc == -1
      ensures rc == 0 <==> ReadOk(old(spi.outcomes), old(spi.incoming), 26)
      ensures spi.sent == old(spi.sent) + [[ReadAddress(RegCalib00)]]
      ensures rc == 0 ==> rx[..] == old(spi.incoming)[..26] && data.calib == CalibrationOf(old(spi.incoming)[..24])
      ensures rc != 0 ==> data.calib == old(data.calib)
    {
      rc := Read(RegCalib00, rx, 26);
      if rc != 0 {
        return -1;
      }
      ghost var bytes := old(spi.incoming)[..26];
      assert rx[..] == bytes by {
        assert rx[..] == rx[..26];
      }
      assert rx[..24] == bytes[..24];
      data.calib := CalibrationOf(rx[..24]);
      return 0;
    }

    /**
     * BMP280_ReadTemperature: t_fine and the temperature from the raw
     * reading; nothing in the record changes when the read fails or the
     * sensor has no measurement.
     */
    method ReadTemperature(data: Bmp280) returns (rc: int)
      requires Valid()
      modifies spi, rx, data`tFine, data`temperature
      ensures rc == 0 || rc == -1
      ensures rc == 0 <==> Measured(old(spi.outcomes), old(spi.incoming))
      ensures spi.sent == old(spi.sent) + [[ReadAddress(RegTempMsb)]]
      ensures ReadOk(old(spi.outcomes), old(spi.incoming), 3) ==>
        spi.outcomes == old(spi.outcomes)[2..] && spi.incoming == old(spi.incoming)[3..]
      ensures rc == 0 ==>
        data.tFine == TFine(data.calib, RawOf(old(spi.incoming))) &&
        data.temperature == Temperature(data.tFine) as real / 100.0
      ensures rc != 0 ==> data.tFine == old(data.tFine) && data.temperature == old(data.temperature)
    {
      rc := Read(RegTempMsb, rx, 3);
      if rc != 0 {
        return -1;
      }
      var adcT := Adc(rx[0], rx[1], rx[2]);
      assert adcT == RawOf(old(spi.incoming)) by {
        assert rx[..3] == old(spi.incoming)[..3];
      }
      if adcT == NoMeasurement {
        return -1;
      }
      var var1 := TemperatureVar1(data.calib, adcT);
      var var2 := TemperatureVar2(data.calib, adcT);
      var tFine := Wrap32(var1 + var2);
      var t := Temperature(tFine);
      data.tFine := tFine;
      data.temperature := t as real / 100.0;
      return 0;
    }

    /**
     * BMP280_ReadPressure: the pressure from the raw reading and the stored
     * t_fine; nothing in the record changes when the read fails, the sensor
     * has no measurement or the divisor is zero.
     */
    method ReadPressure(data: Bmp280) returns (rc: int)
      requires Valid()
      modifies spi, rx, data`pressure
      ensures rc == 0 || rc == -1
      ensures rc == 0 <==> Measured(old(spi.outcomes), old(spi.incoming)) && PressureDivisor(data.calib, data.tFine) != 0
      ensures spi.sent == old(spi.sent) + [[ReadAddress(RegPressMsb)]]
      ensures rc == 0 ==> data.pressure == Pressure(data.calib, data.tFine, RawOf(old(spi.incoming))).value as real / 256.0
      ensures rc != 0 ==> data.pressure == old(data.pressure)
    {
      rc := Read(RegPressMsb, rx, 3);
      if rc != 0 {
        return -1;
      }
      var adcP := Adc(rx[0], rx[1], rx[2]);
      assert adcP == RawOf(old(spi.incoming)) by {
        assert rx[..3] == old(spi.incoming)[..3];
      }
      if adcP == NoMeasurement {
        return -1;
      }
      var c := data.calib;
      var var2 := PressureOffset(c, data.tFine);
      var var1 := PressureDivisor(c, data.tFine);
      if var1 == 0 {
        return -1;
      }
      var p := PressureEstimate(adcP, var2, var1);
      p := PressureRefined(c, p);
      p := ToUint32(p);
      data.pressure := p as real / 256.0;
      return 0;
    }

    /**
     * BMP280_ReadAltitude: temperature first, then pressure, stopping at the
     * first failure; the altitude is recomputed only when both succeed.
     */
    method ReadAltitude(data: Bmp280) returns (rc: int)
      requires Valid()
      modifies spi, rx, data`tFine, data`temperature, data`pressure, data`altitudeFrom
      ensures rc == 0 || rc == -1
      ensures !Measured(old(spi.outcomes), old(spi.incoming)) ==>
        rc == -1 && spi.sent == old(spi.sent) + [[ReadAddress(RegTempMsb)]] &&
        data.tFine == old(data.tFine) && data.temperature == old(data.temperature) &&
        data.pressure == old(data.pressure)
      ensures Measured(old(spi.outcomes), old(spi.incoming)) ==>
        spi.sent == old(spi.sent) + [[ReadAddress(RegTempMsb)], [ReadAddress(RegPressMsb)]] &&
        data.tFine == TFine(data.calib, RawOf(old(spi.incoming))) &&
        data.temperature == Temperature(data.tFine) as real / 100.0 &&
        (rc == 0 <==>
          Measured(old(spi.outcomes)[2..], old(spi.incoming)[3..]) &&
          PressureDivisor(data.calib, data.tFine) != 0)
      ensures rc == 0 ==>
        data.altitudeFrom == (data.pressure, data.pressureRef) &&
        data.pressure == Pressure(data.calib, data.tFine, RawOf(old(spi.incoming)[3..])).value as real / 256.0
      ensures rc != 0 ==> data.altitudeFrom == old(data.altitudeFrom) && data.pressure == old(data.pressure)
    {
      ghost var o, incoming := spi.outcomes, spi.incoming;
      rc := ReadTemperature(data);
      if rc != 0 {
        return -1;
      }
      assert spi.outcomes == o[2..] && spi.incoming == incoming[3..];
      rc := ReadPressure(data);
      if rc != 0 {
        return -1;
      }
      data.altitudeFrom := (data.pressure, data.pressureRef);
      return 0;
    }
  }
}
