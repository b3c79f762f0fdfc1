/** The QMI8658A six-axis IMU driver: register-level configuration of the
    accelerometer and gyroscope and the raw 16-bit samples. The chip is
    modelled by its 256-byte register file; every bus access is logged. */
module Qmi8658a {
  import opened Registers

  const WhoAmI: byte := 0x00
  const DeviceId: byte := 0x05
  const Ctrl1: byte := 0x02
  const Ctrl2: byte := 0x03
  const Ctrl3: byte := 0x04
  const Ctrl7: byte := 0x08
  const Ctrl9: byte := 0x0A
  const ResetReg: byte := 0x60
  const StatusInt: byte := 0x2D
  const TempL: byte := 0x33
  const AxL: byte := 0x35
  const GxL: byte := 0x3B

  /** The soft-reset command written to RESET. */
  const ResetCommand: byte := 0xB0
  /** The gyroscope calibration command written to CTRL9. */
  const CalibrateCommand: byte := 0xA2

  /** `begin`'s configuration: address auto-increment, accelerometer and
      gyroscope output rates and full scales, all sensors and sync mode. */
  const BeginCtrl1: byte := 0x40
  const BeginCtrl2: byte := 0x04
  const BeginCtrl3: byte := 0x04
  const BeginCtrl7: byte := 0x83

  /** `qmi8658a_acc_range_t`: 2, 4, 8 or 16 g. */
  type AccRange = r: byte | r < 4
  /** `qmi8658a_gyro_range_t`: 16 to 2048 dps in powers of two. */
  type GyroRange = r: byte | r < 8

  const Acc2G: AccRange := 0
  const Gyro16: GyroRange := 0
  const Gyro256: GyroRange := 4

  /** Bits 4..6 of CTRL2 or CTRL3: the full-scale range. */
  function RangeField(b: byte): byte
  {
    (b >> 4) & 7
  }

  /** `(ctrl & 0x8F) | (range << 4)`: the range field replaced, every other
      bit kept. */
  function WithRange(b: byte, range: byte): (r: byte)
    requires range < 8
    ensures RangeField(r) == range
    ensures r & 0x8F == b & 0x8F
  {
    (b & 0x8F) | (range << 4)
  }

  /** A 16-bit pattern read as two's complement. */
  function Signed16(u: int): (r: int)
    requires 0 <= u < 0x1_0000
    ensures -0x8000 <= r < 0x8000
    ensures r == u || r == u - 0x1_0000
    ensures r < 0 <==> u >= 0x8000
  {
    if u >= 0x8000 then u - 0x1_0000 else u
  }

  /** The 16-bit pattern of a two's-complement value. */
  function Unsigned16(v: int): (u: int)
    requires -0x8000 <= v < 0x8000
    ensures 0 <= u < 0x1_0000 && Signed16(u) == v
  {
    if v < 0 then v + 0x1_0000 else v
  }

  /** Two bytes, as numbers, combined little-endian into a 16-bit
      two's-complement value. */
  function Combine(low: int, high: int): (r: int)
    requires 0 <= low < 0x100 && 0 <= high < 0x100
    ensures -0x8000 <= r < 0x8000
    ensures r < 0 <==> high >= 0x80
  {
    Signed16(high * 0x100 + low)
  }

  /** `combineBytes(low, high)`: the two bytes as a little-endian 16-bit
      two's-complement value, negative exactly when the high byte's top
      bit is set. */
  function CombineBytes(low: byte, high: byte): (r: int)
    ensures -0x8000 <= r < 0x8000
    ensures r < 0 <==> high as int >= 0x80
  {
    Combine(low as int, high as int)
  }

  /** The low byte of a 16-bit value. */
  function LowByte(v: int): (b: int)
    requires -0x8000 <= v < 0x8000
    ensures 0 <= b < 0x100
  {
    Unsigned16(v) % 0x100
  }

  /** The high byte of a 16-bit value. */
  function HighByte(v: int): (b: int)
    requires -0x8000 <= v < 0x8000
    ensures 0 <= b < 0x100
  {
    Unsigned16(v) / 0x100
  }

  /** Splitting a 16-bit value into bytes and combining them gives it back. */
  lemma CombineSplit(v: int)
    requires -0x8000 <= v < 0x8000
    ensures Combine(LowByte(v), HighByte(v)) == v
  {
    var u := Unsigned16(v);
    assert HighByte(v) * 0x100 + LowByte(v) == u;
  }

  /** Combining two bytes and splitting the result gives them back. */
  lemma SplitCombine(low: int, high: int)
    requires 0 <= low < 0x100 && 0 <= high < 0x100
    ensures LowByte(Combine(low, high)) == low && HighByte(Combine(low, high)) == high
  {
    var u := high * 0x100 + low;
    assert Unsigned16(Combine(low, high)) == u;
  }

  /** CTRL3 as `begin` was meant to write it: the same output rate with the
      ±256 dps range the driver assumes. */
  function IntendedCtrl3(): (v: byte)
    ensures RangeField(v) == Gyro256
    ensures v & 0x8F == BeginCtrl3 & 0x8F
  {
    WithRange(BeginCtrl3, Gyro256)
  }

  /** The register `j` places after `reg`, the chip's address counter
      wrapping past 0xFF. */
  function At(regs: seq<byte>, reg: byte, j: nat): byte
    requires |regs| == 256
  {
    regs[(reg as int + j) % 256]
  }

  /** A driver constructed and begun on a chip that answers with the
      device id: the chip's accelerometer range agrees with the one the
      driver assumes, but its gyroscope range is ±16 dps while the driver
      converts samples as ±256 dps. */
  method Startup(chip: seq<byte>) returns (imu: Imu, ok: bool)
    requires |chip| == 256 && chip[WhoAmI as int] == DeviceId
    ensures ok && imu.Valid()
    ensures RangeField(imu.Reg(Ctrl2)) == imu.accRange
    ensures RangeField(imu.Reg(Ctrl3)) == Gyro16 && imu.gyroRange == Gyro256
  {
    imu := new Imu(chip);
    ok := imu.Begin();
  }

  class Imu {
    /** The chip's register file. */
    var regs: seq<byte>
    /** Every bus access the driver made, in order. */
    var log: seq<Access>
    /** `_acc_range`: the accelerometer range the driver assumes. */
    var accRange: AccRange
    /** `_gyro_range`: the gyroscope range the driver assumes. */
    var gyroRange: GyroRange

    ghost predicate Valid()
      reads this
    {
      |regs| == 256
    }

    /** The register `reg` as the chip holds it. */
    function Reg(reg: byte): byte
      reads this
      requires Valid()
    {
      regs[reg as int]
    }

    /** `QMI8658A()`: ±2 g and ±256 dps assumed, no bus traffic. */
    constructor (chip: seq<byte>)
      requires |chip| == 256
      ensures Valid() && regs == chip && log == []
      ensures accRange == Acc2G && gyroRange == Gyro256
    {
      regs := chip;
      log := [];
      accRange := Acc2G;
      gyroRange := Gyro256;
    }

    /** `readRegister`: one register's value. */
    method ReadRegister(reg: byte) returns (value: byte)
      requires Valid()
      modifies this`log
      ensures value == Reg(reg) && log == old(log) + [Read(reg)]
    {
      log := log + [Read(reg)];
      value := regs[reg as int];
    }

    /** `writeRegister`: the register takes the value. */
    method WriteRegister(reg: byte, value: byte)
      requires Valid()
      modifies this`regs, this`log
      ensures Valid() && regs == old(regs)[reg as int := value]
      ensures log == old(log) + [Write(reg, value)]
    {
      log := log + [Write(reg, value)];
      regs := regs[reg as int := value];
    }

    /** `readRegisters`: `length` consecutive registers from `reg` into
        `buffer`, the rest of the buffer untouched. */
    method ReadRegisters(reg: byte, buffer: array<byte>, length: nat)
      requires Valid() && length <= buffer.Length
      modifies buffer, this`log
      ensures forall j :: 0 <= j < length ==> buffer[j] == At(regs, reg, j)
      ensures forall j :: length <= j < buffer.Length ==> buffer[j] == old(buffer[j])
      ensures log == old(log) + [ReadBlock(reg, length)]
    {
      log := log + [ReadBlock(reg, length)];
      var i := 0;
      while i < length
        invariant 0 <= i <= length && log == old(log) + [ReadBlock(reg, length)]
        invariant forall j :: 0 <= j < i ==> buffer[j] == At(regs, reg, j)
        invariant forall j :: i <= j < buffer.Length ==> buffer[j] == old(buffer[j])
      {
        buffer[i] := At(regs, reg, i);
        i := i + 1;
      }
    }

    /** `isConnected`: WHO_AM_I reads the device id. */
    method IsConnected() returns (ok: bool)
      requires Valid()
      modifies this`log
      ensures ok == (Reg(WhoAmI) == DeviceId) && log == old(log) + [Read(WhoAmI)]
    {
      var id := ReadRegister(WhoAmI);
      ok := id == DeviceId;
    }

    /** `reset`: the soft-reset command. */
    method Reset()
      requires Valid()
      modifies this`regs, this`log
      ensures Valid() && regs == old(regs)[ResetReg as int := ResetCommand]
      ensures log == old(log) + [Write(ResetReg, ResetCommand)]
    {
      WriteRegister(ResetReg, ResetCommand);
    }

    /** `begin`: on an id mismatch nothing but the id read happens;
        otherwise a soft reset and the four configuration writes, which
        select ±2 g and ±16 dps. */
    method Begin() returns (ok: bool)
      requires Valid()
      modifies this`regs, this`log
      ensures Valid() && ok == (old(Reg(WhoAmI)) == DeviceId)
      ensures log == old(log) + [Read(WhoAmI)]
        + (if ok then [Write(ResetReg, ResetCommand), Write(Ctrl1, BeginCtrl1), Write(Ctrl2, BeginCtrl2),
                       Write(Ctrl3, BeginCtrl3), Write(Ctrl7, BeginCtrl7)] else [])
      ensures regs == if ok then old(regs)[ResetReg as int := ResetCommand][Ctrl1 as int := BeginCtrl1]
                                   [Ctrl2 as int := BeginCtrl2][Ctrl3 as int := BeginCtrl3][Ctrl7 as int := BeginCtrl7]
                      else old(regs)
      ensures ok ==> RangeField(Reg(Ctrl2)) == Acc2G && RangeField(Reg(Ctrl3)) == Gyro16
    {
      ok := IsConnected();
      if !ok {
        return;
      }
      Reset();
      WriteRegister(Ctrl1, BeginCtrl1);
      WriteRegister(Ctrl2, BeginCtrl2);
      WriteRegister(Ctrl3, BeginCtrl3);
      WriteRegister(Ctrl7, BeginCtrl7);
      assert Reg(Ctrl2) == BeginCtrl2 && Reg(Ctrl3) == BeginCtrl3;
      assert RangeField(BeginCtrl2) == 0 && RangeField(BeginCtrl3) == 0;
    }

    /** Read-modify-write of one bit of CTRL7. */
    method SetCtrl7Bit(bit: byte, on: bool)
      requires Valid() && bit < 8
      modifies this`regs, this`log
      ensures Valid() && regs == old(regs)[Ctrl7 as int := SetBit(old(Reg(Ctrl7)), bit, on)]
      ensures log == old(log) + [Read(Ctrl7), Write(Ctrl7, SetBit(old(Reg(Ctrl7)), bit, on))]
    {
      var ctrl7 := ReadRegister(Ctrl7);
      ctrl7 := SetBit(ctrl7, bit, on);
      WriteRegister(Ctrl7, ctrl7);
    }

    /** `enableAccelerometer`: bit 0 of CTRL7, every other bit kept. */
    method EnableAccelerometer(enable: bool)
      requires Valid()
      modifies this`regs, this`log
      ensures Valid() && regs == old(regs)[Ctrl7 as int := SetBit(old(Reg(Ctrl7)), 0, enable)]
      ensures Bit(Reg(Ctrl7), 0) == enable && Reg(Ctrl7) & !Mask(0) == old(Reg(Ctrl7)) & !Mask(0)
      ensures log == old(log) + [Read(Ctrl7), Write(Ctrl7, Reg(Ctrl7))]
    {
      SetCtrl7Bit(0, enable);
    }

    /** `enableGyroscope`: bit 1 of CTRL7, every other bit kept. */
    method EnableGyroscope(enable: bool)
      requires Valid()
      modifies this`regs, this`log
      ensures Valid() && regs == old(regs)[Ctrl7 as int := SetBit(old(Reg(Ctrl7)), 1, enable)]
      ensures Bit(Reg(Ctrl7), 1) == enable && Reg(Ctrl7) & !Mask(1) == old(Reg(Ctrl7)) & !Mask(1)
      ensures log == old(log) + [Read(Ctrl7), Write(Ctrl7, Reg(Ctrl7))]
    {
      SetCtrl7Bit(1, enable);
    }

    /** `enableSyncMode`: bit 7 of CTRL7, every other bit kept. */
    method EnableSyncMode(enable: bool)
      requires Valid()
      modifies this`regs, this`log
      ensures Valid() && regs == old(regs)[Ctrl7 as int := SetBit(old(Reg(Ctrl7)), 7, enable)]
      ensures Bit(Reg(Ctrl7), 7) == enable && Reg(Ctrl7) & !Mask(7) == old(Reg(Ctrl7)) & !Mask(7)
      ensures log == old(log) + [Read(Ctrl7), Write(Ctrl7, Reg(Ctrl7))]
    {
      SetCtrl7Bit(7, enable);
    }

    /** `setAccelerometerRange`: records the range and writes it into bits
        4..6 of CTRL2, every other bit kept. */
    method SetAccelerometerRange(range: AccRange)
      requires Valid()
      modifies this`accRange, this`regs, this`log
      ensures Valid() && accRange == range
      ensures regs == old(regs)[Ctrl2 as int := WithRange(old(Reg(Ctrl2)), range)]
      ensures RangeField(Reg(Ctrl2)) == accRange
      ensures log == old(log) + [Read(Ctrl2), Write(Ctrl2, Reg(Ctrl2))]
    {
      accRange := range;
      var ctrl2 := ReadRegister(Ctrl2);
      ctrl2 := WithRange(ctrl2, range);
      WriteRegister(Ctrl2, ctrl2);
    }

    /** `setGyroscopeRange`: records the range and writes it into bits 4..6
        of CTRL3, every other bit kept. */
    method SetGyroscopeRange(range: GyroRange)
      requires Valid()
      modifies this`gyroRange, this`regs, this`log
      ensures Valid() && gyroRange == range
      ensures regs == old(regs)[Ctrl3 as int := WithRange(old(Reg(Ctrl3)), range)]
      ensures RangeField(Reg(Ctrl3)) == gyroRange
      ensures log == old(log) + [Read(Ctrl3), Write(Ctrl3, Reg(Ctrl3))]
    {
      gyroRange := range;
      var ctrl3 := ReadRegister(Ctrl3);
      ctrl3 := WithRange(ctrl3, range);
      WriteRegister(Ctrl3, ctrl3);
    }

    /** `isDataReady`: bit 0 of STATUSINT. */
    method IsDataReady() returns (ready: bool)
      requires Valid()
      modifies this`log
      ensures ready == Bit(Reg(StatusInt), 0) && log == old(log) + [Read(StatusInt)]
    {
      var status := ReadRegister(StatusInt);
      ready := status & 0x01 != 0;
    }

    /** `calibrateGyroscope`: the calibration command to CTRL9. */
    method CalibrateGyroscope()
      requires Valid()
      modifies this`regs, this`log
      ensures Valid() && regs == old(regs)[Ctrl9 as int := CalibrateCommand]
      ensures log == old(log) + [Write(Ctrl9, CalibrateCommand)]
    {
      WriteRegister(Ctrl9, CalibrateCommand);
    }

    /** The three little-endian samples from six registers at `reg`. */
    method ReadAxes(reg: byte) returns (x: int, y: int, z: int)
      requires Valid()
      modifies this`log
      ensures x == CombineBytes(At(regs, reg, 0), At(regs, reg, 1))
      ensures y == CombineBytes(At(regs, reg, 2), At(regs, reg, 3))
      ensures z == CombineBytes(At(regs, reg, 4), At(regs, reg, 5))
      ensures log == old(log) + [ReadBlock(reg, 6)]
    {
      var data := new byte[6];
      ReadRegisters(reg, data, 6);
      x := CombineBytes(data[0], data[1]);
      y := CombineBytes(data[2], data[3]);
      z := CombineBytes(data[4], data[5]);
    }

    /** `readAccelerometer` before the conversion to g: the raw samples of
        AX_L..AZ_H. */
    method ReadAccelerometerRaw() returns (x: int, y: int, z: int)
      requires Valid()
      modifies this`log
      ensures x == CombineBytes(Reg(AxL), Reg(AxL + 1)) && y == CombineBytes(Reg(AxL + 2), Reg(AxL + 3))
      ensures z == CombineBytes(Reg(AxL + 4), Reg(AxL + 5))
      ensures log == old(log) + [ReadBlock(AxL, 6)]
    {
      x, y, z := ReadAxes(AxL);
    }

    /** `readGyroscope` before the conversion to dps: the raw samples of
        GX_L..GZ_H. */
    method ReadGyroscopeRaw() returns (x: int, y: int, z: int)
      requires Valid()
      modifies this`log
      ensures x == CombineBytes(Reg(GxL), Reg(GxL + 1)) && y == CombineBytes(Reg(GxL + 2), Reg(GxL + 3))
      ensures z == CombineBytes(Reg(GxL + 4), Reg(GxL + 5))
      ensures log == old(log) + [ReadBlock(GxL, 6)]
    {
      x, y, z := ReadAxes(GxL);
    }
  }
}
