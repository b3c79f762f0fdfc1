/** The PCA9554 8-bit I2C I/O expander driver. Every pin operation is a
    read-modify-write of one of the chip's four registers; the chip is
    modelled by its register file, and each bus transaction's outcome
    (acknowledged or not) is a parameter. */
module Pca9554 {
  import opened Registers

  const InputPort: byte := 0x00
  const OutputPort: byte := 0x01
  const PolarityPort: byte := 0x02
  const ConfigPort: byte := 0x03

  /** All pins inputs (`ALLINPUT`). */
  const AllInput: byte := 0xFF

  class Expander {
    /** `_initialized`: set by `begin` from the presence probe. */
    var initialized: bool
    /** The chip's INPUT, OUTPUT, POLARITY and CONFIG registers. */
    var regs: seq<byte>
    /** Every bus access the driver made, in order. */
    var log: seq<Access>

    ghost predicate Valid()
      reads this
    {
      |regs| == 4
    }

    /** The register `reg` as the chip holds it. */
    function Reg(reg: byte): byte
      reads this
      requires Valid() && reg < 4
    {
      regs[reg as int]
    }

    /** `PCA9554(address)`: not yet initialized, no bus traffic. */
    constructor (chip: seq<byte>)
      requires |chip| == 4
      ensures Valid() && !initialized && regs == chip && log == []
    {
      initialized := false;
      regs := chip;
      log := [];
    }

    /** `isConnected`: an address-only probe, answered when the chip is
        `present`. */
    method IsConnected(present: bool) returns (ok: bool)
      modifies this`log
      ensures ok == present && log == old(log) + [Probe]
    {
      log := log + [Probe];
      ok := present;
    }

    /** `begin`: the driver is initialized exactly when the probe is
        answered. */
    method Begin(present: bool) returns (ok: bool)
      modifies this`initialized, this`log
      ensures initialized == present && ok == present
      ensures log == old(log) + [Probe]
    {
      ok := IsConnected(present);
      initialized := ok;
    }

    /** `twiRead`: on success the register's value; on failure the
        by-reference byte keeps the register address it was called with. */
    method TwiRead(reg: byte, ack: bool) returns (ok: bool, value: byte)
      requires Valid() && reg < 4
      modifies this`log
      ensures ok == ack && value == (if ack then Reg(reg) else reg)
      ensures log == old(log) + [Read(reg)]
    {
      log := log + [Read(reg)];
      ok := ack;
      value := if ack then regs[reg as int] else reg;
    }

    /** `twiWrite`: the register takes the value when the write is
        acknowledged. */
    method TwiWrite(reg: byte, value: byte, ack: bool) returns (ok: bool)
      requires Valid() && reg < 4
      modifies this`regs, this`log
      ensures Valid() && ok == ack
      ensures regs == if ack then old(regs)[reg as int := value] else old(regs)
      ensures log == old(log) + [Write(reg, value)]
    {
      log := log + [Write(reg, value)];
      ok := ack;
      if ack {
        regs := regs[reg as int := value];
      }
    }

    /** `portMode`: writes the whole CONFIG register (a set bit makes the
        pin an input). */
    method PortMode(value: byte, ack: bool) returns (ok: bool)
      requires Valid()
      modifies this`regs, this`log
      ensures Valid() && ok == ack
      ensures regs == if ack then old(regs)[ConfigPort as int := value] else old(regs)
      ensures log == old(log) + [Write(ConfigPort, value)]
    {
      ok := TwiWrite(ConfigPort, value, ack);
    }

    /** `pinMode`: CONFIG is read first, whatever the pin; for a pin
        0..7 whose read succeeded, bit `pin` is set for an input
        (`output` false) or cleared for an output, and the whole byte is
        written back. Every other pin keeps its direction. Initialization
        is not checked. */
    method PinMode(pin: byte, output: bool, readAck: bool, writeAck: bool) returns (ok: bool)
      requires Valid()
      modifies this`regs, this`log
      ensures Valid() && ok == (readAck && pin <= 7 && writeAck)
      ensures log == old(log) + [Read(ConfigPort)]
        + (if readAck && pin <= 7 then [Write(ConfigPort, SetBit(old(Reg(ConfigPort)), pin, !output))] else [])
      ensures regs == if ok then old(regs)[ConfigPort as int := SetBit(old(Reg(ConfigPort)), pin, !output)] else old(regs)
      ensures ok ==> Bit(Reg(ConfigPort), pin) == !output
    {
      var read, value := TwiRead(ConfigPort, readAck);
      if read && pin <= 7 {
        value := SetBit(value, pin, !output);
        ok := PortMode(value, writeAck);
      } else {
        ok := false;
      }
    }

    /** `digitalWritePort`: writes the whole OUTPUT register. */
    method DigitalWritePort(value: byte, ack: bool) returns (ok: bool)
      requires Valid()
      modifies this`regs, this`log
      ensures Valid() && ok == ack
      ensures regs == if ack then old(regs)[OutputPort as int := value] else old(regs)
      ensures log == old(log) + [Write(OutputPort, value)]
    {
      ok := TwiWrite(OutputPort, value, ack);
    }

    /** `digitalWrite`: nothing at all happens before `begin` succeeded or
        for a pin above 7; otherwise OUTPUT is read, bit `pin` set to
        `high`, and the byte written back, every other output level kept. */
    method DigitalWrite(pin: byte, high: bool, readAck: bool, writeAck: bool) returns (ok: bool)
      requires Valid()
      modifies this`regs, this`log
      ensures Valid() && ok == (initialized && pin <= 7 && readAck && writeAck)
      ensures !initialized || pin > 7 ==> log == old(log)
      ensures initialized && pin <= 7 ==>
                log == old(log) + [Read(OutputPort)] + (if readAck then [Write(OutputPort, SetBit(old(Reg(OutputPort)), pin, high))] else [])
      ensures regs == if ok then old(regs)[OutputPort as int := SetBit(old(Reg(OutputPort)), pin, high)] else old(regs)
      ensures ok ==> Bit(Reg(OutputPort), pin) == high
    {
      if !initialized || pin > 7 {
        return false;
      }
      var read, value := TwiRead(OutputPort, readAck);
      if read {
        value := SetBit(value, pin, high);
        ok := DigitalWritePort(value, writeAck);
      } else {
        ok := false;
      }
    }

    /** `digitalRead`: the level of `pin` from INPUT; before `begin`
        succeeded, for a pin above 7 or when the read fails, the caller's
        `state` is left as it was (`prior`). */
    method DigitalRead(pin: byte, ack: bool, prior: bool) returns (ok: bool, state: bool)
      requires Valid()
      modifies this`log
      ensures ok == (initialized && pin <= 7 && ack)
      ensures state == if ok then Bit(Reg(InputPort), pin) else prior
      ensures log == if initialized && pin <= 7 then old(log) + [Read(InputPort)] else old(log)
    {
      state := prior;
      if !initialized || pin > 7 {
        return false, prior;
      }
      var value;
      ok, value := TwiRead(InputPort, ack);
      if ok {
        state := value & Mask(pin) != 0;
      }
    }

    /** `digitalReadPort`: the INPUT register, or on failure the register
        address 0 left in the by-reference byte. Initialization is not
        checked. */
    method DigitalReadPort(ack: bool) returns (ok: bool, value: byte)
      requires Valid()
      modifies this`log
      ensures ok == ack && value == (if ack then Reg(InputPort) else InputPort)
      ensures log == old(log) + [Read(InputPort)]
    {
      ok, value := TwiRead(InputPort, ack);
    }

    /** `setPinPolarity`: like `digitalWrite`, on the POLARITY register. */
    method SetPinPolarity(pin: byte, inverted: bool, readAck: bool, writeAck: bool) returns (ok: bool)
      requires Valid()
      modifies this`regs, this`log
      ensures Valid() && ok == (initialized && pin <= 7 && readAck && writeAck)
      ensures !initialized || pin > 7 ==> log == old(log)
      ensures initialized && pin <= 7 ==>
                log == old(log) + [Read(PolarityPort)] + (if readAck then [Write(PolarityPort, SetBit(old(Reg(PolarityPort)), pin, inverted))] else [])
      ensures regs == if ok then old(regs)[PolarityPort as int := SetBit(old(Reg(PolarityPort)), pin, inverted)] else old(regs)
      ensures ok ==> Bit(Reg(PolarityPort), pin) == inverted
    {
      if !initialized || pin > 7 {
        return false;
      }
      var read, value := TwiRead(PolarityPort, readAck);
      if read {
        value := SetBit(value, pin, inverted);
        ok := TwiWrite(PolarityPort, value, writeAck);
      } else {
        ok := false;
      }
    }
  }
}
