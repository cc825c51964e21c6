/** The codec of irremote/irprotocol/proto_nec.go, written as that file
    computes it: byte masks and shifts, a checksum test, and the address
    rule tested on the extracted high byte. Each function is proved equal
    to its counterpart in NecCodec, whose lemmas therefore hold here. */
module IrProtocolNec {
  import NecCodec

  /** One NEC timing unit, in nanoseconds (562.5 microseconds). */
  const UnitNs: nat := 562_500

  // Protocol timings, in NEC units.
  const LeadMark: nat := 16
  const LeadSpace: nat := 8
  const RepeatSpace: nat := 4
  const BitMark: nat := 1
  const Bit0Space: nat := 1
  const Bit1Space: nat := 3
  const TrailMark: nat := 1
  const RepeatPeriod: nat := 192

  /** Breaks a raw code into address and command, and checks the command
      against its inverse. */
  function SplitRawNECData(data: bv32): (r: NecCodec.Decoded)
    ensures r == NecCodec.Decode(data)
  {
    NecCodec.DecodeFields(data);
    var addrLow := (data & 0xff) as bv8;
    var addrHigh := ((data & 0xff00) >> 8) as bv8;
    var command := ((data & 0xff0000) >> 16) as bv8;
    var invCmd := ((data & 0xff000000) >> 24) as bv8;
    var address := MakeNECAddress(addrLow, addrHigh);
    var valid := if command != !invCmd then false else true;
    NecCodec.Decoded(valid, address, command)
  }

  /** Assembles a raw code from an address and a command. */
  function MakeRawNECData(address: bv16, command: bv8): (r: bv32)
    ensures r == NecCodec.Encode(address, command)
  {
    var (addrLow, addrHigh) := SplitNECAddress(address);
    NecCodec.PackIsOr(addrLow, addrHigh, command, !command);
    ((!command) as bv32 << 24) | (command as bv32 << 16) | (addrHigh as bv32 << 8) | addrLow as bv32
  }

  /** Splits an address into its low and high wire bytes. */
  function SplitNECAddress(address: bv16): (r: (bv8, bv8))
    ensures r == NecCodec.SplitAddress(address)
  {
    var addrLow := (address & 0xff) as bv8;
    var addrHigh := ((address & 0xff00) >> 8) as bv8;
    if addrHigh == 0 then (addrLow, !addrLow) else (addrLow, addrHigh)
  }

  /** Assembles an address from its low and high wire bytes. */
  function MakeNECAddress(addrLow: bv8, addrHigh: bv8): (r: bv16)
    ensures r == NecCodec.JoinAddress(addrLow, addrHigh)
  {
    if addrHigh == !addrLow then addrLow as bv16 else (addrHigh as bv16 << 8) | addrLow as bv16
  }

  /** The timing constants: lead 16 + 8, repeat space 4, one unit for a bit
      mark, a 0 space and the trail, three for a 1 space, and a 192-unit
      repeat period (about 108 ms). */
  lemma TimingInNanoseconds()
    ensures LeadMark * UnitNs == 9_000_000 && LeadSpace * UnitNs == 4_500_000
    ensures RepeatSpace * UnitNs == 2_250_000
    ensures BitMark * UnitNs == Bit0Space * UnitNs == TrailMark * UnitNs == 562_500
    ensures Bit1Space * UnitNs == 1_687_500
    ensures RepeatPeriod * UnitNs == 108_000_000
  {
  }
}
