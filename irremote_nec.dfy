/** The codec of irremote/proto_nec.go, the copy the sender calls. It is
    line for line the same as irremote/irprotocol/proto_nec.go; each
    function is proved equal to its counterpart in NecCodec and in
    IrProtocolNec. */
module IrRemoteNec {
  import NecCodec
  import IrProtocolNec

  /** One NEC timing unit, in nanoseconds (562.5 microseconds). */
  const UnitNs: nat := 562_500

  // Protocol timings, in NEC units.
  const LeadMark: nat := 16
  const LeadSpace: nat := 8
  const RepeatSpace: nat := 4
  const BitMark: nat := 1
  const Bit0Space: nat := 1
  const Bit1Space: nat := 3
  const TrailMark: nat := 1
  const RepeatPeriod: nat := 192

  /** Breaks a raw code into address and command, and checks the command
      against its inverse. */
  function SplitRawNECData(data: bv32): (r: NecCodec.Decoded)
    ensures r == NecCodec.Decode(data)
  {
    NecCodec.DecodeFields(data);
    var addrLow := (data & 0xff) as bv8;
    var addrHigh := ((data & 0xff00) >> 8) as bv8;
    var command := ((data & 0xff0000) >> 16) as bv8;
    var invCmd := ((data & 0xff000000) >> 24) as bv8;
    var address := MakeNECAddress(addrLow, addrHigh);
    var valid := if command != !invCmd then false else true;
    NecCodec.Decoded(valid, address, command)
  }

  /** Assembles a raw code from an address and a command. */
  function MakeRawNECData(address: bv16, command: bv8): (r: bv32)
    ensures r == NecCodec.Encode(address, command)
  {
    var (addrLow, addrHigh) := SplitNECAddress(address);
    NecCodec.PackIsOr(addrLow, addrHigh, command, !command);
    ((!command) as bv32 << 24) | (command as bv32 << 16) | (addrHigh as bv32 << 8) | addrLow as bv32
  }

  /** Splits an address into its low and high wire bytes. */
  function SplitNECAddress(address: bv16): (r: (bv8, bv8))
    ensures r == NecCodec.SplitAddress(address)
  {
    var addrLow := (address & 0xff) as bv8;
    var addrHigh := ((address & 0xff00) >> 8) as bv8;
    if addrHigh == 0 then (addrLow, !addrLow) else (addrLow, addrHigh)
  }

  /** Assembles an address from its low and high wire bytes. */
  function MakeNECAddress(addrLow: bv8, addrHigh: bv8): (r: bv16)
    ensures r == NecCodec.JoinAddress(addrLow, addrHigh)
  {
    if addrHigh == !addrLow then addrLow as bv16 else (addrHigh as bv16 << 8) | addrLow as bv16
  }

  /** This copy's constants are those of the irprotocol copy. */
  lemma TimingMatchesIrProtocol()
    ensures UnitNs == IrProtocolNec.UnitNs
    ensures LeadMark == IrProtocolNec.LeadMark && LeadSpace == IrProtocolNec.LeadSpace
    ensures RepeatSpace == IrProtocolNec.RepeatSpace && BitMark == IrProtocolNec.BitMark
    ensures Bit0Space == IrProtocolNec.Bit0Space && Bit1Space == IrProtocolNec.Bit1Space
    ensures TrailMark == IrProtocolNec.TrailMark && RepeatPeriod == IrProtocolNec.RepeatPeriod
  {
  }

  /** The four functions of this copy return what the irprotocol copy
      returns, for every input. */
  lemma MatchesIrProtocol(data: bv32, address: bv16, command: bv8, low: bv8, high: bv8)
    ensures SplitRawNECData(data) == IrProtocolNec.SplitRawNECData(data)
    ensures MakeRawNECData(address, command) == IrProtocolNec.MakeRawNECData(address, command)
    ensures SplitNECAddress(address) == IrProtocolNec.SplitNECAddress(address)
    ensures MakeNECAddress(low, high) == IrProtocolNec.MakeNECAddress(low, high)
  {
  }

  /** The high byte is replaced by the complement of the low byte when bits
      8 to 15 of the address are zero and kept otherwise; so it is the
      complement exactly for those addresses and the colliding ones. */
  lemma SplitMarksShortAddress(address: bv16)
    ensures SplitNECAddress(address).0 as bv16 == address & 0xFF
    ensures address & 0xFF00 == 0 ==> SplitNECAddress(address).1 == !SplitNECAddress(address).0
    ensures address & 0xFF00 != 0 ==> SplitNECAddress(address).1 as bv16 == address >> 8
    ensures SplitNECAddress(address).1 == !SplitNECAddress(address).0 <==>
            address & 0xFF00 == 0 || NecCodec.Collides(address)
  {
  }

  /** Splitting then rebuilding gives the address back unless it is an
      extended address colliding with the 8-bit marker; then only the low
      byte is left. */
  lemma AddressRoundTrip(address: bv16)
    ensures MakeNECAddress(SplitNECAddress(address).0, SplitNECAddress(address).1) ==
            if NecCodec.Collides(address) then address & 0xFF else address
  {
    NecCodec.AddressRoundTrip(address);
  }

  /** Validity is exactly "byte 2 is the complement of byte 3". */
  lemma ValidIffChecksum(data: bv32)
    ensures SplitRawNECData(data).valid <==>
            ((data >> 16) & 0xFF) as bv8 == !((data >> 24) as bv8)
  {
  }

  /** A code this copy assembles is valid and carries its command. */
  lemma MadeCodeIsValid(address: bv16, command: bv8)
    ensures SplitRawNECData(MakeRawNECData(address, command)).valid
    ensures SplitRawNECData(MakeRawNECData(address, command)).command == command
  {
    NecCodec.EncodeIsValid(address, command);
  }
}
