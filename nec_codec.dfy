/** Reference model of the NEC codec: the byte layout of a 32-bit raw code,
    its checksum, and the 8-bit/16-bit address rule.

    A raw code holds four bytes, least significant first:
      address low, address high, command, inverted command.
    An address whose high byte is the complement of its low byte is in the
    8-bit form; any other high byte makes it a 16-bit (extended) address.

    The two copies of the codec in the repository (modules IrProtocolNec and
    IrRemoteNec) are proved equal to the functions here, so every lemma of
    this module holds of both of them. */
module NecCodec {

  /** Result of decoding a raw code. Address and command are computed from
      the raw bits whether or not the checksum holds. */
  datatype Decoded = Decoded(valid: bool, address: bv16, command: bv8)

  /** The four bytes of a raw code, least significant byte first. */
  function RawBytes(data: bv32): (bs: seq<bv8>)
    ensures |bs| == 4
  {
    [ (data & 0xFF) as bv8,
      ((data >> 8) & 0xFF) as bv8,
      ((data >> 16) & 0xFF) as bv8,
      (data >> 24) as bv8 ]
  }

  /** The raw code whose bytes, least significant first, are `bs`. */
  function Pack(bs: seq<bv8>): bv32
    requires |bs| == 4
  {
    (bs[0] as bv32) + (bs[1] as bv32 << 8) + (bs[2] as bv32 << 16) + (bs[3] as bv32 << 24)
  }

  /** The high byte marks an 8-bit address: it is the complement of the low byte. */
  predicate IsShortForm(low: bv8, high: bv8)
  {
    high == !low
  }

  /** An extended address whose high byte collides with the 8-bit marker. */
  predicate Collides(address: bv16)
  {
    address >= 0x100 && (address >> 8) as bv8 == !((address & 0xFF) as bv8)
  }

  /** Address decomposition: an address below 0x100 is sent in the 8-bit
      form, any other address with its own high byte. */
  function SplitAddress(address: bv16): (bv8, bv8)
  {
    var low := (address & 0xFF) as bv8;
    if address < 0x100 then (low, !low) else (low, (address >> 8) as bv8)
  }

  /** Address resolution: the 8-bit form yields the low byte alone. */
  function JoinAddress(low: bv8, high: bv8): bv16
  {
    if IsShortForm(low, high) then low as bv16 else (high as bv16 << 8) + low as bv16
  }

  /** The raw code with bit `i` inverted. */
  function FlipBit(data: bv32, i: nat): bv32
    requires i < 32
  {
    data ^ (1 << i)
  }

  function Decode(data: bv32): Decoded
  {
    var bs := RawBytes(data);
    Decoded(IsShortForm(bs[2], bs[3]), JoinAddress(bs[0], bs[1]), bs[2])
  }

  function Encode(address: bv16, command: bv8): bv32
  {
    var (low, high) := SplitAddress(address);
    Pack([low, high, command, !command])
  }

  // ---------------------------------------------------------------------
  // Byte layout

  lemma RawBytesOfPack(bs: seq<bv8>)
    requires |bs| == 4
    ensures RawBytes(Pack(bs)) == bs
  {
  }

  /** The bytes occupy disjoint bit ranges, so packing is a bitwise OR. */
  lemma PackIsOr(b0: bv8, b1: bv8, b2: bv8, b3: bv8)
    ensures Pack([b0, b1, b2, b3]) ==
            (b3 as bv32 << 24) | (b2 as bv32 << 16) | (b1 as bv32 << 8) | b0 as bv32
  {
  }

  lemma PackOfRawBytes(data: bv32)
    ensures Pack(RawBytes(data)) == data
  {
  }

  // ---------------------------------------------------------------------
  // Address rule

  /** The low byte is always the address's low byte; the high byte is the
      address's high byte when that is nonzero, and the complement of the
      low byte otherwise. */
  lemma SplitAddressBytes(address: bv16)
    ensures SplitAddress(address).0 as bv16 == address & 0xFF
    ensures address >> 8 != 0 ==> SplitAddress(address).1 as bv16 == address >> 8
    ensures address >> 8 == 0 ==> SplitAddress(address).1 == !SplitAddress(address).0
  {
  }

  /** Resolution keeps the low byte; the high byte of the result is zero
      exactly for the 8-bit form or a zero high byte, so an 8-bit form always
      resolves below 0x100. */
  lemma JoinAddressBytes(low: bv8, high: bv8)
    ensures (JoinAddress(low, high) & 0xFF) as bv8 == low
    ensures JoinAddress(low, high) >> 8 == if IsShortForm(low, high) then 0 else high as bv16
    ensures IsShortForm(low, high) ==> JoinAddress(low, high) < 0x100
  {
  }

  /** Decomposing then resolving an address gives it back, except for an
      extended address that collides with the 8-bit marker, which collapses
      to its low byte. */
  lemma AddressRoundTrip(address: bv16)
    ensures !Collides(address) <==> JoinAddress(SplitAddress(address).0, SplitAddress(address).1) == address
    ensures Collides(address) ==> JoinAddress(SplitAddress(address).0, SplitAddress(address).1) == address & 0xFF
  {
  }

  /** Resolving then decomposing a byte pair gives it back, except that a
      zero high byte that is not the 8-bit marker becomes the marker. */
  lemma SplitOfJoin(low: bv8, high: bv8)
    ensures SplitAddress(JoinAddress(low, high)) ==
            if high == 0 && low != 0xFF then (low, !low) else (low, high)
  {
  }

  // ---------------------------------------------------------------------
  // Checksum

  /** A raw code is valid exactly when its top byte is the complement of its
      command byte; the command and the address come from the raw bits
      whatever the checksum says. */
  lemma DecodeFields(data: bv32)
    ensures Decode(data).valid <==> data >> 24 == ((data >> 16) & 0xFF) ^ 0xFF
    ensures Decode(data).command as bv32 == (data >> 16) & 0xFF
    ensures Decode(data).address == JoinAddress((data & 0xFF) as bv8, ((data >> 8) & 0xFF) as bv8)
  {
  }

  /** Encoding lays out the decomposed address, the command and its complement. */
  lemma EncodeBytes(address: bv16, command: bv8)
    ensures RawBytes(Encode(address, command)) ==
            [SplitAddress(address).0, SplitAddress(address).1, command, !command]
  {
    RawBytesOfPack([SplitAddress(address).0, SplitAddress(address).1, command, !command]);
  }

  /** Every encoded code decodes as valid, with the command it was given. */
  lemma EncodeIsValid(address: bv16, command: bv8)
    ensures Decode(Encode(address, command)).valid
    ensures Decode(Encode(address, command)).command == command
  {
    EncodeBytes(address, command);
  }

  /** Round trip for every address that does not collide with the 8-bit marker. */
  lemma RoundTrip(address: bv16, command: bv8)
    requires address <= 0xFF || (address >> 8) as bv8 != !((address & 0xFF) as bv8)
    ensures Decode(Encode(address, command)) == Decoded(true, address, command)
  {
    EncodeBytes(address, command);
    AddressRoundTrip(address);
  }

  /** A colliding extended address comes back as its low byte alone. */
  lemma Collapse(address: bv16, command: bv8)
    requires address >= 0x100 && (address >> 8) as bv8 == !((address & 0xFF) as bv8)
    ensures Decode(Encode(address, command)) == Decoded(true, address & 0xFF, command)
  {
    EncodeBytes(address, command);
    AddressRoundTrip(address);
  }

  /** The checksum catches every single-bit error in the command byte or the
      inverted-command byte. */
  lemma SingleBitFlipDetected(data: bv32, i: nat)
    requires Decode(data).valid
    requires 16 <= i < 32
    ensures !Decode(FlipBit(data, i)).valid
  {
  }

  /** The address bytes are not covered by the checksum: flipping one of
      their bits never changes validity. */
  lemma AddressBitFlipUndetected(data: bv32, i: nat)
    requires i < 16
    ensures Decode(FlipBit(data, i)).valid == Decode(data).valid
  {
  }

  // ---------------------------------------------------------------------
  // Concrete vectors

  /** Encoding vectors with 8-bit and extended addresses. */
  lemma EncodeVectors()
    ensures Encode(0x0000, 0x00) == 0xFF00FF00
    ensures Encode(0x0000, 0xFF) == 0x00FFFF00
    ensures Encode(0x00FF, 0x00) == 0xFF0000FF
    ensures Encode(0x00FF, 0xFF) == 0x00FF00FF
    ensures Encode(0x0020, 0x00) == 0xFF00DF20
    ensures Encode(0x00DF, 0x00) == 0xFF0020DF
    ensures Encode(0x0000, 0x20) == 0xDF20FF00
    ensures Encode(0x0000, 0xDF) == 0x20DFFF00
    ensures Encode(0x0100, 0x00) == 0xFF000100
    ensures Encode(0xFE00, 0x00) == 0xFF00FE00
    ensures Encode(0xF00D, 0x00) == 0xFF00F00D
  {
  }

  /** The same vectors decode back to their address and command. */
  lemma DecodeVectors()
    ensures Decode(0xFF00FF00) == Decoded(true, 0x0000, 0x00)
    ensures Decode(0x00FFFF00) == Decoded(true, 0x0000, 0xFF)
    ensures Decode(0xFF0000FF) == Decoded(true, 0x00FF, 0x00)
    ensures Decode(0x00FF00FF) == Decoded(true, 0x00FF, 0xFF)
    ensures Decode(0xFF00DF20) == Decoded(true, 0x0020, 0x00)
    ensures Decode(0xFF0020DF) == Decoded(true, 0x00DF, 0x00)
    ensures Decode(0xDF20FF00) == Decoded(true, 0x0000, 0x20)
    ensures Decode(0x20DFFF00) == Decoded(true, 0x0000, 0xDF)
    ensures Decode(0xFF000100) == Decoded(true, 0x0100, 0x00)
    ensures Decode(0xFF00FE00) == Decoded(true, 0xFE00, 0x00)
    ensures Decode(0xFF00F00D) == Decoded(true, 0xF00D, 0x00)
  {
  }

  /** Every single wrong bit in the command or the inverted command of the
      valid codes 0x00FFFF00 and 0xFF00FF00 is detected, among them the
      sixteen invalid codes of the repository's tests. */
  lemma InvalidVectors()
    ensures forall i: nat :: 16 <= i < 32 ==>
              !Decode(FlipBit(0x00FFFF00, i)).valid && !Decode(FlipBit(0xFF00FF00, i)).valid
    ensures !Decode(0x01FFFF00).valid && !Decode(0x02FFFF00).valid
    ensures !Decode(0x04FFFF00).valid && !Decode(0x08FFFF00).valid
    ensures !Decode(0x10FFFF00).valid && !Decode(0x20FFFF00).valid
    ensures !Decode(0x40FFFF00).valid && !Decode(0x80FFFF00).valid
    ensures !Decode(0xFF01FF00).valid && !Decode(0xFF02FF00).valid
    ensures !Decode(0xFF04FF00).valid && !Decode(0xFF08FF00).valid
    ensures !Decode(0xFF10FF00).valid && !Decode(0xFF20FF00).valid
    ensures !Decode(0xFF40FF00).valid && !Decode(0xFF80FF00).valid
  {
    forall i: nat | 16 <= i < 32
      ensures !Decode(FlipBit(0x00FFFF00, i)).valid && !Decode(FlipBit(0xFF00FF00, i)).valid
    {
      SingleBitFlipDetected(0x00FFFF00, i);
      SingleBitFlipDetected(0xFF00FF00, i);
    }
  }

  /** An extended address that collides with the marker is the same code as
      its low byte on its own. */
  lemma CollapseVector()
    ensures Encode(0xFF00, 0x00) == Encode(0x0000, 0x00)
    ensures Decode(Encode(0xFF00, 0x00)) == Decoded(true, 0x0000, 0x00)
  {
  }
}
