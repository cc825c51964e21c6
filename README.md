# NEC infrared sender: a Dafny model

This project models the NEC part of the TinyGo `irremote` driver.

The NEC codec packs a 16-bit address and an 8-bit command into a 32-bit raw code. The code holds four bytes, least significant first: address low, address high, command, inverted command. The codec also unpacks and validates such codes. It applies the 8-bit/16-bit address rule: a high byte equal to the complement of the low byte marks an 8-bit address. An extended address whose high byte happens to equal that complement collapses to its low byte.

The transmission sequencer, `SenderDevice`, turns a raw code into timed carrier pulses:

- a 16-unit lead mark and an 8-unit lead space;
- 32 bits, least significant bit of each byte first, each a 1-unit mark followed by a 1-unit (bit 0) or 3-unit (bit 1) space;
- a 1-unit trail mark.

A repeat frame is a lead mark, a 4-unit space and a trail mark. One NEC unit is 562.5 µs. The repeat period is 192 units.

## Modules

- `NecCodec` (`nec_codec.dfy`) is the reference codec over `bv8`/`bv16`/`bv32`. It proves the codec's laws:
  - the byte layout;
  - address decomposition and resolution;
  - the round trip and its one exception, the collapse;
  - the checksum, and which single-bit errors it detects;
  - the repository's test vectors.
- `IrProtocolNec` (`irprotocol_nec.dfy`) and `IrRemoteNec` (`irremote_nec.dfy`) are the two copies of the codec in the repository, `irremote/irprotocol/proto_nec.go` and `irremote/proto_nec.go`.
  - Each function is written as its Go counterpart computes it: masks, shifts, the checksum test, and the address test on the extracted byte.
  - Each contract proves the function equal to its `NecCodec` counterpart, so every codec law holds of both copies.
  - `IrRemoteNec` also proves that the two copies agree.
- `Sender` (`sender.dfy`) models `irremote/sender.go`.
  - The PWM peripheral and the clock become an event trace in the class field `trace`:
    - `PwmSet(v)` is one write of `v` to the PWM channel;
    - `Sleep(d)` is one wait of `d` units.
  - A frame is specified as a sequence of intervals: `Mark(d)` is carrier on, `Space(d)` is carrier off. `Rendered` says how intervals become events: a mark is `PwmSet(on), Sleep(d), PwmSet(0)`, and a space is `Sleep(d)`.
  - `SendNECRawBytes` keeps the source's nested loop over the four bytes and the eight bit masks. Its loop invariants tie the trace and the running duration to the intervals sent so far.
  - The field `repeatActive` stands for the source's repeat channel: a repeat session has been started and not yet cancelled.
  - Durations are natural numbers of NEC units: each timing constant is the multiplier of `nec_unit` that the source writes. `TimingInNanoseconds` only documents that table: it checks that those multipliers give the millisecond values in the source's comments. `TimingMatchesIrProtocol` checks that the two copies use the same table.

## Model

| member | source | states |
|---|---|---|
| NecCodec.RawBytesOfPack | irremote/irprotocol/proto_nec.go:27-30 | Unpacking the code packed from four bytes gives the same four bytes back, in order. |
| NecCodec.PackIsOr | irremote/irprotocol/proto_nec.go:43 | The bytes occupy disjoint bit ranges, so packing them by addition equals the source's OR of shifted bytes. |
| NecCodec.PackOfRawBytes | irremote/irprotocol/proto_nec.go:27-30 | Packing the four extracted bytes of a code gives the code back. |
| NecCodec.SplitAddressBytes | irremote/irprotocol/proto_nec.go:47-55 | The low byte is always the address's low byte. The high byte is the address's own high byte when that is nonzero, and the complement of the low byte when it is zero. |
| NecCodec.JoinAddressBytes | irremote/irprotocol/proto_nec.go:58-65 | Resolution keeps the low byte. The resolved high byte is 0 for the 8-bit form and the given high byte otherwise, so the 8-bit form always resolves below 0x100. |
| NecCodec.AddressRoundTrip | irremote/irprotocol/proto_nec.go:47-65 | Resolving a decomposed address gives it back exactly when it does not collide with the 8-bit marker. A colliding address comes back as its low byte. |
| NecCodec.SplitOfJoin | irremote/irprotocol/proto_nec.go:47-65 | Decomposing a resolved byte pair gives the pair back, except that a zero high byte with a low byte other than 0xFF is replaced by the complement of the low byte. |
| NecCodec.DecodeFields | irremote/irprotocol/proto_nec.go:25-38 | A code is valid exactly when its top byte is the complement of bits 16-23. The command is bits 16-23 and the address is the resolution of the two low bytes, whatever the checksum. |
| NecCodec.EncodeBytes | irremote/irprotocol/proto_nec.go:41-44 | An encoded code holds the decomposed address bytes, the command and the command's complement, in that order. |
| NecCodec.EncodeIsValid | irremote/irprotocol/proto_nec.go:25-44 | Every encoded code decodes as valid, with the command it was built from. |
| NecCodec.RoundTrip | irremote/irprotocol/proto_nec.go:25-65 | For an address at most 0xFF, or one whose high byte is not the complement of its low byte, decoding the encoding gives back (valid, address, command). |
| NecCodec.Collapse | irremote/irprotocol/proto_nec.go:59-63 | An extended address whose high byte is the complement of its low byte decodes as (valid, address & 0xFF, command). |
| NecCodec.SingleBitFlipDetected | irremote/irprotocol/proto_nec.go:33-36 | Inverting any one bit of the command or inverted-command byte of a valid code makes it invalid. |
| NecCodec.AddressBitFlipUndetected | irremote/irprotocol/proto_nec.go:33-36 | Inverting one bit of an address byte never changes validity: the checksum does not cover the address. |
| NecCodec.EncodeVectors | irremote/irprotocol/proto_nec_test.go:49-74 | The eleven encoding vectors of the 8-bit and extended address tests. |
| NecCodec.DecodeVectors | irremote/irprotocol/proto_nec_test.go:49-74 | The same eleven codes decode as valid, with their address and command. |
| NecCodec.InvalidVectors | irremote/irprotocol/proto_nec_test.go:77-100 | Every one-bit error in the command or inverted command of 0x00FFFF00 and of 0xFF00FF00 is invalid, and so are the sixteen invalid codes of the test by name. |
| NecCodec.CollapseVector | irremote/irprotocol/proto_nec.go:59-63 | Address 0xFF00 encodes to the same code as address 0x0000, which decodes to address 0x0000. |
| IrProtocolNec.SplitRawNECData | irremote/irprotocol/proto_nec.go:25-38 | The source's byte extraction and checksum test give exactly the reference decoding, for every 32-bit code. |
| IrProtocolNec.MakeRawNECData | irremote/irprotocol/proto_nec.go:41-44 | The source's shift-and-OR assembly gives exactly the reference encoding. |
| IrProtocolNec.SplitNECAddress | irremote/irprotocol/proto_nec.go:47-55 | The source's "high byte zero" test gives exactly the reference decomposition. |
| IrProtocolNec.MakeNECAddress | irremote/irprotocol/proto_nec.go:58-65 | The source's complement test gives exactly the reference resolution. |
| IrProtocolNec.TimingInNanoseconds | irremote/irprotocol/proto_nec.go:13-21 | The unit constants give 9 ms, 4.5 ms, 2.25 ms, 562.5 µs, 1.6875 ms and 108 ms. |
| IrRemoteNec.SplitRawNECData | irremote/proto_nec.go:25-38 | The sender's copy of the decoder is exactly the reference decoding. |
| IrRemoteNec.MakeRawNECData | irremote/proto_nec.go:41-44 | The sender's copy of the encoder is exactly the reference encoding. |
| IrRemoteNec.SplitNECAddress | irremote/proto_nec.go:47-55 | The sender's copy of address decomposition is exactly the reference one. |
| IrRemoteNec.MakeNECAddress | irremote/proto_nec.go:58-65 | The sender's copy of address resolution is exactly the reference one. |
| IrRemoteNec.TimingMatchesIrProtocol | irremote/proto_nec.go:13-21 | This copy's timing constants equal the irprotocol copy's. |
| IrRemoteNec.MatchesIrProtocol | irremote/proto_nec.go:25-65 | All four functions of the two copies return the same result for every input. |
| IrRemoteNec.SplitMarksShortAddress | irremote/proto_nec.go:47-55 | The low byte is the address's low byte. The high byte is the complement of the low byte when bits 8-15 are zero, and bits 8-15 otherwise. It is the complement exactly for those addresses and for the colliding ones. |
| IrRemoteNec.AddressRoundTrip | irremote/proto_nec.go:47-65 | Splitting and rebuilding an address gives it back, or its low byte if it collides with the 8-bit marker. |
| IrRemoteNec.ValidIffChecksum | irremote/proto_nec.go:33-36 | A decoded code is valid exactly when bits 16-23 are the complement of bits 24-31. |
| IrRemoteNec.MadeCodeIsValid | irremote/proto_nec.go:25-44 | A code built by MakeRawNECData decodes as valid with its command. |
| Sender.EffectiveDutyCycle | irremote/sender.go:37-41 | The duty cycle is the requested one exactly when that lies in 1..100, and 33 otherwise. |
| Sender.DutyValue | irremote/sender.go:171 | The carrier value formed from Top and the duty cycle in 32-bit arithmetic never exceeds Top. |
| Sender.DutyValueBounds | irremote/sender.go:171 | The carrier value is the 32-bit product Top·dc divided by 100 and rounded down, and at most Top for every Top and duty cycle. While the product fits in 32 bits it is dc percent of Top, and equals Top at 100 %. A product that wraps gives the wrong fraction of Top, never more than Top. |
| Sender.SenderDevice.CarrierOn | irremote/sender.go:171 | The value a mark writes on the sender's own Top and duty cycle never exceeds Top. |
| Sender.DutyValueWraps | irremote/sender.go:171 | Top 42 949 672 at 100 % gives the top itself, and Top 65 535 at 33 % gives 21 626. Top 50 000 000 at 100 % wraps to 7 050 327. |
| Sender.RenderedSleepTotal | irremote/sender.go:168-179 | The rendered events of a sequence of intervals sleep for exactly the sum of the intervals. |
| Sender.RenderedShape | irremote/sender.go:168-179 | The events of a rendering are three per mark and one per space, and every PWM write is the carrier value or 0. The last PWM write, when there is a mark, is 0. |
| Sender.LeavesCarrierOff | irremote/sender.go:168-179 | Whatever came before, appending a rendering that holds a mark leaves 0 as the last PWM value. |
| Sender.FrameLeavesCarrierOff | irremote/sender.go:151-153 | After a rendered data frame the last PWM value set is 0. |
| Sender.BitIntervalsDuration | irremote/sender.go:137-147 | Bits 0..n-1 of a byte are n marks and n spaces, lasting 2n units plus 2 for every set bit. |
| Sender.DataIntervalsDuration | irremote/sender.go:135-148 | The bits of k bytes are 8k marks and 8k spaces, lasting 16k units plus 2 for every set bit. |
| Sender.FrameDuration | irremote/sender.go:128-153 | A data frame lasts 89 units plus 2 for every set bit of its four bytes. |
| Sender.FrameSleepTotal | irremote/sender.go:128-153 | The time a rendered data frame sleeps, the sum of its intervals, is its duration: 89 units plus 2 per set bit. |
| Sender.FrameDurationBounds | irremote/sender.go:70 | A data frame lasts 89 to 153 units, strictly below the 192-unit repeat period, so the first repeat wait is 39 to 103 units. |
| Sender.FrameCounts | irremote/sender.go:130-151 | A data frame is 67 intervals: 34 marks and 33 spaces. |
| Sender.BitIntervalsAt | irremote/sender.go:137-147 | Interval 2i of a byte's bits is the bit mark, and interval 2i+1 is the space for bit i. |
| Sender.DataIntervalsAt | irremote/sender.go:135-148 | Interval 16j+2i of the data is the bit mark, and interval 16j+2i+1 is the space for bit i of byte j. |
| Sender.FrameIntervalsAt | irremote/sender.go:127-151 | The exact interval sequence of a frame: lead mark at 0, lead space at 1, bit-i mark of byte j at 2+16j+2i, its space at 3+16j+2i, trail mark at 66. |
| Sender.BitMask | irremote/sender.go:138 | The mask `byte(1) << i` has bit i set and every other bit clear. |
| Sender.MaskTest | irremote/sender.go:138-140 | Testing a byte against the shifted-one mask of bit i reads exactly bit i. |
| Sender.RepeatWait | irremote/sender.go:70-78 | The wait before a repeat is what remains of the 192-unit repeat period after the transmission. It is positive exactly when the transmission is shorter than the period. |
| Sender.RepeatFrameTiming | irremote/sender.go:89-96 | A repeat frame is 2 marks and 1 space lasting 21 units, which leaves a 171-unit wait in the repeat period. |
| Sender.ResentBytes | irremote/sender.go:111-116 | The bytes SendNECRawCode sends for a raw code are four: the split decoded address, the decoded command, and the command's complement. |
| Sender.ResentBytesDecode | irremote/sender.go:111-116 | The resent bytes always form a valid code with the address and the command of the original code. |
| Sender.ResentBytesOfValidCode | irremote/sender.go:111-116 | A valid raw code is resent with its own bytes, except that a zero high address byte with a low byte other than 0xFF goes out as the complement of the low byte. The resent bytes equal the raw bytes exactly outside that case. |
| Sender.ResentBytesOfEncoded | irremote/sender.go:111-116 | A code built by MakeRawNECData is resent byte for byte. |
| Sender.ResentVector | irremote/sender.go:111-116 | Raw code 0xFF000012 goes out as bytes 0x12, 0xED, 0x00, 0xFF. |
| Sender.SenderDevice.NewSender | irremote/sender.go:36-47 | The sender keeps the pin and the PWM top, uses the defaulted duty cycle, and starts with an empty trace and no repeat session. |
| Sender.SenderDevice.WaitForAutoRepeatCancel | irremote/sender.go:156-166 | On return no repeat session is active. It writes nothing to the PWM channel. |
| Sender.SenderDevice.StopNECRepeats | irremote/sender.go:99-101 | On return no repeat session is active. |
| Sender.SenderDevice.EmitMark | irremote/sender.go:168-174 | A mark appends a write of the carrier value, a sleep for its length and a write of 0. |
| Sender.SenderDevice.EmitSpace | irremote/sender.go:176-179 | A space appends only a sleep for its length. |
| Sender.SenderDevice.SendNECRawBytes | irremote/sender.go:122-154 | Cancels any repeat session and appends exactly the rendered data frame of the four bytes, least significant bit first. Returns that frame's duration, 89 + 2·popcount of the bytes, and leaves 0 as the last PWM value. |
| Sender.SenderDevice.SendNECRepeat | irremote/sender.go:89-96 | Appends exactly the rendered repeat frame and returns its duration (21 units). Leaves the carrier off and does not touch the repeat session. |
| Sender.SenderDevice.SendNEC | irremote/sender.go:57-83 | Appends exactly the rendered frame of the bytes of MakeRawNECData(address, command), leaves the carrier off, and leaves a repeat session running exactly when auto-repeat was asked for. |
| Sender.SenderDevice.SendNECRawCode | irremote/sender.go:108-117 | An invalid code returns 0 and changes neither the trace nor the repeat session. A valid code cancels any session and appends the frame of its resent bytes. It returns that frame's duration, 89 to 153 units, and leaves 0 as the last PWM value. |

## Left out

- The auto-repeat goroutine (`irremote/sender.go:68-81`) is not modelled because it is concurrent. `SendNEC` with auto-repeat only sets `repeatActive`; the repeat frames the goroutine sends are not in the trace. Of that goroutine the model keeps the wait arithmetic `nec_repeat_period - txDuration` (lines 70 and 78), as `RepeatWait` with `FrameDurationBounds` and `RepeatFrameTiming`.
- Sender.SenderDevice.WaitForAutoRepeatCancel: with a session active, the source closes the channel and then polls in 40-unit sleeps until the goroutine exits. The number of polls depends on scheduling, so the model clears the session in one step and records none of those sleeps.
- Sender.SenderDevice.StopNECRepeats: inherits the same abstraction of cancellation.
- `Configure` (`irremote/sender.go:50-53`) is left out because it only configures hardware. The same goes for the 38 kHz modulation frequency it turns into a PWM period.
- `PWM.Channel(pin)` is left out: the channel lookup and the error it may return, which the source ignores. Every PWM write goes to the sender's one channel.
- `PWM.Top()` is left out: it is read from the config as a fixed 32-bit value, `pwmTop`, and is not queried from a peripheral.
- `time.Sleep` is recorded in the trace as `Sleep(units)` instead of blocking, and no real time passes.
- Durations are natural numbers of NEC units, not `time.Duration` nanoseconds in 64-bit integers. All durations are at most 192 units, so no bound is involved.
- Sender.SenderDevice.SendNECRawBytes: the method does not state that each mark blocks until the carrier has physically been on for its length. Only the order and the lengths of the requests are modelled.

## Notes

- The source's address split tests whether the high byte is zero. This is not the same as testing `address < 0x100`, but on 16-bit addresses the two agree, and `SplitNECAddress` is proved equal to the reference `SplitAddress` for every address.
- A valid raw code is not always resent byte for byte. `SendNECRawCode` decodes the code and then encodes it again. A raw code whose high address byte is 0, with a low byte other than 0xFF, takes the non-marker branch of `MakeNECAddress` (`irremote/proto_nec.go:64`) and resolves to the low byte alone. Splitting that address again puts the 8-bit marker in the high byte instead (`ResentBytesOfValidCode`, `ResentVector`).
- The carrier value `Top()*uint32(dc)/100` is formed in 32-bit arithmetic, and the model keeps that wrap-around (`DutyValue`). The value never exceeds Top. A product that wraps gives the wrong fraction of Top, though. For every duty cycle the product fits when Top is at most 42 949 672; above that, 100 % of Top 50 000 000 comes out as 7 050 327, about 14 % (`DutyValueBounds`, `DutyValueWraps`).
