/** The NEC transmission sequencer of irremote/sender.go.

    The PWM peripheral and the clock are replaced by a trace of what the
    sender asks of them: `PwmSet(v)` for a write of v to the PWM channel and
    `Sleep(d)` for a wait of d NEC units (one unit is 562.5 microseconds).
    A frame is specified as a sequence of intervals, marks (carrier on) and
    spaces (carrier off); `Rendered` says how a sequence of intervals turns
    into calls on the peripheral and the clock. */
module Sender {
  import NecCodec
  import opened IrRemoteNec

  datatype Option<T> = None | Some(value: T)

  /** A modulation duty cycle, in percent. */
  type DutyCycle = dc: int | 1 <= dc <= 100 witness 33

  /** An unsigned 32-bit value. */
  type Uint32 = x: nat | x < 0x1_0000_0000
  const Uint32Modulus: nat := 0x1_0000_0000

  /** What the sender is built from: the IR LED pin, the top value of the
      PWM counter and the requested duty cycle. */
  datatype SenderConfig = SenderConfig(pin: nat, pwmTop: Uint32, modulationDutyCycle: int)

  /** The duty cycle a sender uses: the requested one when it lies in
      1..100, and 33 otherwise. */
  function EffectiveDutyCycle(requested: int): (dc: DutyCycle)
    ensures dc == requested <==> 1 <= requested <= 100
    ensures dc != requested ==> dc == 33
  {
    if requested < 1 || requested > 100 then 33 else requested
  }

  /** The PWM value for duty cycle `dc` of counter top `top`: dc percent of
      top, rounded down, with the product formed in 32-bit arithmetic. It
      never exceeds `top`, wrapped or not. */
  function DutyValue(top: Uint32, dc: DutyCycle): (v: Uint32)
    ensures v <= top
  {
    QuotientBelowTop(top, dc);
    (top * dc) % Uint32Modulus / 100
  }

  /** The 32-bit product divided by 100 is at most `top`: unwrapped it is at
      most top * 100, and wrapped it is below 2^32, which top * dc then
      reaches. */
  lemma QuotientBelowTop(top: nat, dc: nat)
    requires top < Uint32Modulus && dc <= 100
    ensures (top * dc) % Uint32Modulus / 100 <= top
  {
    var product := top * dc;
    var v := product % Uint32Modulus / 100;
    ScaleBound(top, dc);
    QuotientBounds(product % Uint32Modulus, 100);
    SmallRemainder(product, Uint32Modulus);
    assert v * 100 <= product % Uint32Modulus;
    if product >= Uint32Modulus {
      assert product % Uint32Modulus < Uint32Modulus <= product <= top * 100;
    } else {
      assert product % Uint32Modulus == product <= top * 100;
    }
  }

  /** The duty value is the quotient by 100 of the 32-bit product, and at
      most `top` for every top and duty cycle. While the product fits it is
      dc percent of top, rounded down, and equal to top at 100 %; a product
      that wraps leaves only its remainder, so the carrier gets the wrong
      fraction of top, though never more than top. */
  lemma DutyValueBounds(top: Uint32, dc: DutyCycle)
    ensures var v := DutyValue(top, dc);
            v * 100 <= (top * dc) % Uint32Modulus < v * 100 + 100 && v <= top
    ensures var v := DutyValue(top, dc);
            top * dc < Uint32Modulus ==> v * 100 <= top * dc < v * 100 + 100
    ensures top * dc < Uint32Modulus && dc == 100 ==> DutyValue(top, dc) == top
  {
    var product := top * dc;
    ScaleBound(top, dc);
    QuotientBounds(product % Uint32Modulus, 100);
    SmallRemainder(product, Uint32Modulus);
  }

  lemma ScaleBound(top: nat, dc: nat)
    requires dc <= 100
    ensures top * dc <= top * 100
    ensures dc == 100 ==> top * dc == top * 100
  {
  }

  lemma SmallRemainder(x: nat, m: nat)
    requires m > 0
    ensures x < m ==> x % m == x
  {
  }

  lemma QuotientBounds(x: nat, d: nat)
    requires d > 0
    ensures x / d * d <= x < x / d * d + d
  {
  }

  /** Above a top of 42 949 672 the product wraps: at 100 % a top of
      50 000 000 gives 7 050 327 rather than the top itself. */
  lemma DutyValueWraps()
    ensures DutyValue(42_949_672, 100) == 42_949_672
    ensures DutyValue(50_000_000, 100) == 7_050_327
    ensures DutyValue(65_535, 33) == 21_626
  {
  }

  // ---------------------------------------------------------------------
  // Frames as intervals

  datatype Interval = Mark(units: nat) | Space(units: nat)

  /** Bit `i` of `b`, counting from the least significant bit. */
  predicate BitIsSet(b: bv8, i: nat)
    requires i < 8
  {
    (b >> i) & 1 == 1
  }

  /** The space that follows the mark of bit `i` of `b`. */
  function BitSpace(b: bv8, i: nat): nat
    requires i < 8
  {
    if BitIsSet(b, i) then Bit1Space else Bit0Space
  }

  /** Bits 0 .. n-1 of `b`, least significant first, each a mark and a space. */
  function BitIntervals(b: bv8, n: nat): (ivs: seq<Interval>)
    requires n <= 8
    ensures |ivs| == 2 * n
  {
    if n == 0 then [] else BitIntervals(b, n - 1) + [Mark(BitMark), Space(BitSpace(b, n - 1))]
  }

  /** All bits of the bytes `bs`, in order. */
  function DataIntervals(bs: seq<bv8>): (ivs: seq<Interval>)
    ensures |ivs| == 16 * |bs|
  {
    if bs == [] then [] else DataIntervals(bs[..|bs| - 1]) + BitIntervals(bs[|bs| - 1], 8)
  }

  function LeadIntervals(): seq<Interval>
  {
    [Mark(LeadMark), Space(LeadSpace)]
  }

  /** A data frame: lead mark and space, the data bits, the trail mark. */
  function FrameIntervals(bs: seq<bv8>): seq<Interval>
  {
    LeadIntervals() + DataIntervals(bs) + [Mark(TrailMark)]
  }

  /** A repeat frame: lead mark, the short repeat space, the trail mark. */
  function RepeatIntervals(): seq<Interval>
  {
    [Mark(LeadMark), Space(RepeatSpace), Mark(TrailMark)]
  }

  /** Total length of the intervals, in NEC units. */
  function Duration(ivs: seq<Interval>): nat
  {
    if ivs == [] then 0 else Duration(ivs[..|ivs| - 1]) + ivs[|ivs| - 1].units
  }

  function MarkCount(ivs: seq<Interval>): nat
  {
    if ivs == [] then 0 else MarkCount(ivs[..|ivs| - 1]) + if ivs[|ivs| - 1].Mark? then 1 else 0
  }

  function SpaceCount(ivs: seq<Interval>): nat
  {
    if ivs == [] then 0 else SpaceCount(ivs[..|ivs| - 1]) + if ivs[|ivs| - 1].Space? then 1 else 0
  }

  /** Number of set bits among bits 0 .. n-1 of `b`. */
  function BitsSet(b: bv8, n: nat): nat
    requires n <= 8
  {
    if n == 0 then 0 else BitsSet(b, n - 1) + if BitIsSet(b, n - 1) then 1 else 0
  }

  /** Number of set bits in all of `bs`. */
  function PopCount(bs: seq<bv8>): nat
  {
    if bs == [] then 0 else PopCount(bs[..|bs| - 1]) + BitsSet(bs[|bs| - 1], 8)
  }

  /** The shortest and the longest data frame, in NEC units. */
  const MinFrameDuration: nat := 89
  const MaxFrameDuration: nat := 153

  /** Wait before a repeat frame, once `txDuration` units of the repeat
      period have been spent transmitting. */
  function RepeatWait(txDuration: nat): (w: int)
    ensures txDuration + w == RepeatPeriod
    ensures w > 0 <==> txDuration < RepeatPeriod
  {
    RepeatPeriod - txDuration
  }

  // ---------------------------------------------------------------------
  // Intervals as calls on the peripheral and the clock

  datatype Event = PwmSet(value: nat) | Sleep(units: nat)

  /** A mark switches the carrier on with `on`, waits, and switches it off;
      a space only waits. */
  function RenderInterval(iv: Interval, on: nat): seq<Event>
  {
    match iv
    case Mark(d) => [PwmSet(on), Sleep(d), PwmSet(0)]
    case Space(d) => [Sleep(d)]
  }

  function Rendered(ivs: seq<Interval>, on: nat): seq<Event>
  {
    if ivs == [] then [] else Rendered(ivs[..|ivs| - 1], on) + RenderInterval(ivs[|ivs| - 1], on)
  }

  /** Total time slept, in NEC units. */
  function SleepTotal(evs: seq<Event>): nat
  {
    if evs == [] then 0
    else SleepTotal(evs[..|evs| - 1]) + match evs[|evs| - 1] case Sleep(d) => d case PwmSet(_) => 0
  }

  /** The last value written to the PWM channel, if any. */
  function LastPwm(evs: seq<Event>): Option<nat>
  {
    if evs == [] then None
    else match evs[|evs| - 1]
      case PwmSet(v) => Some(v)
      case Sleep(_) => LastPwm(evs[..|evs| - 1])
  }

  // ---------------------------------------------------------------------
  // Lemmas about intervals

  lemma DurationAppend(a: seq<Interval>, b: seq<Interval>)
    ensures Duration(a + b) == Duration(a) + Duration(b)
    decreases |b|
  {
    if b != [] {
      assert (a + b)[..|a + b| - 1] == a + b[..|b| - 1];
      DurationAppend(a, b[..|b| - 1]);
    } else {
      assert a + b == a;
    }
  }

  lemma MarkCountAppend(a: seq<Interval>, b: seq<Interval>)
    ensures MarkCount(a + b) == MarkCount(a) + MarkCount(b)
    ensures SpaceCount(a + b) == SpaceCount(a) + SpaceCount(b)
    decreases |b|
  {
    if b != [] {
      assert (a + b)[..|a + b| - 1] == a + b[..|b| - 1];
      MarkCountAppend(a, b[..|b| - 1]);
    } else {
      assert a + b == a;
    }
  }

  lemma RenderedAppend(a: seq<Interval>, b: seq<Interval>, on: nat)
    ensures Rendered(a + b, on) == Rendered(a, on) + Rendered(b, on)
    decreases |b|
  {
    if b != [] {
      assert (a + b)[..|a + b| - 1] == a + b[..|b| - 1];
      RenderedAppend(a, b[..|b| - 1], on);
    } else {
      assert a + b == a;
    }
  }

  lemma SleepTotalAppend(a: seq<Event>, b: seq<Event>)
    ensures SleepTotal(a + b) == SleepTotal(a) + SleepTotal(b)
    decreases |b|
  {
    if b != [] {
      assert (a + b)[..|a + b| - 1] == a + b[..|b| - 1];
      SleepTotalAppend(a, b[..|b| - 1]);
    } else {
      assert a + b == a;
    }
  }

  lemma LastPwmAppend(a: seq<Event>, b: seq<Event>)
    ensures LastPwm(a + b) == if LastPwm(b).None? then LastPwm(a) else LastPwm(b)
    decreases |b|
  {
    if b != [] {
      assert (a + b)[..|a + b| - 1] == a + b[..|b| - 1];
      LastPwmAppend(a, b[..|b| - 1]);
    } else {
      assert a + b == a;
    }
  }

  lemma RenderIntervalSleeps(iv: Interval, on: nat)
    ensures SleepTotal(RenderInterval(iv, on)) == iv.units
  {
    assert [PwmSet(on)][..0] == [] && [Sleep(iv.units)][..0] == [] && [PwmSet(0)][..0] == [];
    match iv
    case Mark(d) =>
      SleepTotalAppend([PwmSet(on)], [Sleep(d)]);
      assert [PwmSet(on)] + [Sleep(d)] == [PwmSet(on), Sleep(d)];
      SleepTotalAppend([PwmSet(on), Sleep(d)], [PwmSet(0)]);
      assert [PwmSet(on), Sleep(d)] + [PwmSet(0)] == [PwmSet(on), Sleep(d), PwmSet(0)];
    case Space(d) =>
  }

  /** The time the rendered events sleep is the duration of the intervals. */
  lemma {:induction false} RenderedSleepTotal(ivs: seq<Interval>, on: nat)
    ensures SleepTotal(Rendered(ivs, on)) == Duration(ivs)
  {
    if ivs != [] {
      var last := ivs[|ivs| - 1];
      RenderedSleepTotal(ivs[..|ivs| - 1], on);
      SleepTotalAppend(Rendered(ivs[..|ivs| - 1], on), RenderInterval(last, on));
      RenderIntervalSleeps(last, on);
    }
  }

  /** Each mark writes the carrier-on value and then 0, a space writes
      nothing: the events hold three per mark and one per space, every PWM
      write is `on` or 0, and the last write, if there is a mark, is 0. */
  lemma {:induction false} RenderedShape(ivs: seq<Interval>, on: nat)
    ensures |Rendered(ivs, on)| == 3 * MarkCount(ivs) + SpaceCount(ivs)
    ensures forall k :: 0 <= k < |Rendered(ivs, on)| && Rendered(ivs, on)[k].PwmSet? ==>
              Rendered(ivs, on)[k].value == on || Rendered(ivs, on)[k].value == 0
    ensures LastPwm(Rendered(ivs, on)) == if MarkCount(ivs) == 0 then None else Some(0)
  {
    if ivs != [] {
      var init, last := ivs[..|ivs| - 1], ivs[|ivs| - 1];
      RenderedShape(init, on);
      LastPwmAppend(Rendered(init, on), RenderInterval(last, on));
      match last
      case Mark(d) =>
        assert [PwmSet(on), Sleep(d), PwmSet(0)][..2] == [PwmSet(on), Sleep(d)];
      case Space(d) =>
        assert [Sleep(d)][..0] == [];
    }
  }

  /** Duration and counts of a single interval. */
  lemma SingleIntervalCounts(iv: Interval)
    ensures Duration([iv]) == iv.units
    ensures MarkCount([iv]) == (if iv.Mark? then 1 else 0)
    ensures SpaceCount([iv]) == (if iv.Space? then 1 else 0)
  {
    assert [iv][..0] == [];
  }

  /** Duration and counts of two consecutive intervals. */
  lemma TwoIntervalCounts(a: Interval, b: Interval)
    ensures Duration([a, b]) == a.units + b.units
    ensures MarkCount([a, b]) == MarkCount([a]) + MarkCount([b])
    ensures SpaceCount([a, b]) == SpaceCount([a]) + SpaceCount([b])
  {
    assert [a, b] == [a] + [b];
    DurationAppend([a], [b]);
    MarkCountAppend([a], [b]);
    SingleIntervalCounts(a);
    SingleIntervalCounts(b);
  }

  /** Whatever was emitted before, a rendering that holds a mark leaves
      the carrier off. */
  lemma LeavesCarrierOff(before: seq<Event>, ivs: seq<Interval>, on: nat)
    requires MarkCount(ivs) > 0
    ensures LastPwm(before + Rendered(ivs, on)) == Some(0)
  {
    RenderedShape(ivs, on);
    LastPwmAppend(before, Rendered(ivs, on));
  }

  lemma FrameLeavesCarrierOff(before: seq<Event>, bs: seq<bv8>, on: nat)
    requires |bs| == 4
    ensures LastPwm(before + Rendered(FrameIntervals(bs), on)) == Some(0)
  {
    FrameCounts(bs);
    LeavesCarrierOff(before, FrameIntervals(bs), on);
  }

  lemma {:induction false} BitsSetBound(b: bv8, n: nat)
    requires n <= 8
    ensures BitsSet(b, n) <= n
  {
    if n > 0 {
      BitsSetBound(b, n - 1);
    }
  }

  lemma {:induction false} PopCountBound(bs: seq<bv8>)
    ensures PopCount(bs) <= 8 * |bs|
  {
    if bs != [] {
      PopCountBound(bs[..|bs| - 1]);
      BitsSetBound(bs[|bs| - 1], 8);
    }
  }

  /** Each bit costs its mark and a space of 1 or 3 units. */
  lemma {:induction false} BitIntervalsDuration(b: bv8, n: nat)
    requires n <= 8
    ensures Duration(BitIntervals(b, n)) == 2 * n + 2 * BitsSet(b, n)
    ensures MarkCount(BitIntervals(b, n)) == n && SpaceCount(BitIntervals(b, n)) == n
  {
    if n > 0 {
      var bit := [Mark(BitMark), Space(BitSpace(b, n - 1))];
      BitIntervalsDuration(b, n - 1);
      DurationAppend(BitIntervals(b, n - 1), bit);
      MarkCountAppend(BitIntervals(b, n - 1), bit);
      TwoIntervalCounts(Mark(BitMark), Space(BitSpace(b, n - 1)));
      SingleIntervalCounts(Mark(BitMark));
      SingleIntervalCounts(Space(BitSpace(b, n - 1)));
    }
  }

  lemma {:induction false} DataIntervalsDuration(bs: seq<bv8>)
    ensures Duration(DataIntervals(bs)) == 16 * |bs| + 2 * PopCount(bs)
    ensures MarkCount(DataIntervals(bs)) == 8 * |bs| && SpaceCount(DataIntervals(bs)) == 8 * |bs|
  {
    if bs != [] {
      var init, last := bs[..|bs| - 1], bs[|bs| - 1];
      DataIntervalsDuration(init);
      BitIntervalsDuration(last, 8);
      DurationAppend(DataIntervals(init), BitIntervals(last, 8));
      MarkCountAppend(DataIntervals(init), BitIntervals(last, 8));
    }
  }

  /** A data frame lasts 89 units plus two for every set bit. */
  lemma FrameDuration(bs: seq<bv8>)
    requires |bs| == 4
    ensures Duration(FrameIntervals(bs)) == MinFrameDuration + 2 * PopCount(bs)
  {
    DataIntervalsDuration(bs);
    DurationAppend(LeadIntervals(), DataIntervals(bs));
    DurationAppend(LeadIntervals() + DataIntervals(bs), [Mark(TrailMark)]);
    TwoIntervalCounts(Mark(LeadMark), Space(LeadSpace));
    SingleIntervalCounts(Mark(TrailMark));
  }

  /** The time a rendered data frame sleeps, the sum of its intervals, is
      89 units plus two for every set bit of its bytes. */
  lemma FrameSleepTotal(bs: seq<bv8>, on: nat)
    requires |bs| == 4
    ensures SleepTotal(Rendered(FrameIntervals(bs), on)) == Duration(FrameIntervals(bs))
    ensures Duration(FrameIntervals(bs)) == MinFrameDuration + 2 * PopCount(bs)
  {
    RenderedSleepTotal(FrameIntervals(bs), on);
    FrameDuration(bs);
  }

  /** A data frame lasts 89 to 153 units, less than the 192-unit repeat
      period, so the wait before the first repeat is positive. */
  lemma FrameDurationBounds(bs: seq<bv8>)
    requires |bs| == 4
    ensures MinFrameDuration <= Duration(FrameIntervals(bs)) <= MaxFrameDuration < RepeatPeriod
    ensures 39 <= RepeatWait(Duration(FrameIntervals(bs))) <= 103
  {
    FrameDuration(bs);
    PopCountBound(bs);
  }

  /** A data frame is 34 marks and 33 spaces. */
  lemma FrameCounts(bs: seq<bv8>)
    requires |bs| == 4
    ensures |FrameIntervals(bs)| == 67
    ensures MarkCount(FrameIntervals(bs)) == 34 && SpaceCount(FrameIntervals(bs)) == 33
  {
    DataIntervalsDuration(bs);
    MarkCountAppend(LeadIntervals(), DataIntervals(bs));
    MarkCountAppend(LeadIntervals() + DataIntervals(bs), [Mark(TrailMark)]);
    TwoIntervalCounts(Mark(LeadMark), Space(LeadSpace));
    SingleIntervalCounts(Mark(LeadMark));
    SingleIntervalCounts(Space(LeadSpace));
    SingleIntervalCounts(Mark(TrailMark));
  }

  lemma {:induction false} BitIntervalsAt(b: bv8, n: nat, i: nat)
    requires i < n <= 8
    ensures BitIntervals(b, n)[2 * i] == Mark(BitMark)
    ensures BitIntervals(b, n)[2 * i + 1] == Space(BitSpace(b, i))
  {
    if i < n - 1 {
      BitIntervalsAt(b, n - 1, i);
    }
  }

  lemma {:induction false} DataIntervalsAt(bs: seq<bv8>, j: nat, i: nat)
    requires j < |bs| && i < 8
    ensures DataIntervals(bs)[16 * j + 2 * i] == Mark(BitMark)
    ensures DataIntervals(bs)[16 * j + 2 * i + 1] == Space(BitSpace(bs[j], i))
  {
    var init := bs[..|bs| - 1];
    if j < |bs| - 1 {
      DataIntervalsAt(init, j, i);
    } else {
      BitIntervalsAt(bs[j], 8, i);
    }
  }

  /** The exact interval sequence of a data frame: lead mark and space, then
      for bit i of byte j a bit mark followed by the space for that bit, then
      the trail mark. */
  lemma FrameIntervalsAt(bs: seq<bv8>, j: nat, i: nat)
    requires |bs| == 4 && j < 4 && i < 8
    ensures FrameIntervals(bs)[0] == Mark(LeadMark) && FrameIntervals(bs)[1] == Space(LeadSpace)
    ensures FrameIntervals(bs)[2 + 16 * j + 2 * i] == Mark(BitMark)
    ensures FrameIntervals(bs)[3 + 16 * j + 2 * i] == Space(BitSpace(bs[j], i))
    ensures FrameIntervals(bs)[66] == Mark(TrailMark)
  {
    DataIntervalsAt(bs, j, i);
  }

  /** The mask the source tests bit `i` with: a one shifted into place. */
  function BitMask(i: nat): (m: bv8)
    requires i < 8
    ensures BitIsSet(m, i)
    ensures forall j: nat :: j < 8 && j != i ==> !BitIsSet(m, j)
  {
    1 << i
  }

  /** The source's bit test reads the same bit as BitIsSet. */
  lemma MaskTest(b: bv8, i: nat)
    requires i < 8
    ensures b & BitMask(i) == 0 <==> !BitIsSet(b, i)
  {
  }

  /** After all eight bits of byte k, the first k + 1 bytes are sent. */
  lemma ByteStep(bs: seq<bv8>, k: nat)
    requires k < |bs|
    ensures LeadIntervals() + DataIntervals(bs[..k]) + BitIntervals(bs[k], 8) ==
            LeadIntervals() + DataIntervals(bs[..k + 1])
  {
    assert bs[..k + 1][..k] == bs[..k];
  }

  /** A repeat frame lasts 21 units, leaving 171 until the next one. */
  lemma RepeatFrameTiming()
    ensures Duration(RepeatIntervals()) == 21
    ensures RepeatWait(Duration(RepeatIntervals())) == 171
    ensures MarkCount(RepeatIntervals()) == 2 && SpaceCount(RepeatIntervals()) == 1
  {
    var lead := [Mark(LeadMark), Space(RepeatSpace)];
    assert RepeatIntervals() == lead + [Mark(TrailMark)];
    DurationAppend(lead, [Mark(TrailMark)]);
    MarkCountAppend(lead, [Mark(TrailMark)]);
    TwoIntervalCounts(Mark(LeadMark), Space(RepeatSpace));
    SingleIntervalCounts(Mark(LeadMark));
    SingleIntervalCounts(Space(RepeatSpace));
    SingleIntervalCounts(Mark(TrailMark));
  }

  // ---------------------------------------------------------------------
  // Raw codes

  /** The bytes SendNECRawCode transmits for a raw code: the decoded address
      split again, then the decoded command and its complement. */
  function ResentBytes(data: bv32): (bs: seq<bv8>)
    ensures |bs| == 4 && bs[2] == NecCodec.Decode(data).command && bs[3] == !bs[2]
  {
    var decoded := NecCodec.Decode(data);
    var (low, high) := NecCodec.SplitAddress(decoded.address);
    [low, high, decoded.command, !decoded.command]
  }

  /** A valid raw code is sent as its own bytes, except that a zero high
      address byte that is not the 8-bit marker is replaced by the marker. */
  lemma ResentBytesOfValidCode(data: bv32)
    requires NecCodec.Decode(data).valid
    ensures var raw := NecCodec.RawBytes(data);
            ResentBytes(data) ==
            [raw[0], if raw[1] == 0 && raw[0] != 0xFF then !raw[0] else raw[1], raw[2], raw[3]]
    ensures var raw := NecCodec.RawBytes(data);
            ResentBytes(data) == raw <==> !(raw[1] == 0 && raw[0] != 0xFF)
  {
    var raw := NecCodec.RawBytes(data);
    NecCodec.SplitOfJoin(raw[0], raw[1]);
  }

  /** Resending keeps the meaning of a code: the resent bytes form a valid
      code with the decoded address and command of the original, valid or
      not. */
  lemma ResentBytesDecode(data: bv32)
    ensures NecCodec.Decode(NecCodec.Pack(ResentBytes(data))) ==
            NecCodec.Decoded(true, NecCodec.Decode(data).address, NecCodec.Decode(data).command)
  {
    var decoded := NecCodec.Decode(data);
    var raw := NecCodec.RawBytes(data);
    NecCodec.RawBytesOfPack(ResentBytes(data));
    NecCodec.JoinAddressBytes(raw[0], raw[1]);
    NecCodec.AddressRoundTrip(decoded.address);
  }

  /** A code built by MakeRawNECData is resent unchanged. */
  lemma ResentBytesOfEncoded(address: bv16, command: bv8)
    ensures ResentBytes(NecCodec.Encode(address, command)) ==
            NecCodec.RawBytes(NecCodec.Encode(address, command))
  {
    NecCodec.EncodeBytes(address, command);
    NecCodec.EncodeIsValid(address, command);
    ResentBytesOfValidCode(NecCodec.Encode(address, command));
  }

  /** Raw code 0xFF000012 (address bytes 0x12 and 0x00) goes out with high
      byte 0xED. */
  lemma ResentVector()
    ensures NecCodec.RawBytes(0xFF000012) == [0x12, 0x00, 0x00, 0xFF]
    ensures ResentBytes(0xFF000012) == [0x12, 0xED, 0x00, 0xFF]
  {
  }

  /** Appends interval `iv` to the intervals `sent` already rendered on
      the trace. */
  lemma RenderStep(start: seq<Event>, sent: seq<Interval>, iv: Interval, on: nat)
    ensures start + Rendered(sent, on) + RenderInterval(iv, on) == start + Rendered(sent + [iv], on)
  {
    RenderedAppend(sent, [iv], on);
    assert [iv][..0] == [];
  }

  /** Two intervals rendered one after the other. */
  lemma RenderTwo(start: seq<Event>, a: Interval, b: Interval, on: nat)
    ensures start + RenderInterval(a, on) + RenderInterval(b, on) == start + Rendered([a, b], on)
  {
    RenderStep(start, [], a, on);
    assert [] + [a] == [a];
    RenderStep(start, [a], b, on);
    assert [a] + [b] == [a, b];
  }

  /** Three intervals rendered one after the other. */
  lemma RenderThree(start: seq<Event>, a: Interval, b: Interval, c: Interval, on: nat)
    ensures start + RenderInterval(a, on) + RenderInterval(b, on) + RenderInterval(c, on)
            == start + Rendered([a, b, c], on)
  {
    RenderTwo(start, a, b, on);
    RenderStep(start, [a, b], c, on);
    assert [a, b] + [c] == [a, b, c];
  }

  /** Sending bit i of b extends the trace and the duration by that bit. */
  lemma BitStep(start: seq<Event>, sent: seq<Interval>, b: bv8, i: nat, on: nat)
    requires i < 8
    ensures start + Rendered(sent + BitIntervals(b, i), on) + RenderInterval(Mark(BitMark), on)
              + RenderInterval(Space(BitSpace(b, i)), on)
            == start + Rendered(sent + BitIntervals(b, i + 1), on)
    ensures Duration(sent + BitIntervals(b, i + 1)) == Duration(sent + BitIntervals(b, i)) + BitMark + BitSpace(b, i)
  {
    var before := sent + BitIntervals(b, i);
    var bit := [Mark(BitMark), Space(BitSpace(b, i))];
    RenderStep(start, before, Mark(BitMark), on);
    RenderStep(start, before + [Mark(BitMark)], Space(BitSpace(b, i)), on);
    assert sent + BitIntervals(b, i + 1) == before + [Mark(BitMark)] + [Space(BitSpace(b, i))];
    assert before + bit == before + [Mark(BitMark)] + [Space(BitSpace(b, i))];
    DurationAppend(before, bit);
    TwoIntervalCounts(Mark(BitMark), Space(BitSpace(b, i)));
  }

  // ---------------------------------------------------------------------
  // The sender

  class SenderDevice {
    const pin: nat
    const pwmTop: Uint32
    const pwmDC: DutyCycle
    /** Everything this sender has asked of the PWM channel and the clock. */
    var trace: seq<Event>
    /** Whether an auto-repeat session is running: the source's repeat
        channel is open or not yet cleared. */
    var repeatActive: bool

    constructor NewSender(config: SenderConfig)
      ensures pin == config.pin && pwmTop == config.pwmTop
      ensures pwmDC == EffectiveDutyCycle(config.modulationDutyCycle)
      ensures trace == [] && !repeatActive
    {
      pin := config.pin;
      pwmTop := config.pwmTop;
      pwmDC := EffectiveDutyCycle(config.modulationDutyCycle);
      trace := [];
      repeatActive := false;
    }

    /** Ends any auto-repeat session before returning; with no session it
        does nothing. */
    method WaitForAutoRepeatCancel()
      modifies this
      ensures !repeatActive && trace == old(trace)
    {
      if repeatActive {
        repeatActive := false;
      }
    }

    /** Cancels the auto-repeat codes started by SendNEC. */
    method StopNECRepeats()
      modifies this
      ensures !repeatActive && trace == old(trace)
    {
      WaitForAutoRepeatCancel();
    }

    /** The PWM value that turns the carrier on at this sender's duty
        cycle; it never exceeds the counter top. */
    function CarrierOn(): (v: Uint32)
      ensures v <= pwmTop
    {
      DutyValue(pwmTop, pwmDC)
    }

    method EmitMark(units: nat)
      modifies this
      ensures trace == old(trace) + RenderInterval(Mark(units), CarrierOn())
      ensures repeatActive == old(repeatActive)
    {
      trace := trace + [PwmSet(CarrierOn())];
      trace := trace + [Sleep(units)];
      trace := trace + [PwmSet(0)];
    }

    method EmitSpace(units: nat)
      modifies this
      ensures trace == old(trace) + RenderInterval(Space(units), CarrierOn())
      ensures repeatActive == old(repeatActive)
    {
      trace := trace + [Sleep(units)];
    }

    method SendNECRawBytes(addrLow: bv8, addrHigh: bv8, cmd: bv8, invCmd: bv8) returns (txDuration: nat)
      modifies this
      ensures trace == old(trace) + Rendered(FrameIntervals([addrLow, addrHigh, cmd, invCmd]), CarrierOn())
      ensures txDuration == Duration(FrameIntervals([addrLow, addrHigh, cmd, invCmd]))
      ensures txDuration == MinFrameDuration + 2 * PopCount([addrLow, addrHigh, cmd, invCmd])
      ensures LastPwm(trace) == Some(0)
      ensures !repeatActive
    {
      WaitForAutoRepeatCancel();
      var bytesToSend := [addrLow, addrHigh, cmd, invCmd];
      var on := CarrierOn();
      ghost var start := trace;
      txDuration := LeadMark + LeadSpace + 32 * BitMark + TrailMark;

      EmitMark(LeadMark);
      EmitSpace(LeadSpace);
      assert trace == start + Rendered(LeadIntervals() + DataIntervals(bytesToSend[..0]), on) by {
        RenderTwo(start, Mark(LeadMark), Space(LeadSpace), on);
        assert bytesToSend[..0] == [];
        assert LeadIntervals() + DataIntervals([]) == [Mark(LeadMark), Space(LeadSpace)];
      }
      assert Duration(LeadIntervals() + DataIntervals(bytesToSend[..0])) == LeadMark + LeadSpace by {
        assert bytesToSend[..0] == [];
        assert LeadIntervals() + DataIntervals([]) == [Mark(LeadMark), Space(LeadSpace)];
        TwoIntervalCounts(Mark(LeadMark), Space(LeadSpace));
      }

      for k := 0 to 4
        invariant trace == start + Rendered(LeadIntervals() + DataIntervals(bytesToSend[..k]), on)
        invariant !repeatActive
        invariant txDuration ==
                  Duration(LeadIntervals() + DataIntervals(bytesToSend[..k])) + (32 - 8 * k) * BitMark + TrailMark
      {
        var b := bytesToSend[k];
        ghost var sent := LeadIntervals() + DataIntervals(bytesToSend[..k]);
        assert sent + BitIntervals(b, 0) == sent;
        for i := 0 to 8
          invariant trace == start + Rendered(sent + BitIntervals(b, i), on)
          invariant !repeatActive
          invariant txDuration == Duration(sent + BitIntervals(b, i)) + (32 - 8 * k - i) * BitMark + TrailMark
        {
          ghost var before := trace;
          ghost var beforeDuration := txDuration;
          var mask := BitMask(i);
          EmitMark(BitMark);
          if b & mask == 0 {
            EmitSpace(Bit0Space);
            txDuration := txDuration + Bit0Space;
          } else {
            EmitSpace(Bit1Space);
            txDuration := txDuration + Bit1Space;
          }
          assert trace == before + RenderInterval(Mark(BitMark), on) + RenderInterval(Space(BitSpace(b, i)), on)
              && txDuration == beforeDuration + BitSpace(b, i) by {
            MaskTest(b, i);
          }
          assert trace == start + Rendered(sent + BitIntervals(b, i + 1), on)
              && txDuration == Duration(sent + BitIntervals(b, i + 1)) + (32 - 8 * k - (i + 1)) * BitMark + TrailMark by {
            BitStep(start, sent, b, i, on);
          }
        }
        assert sent + BitIntervals(b, 8) == LeadIntervals() + DataIntervals(bytesToSend[..k + 1]) by {
          ByteStep(bytesToSend, k);
        }
      }

      EmitMark(TrailMark);
      assert trace == start + Rendered(FrameIntervals(bytesToSend), on)
          && txDuration == Duration(FrameIntervals(bytesToSend)) by {
        assert bytesToSend[..4] == bytesToSend;
        var frame := LeadIntervals() + DataIntervals(bytesToSend);
        RenderStep(start, frame, Mark(TrailMark), on);
        DurationAppend(frame, [Mark(TrailMark)]);
        SingleIntervalCounts(Mark(TrailMark));
      }
      FrameLeavesCarrierOff(start, bytesToSend, on);
      FrameDuration(bytesToSend);
    }

    /** Sends a repeat code and returns the time it took. */
    method SendNECRepeat() returns (txDuration: nat)
      modifies this
      ensures trace == old(trace) + Rendered(RepeatIntervals(), CarrierOn())
      ensures txDuration == Duration(RepeatIntervals())
      ensures LastPwm(trace) == Some(0)
      ensures repeatActive == old(repeatActive)
    {
      var on := CarrierOn();
      ghost var start := trace;
      EmitMark(LeadMark);
      EmitSpace(RepeatSpace);
      EmitMark(TrailMark);
      txDuration := LeadMark + RepeatSpace + TrailMark;
      assert trace == start + Rendered(RepeatIntervals(), on) by {
        RenderThree(start, Mark(LeadMark), Space(RepeatSpace), Mark(TrailMark), on);
      }
      assert txDuration == Duration(RepeatIntervals()) && LastPwm(trace) == Some(0) by {
        RepeatFrameTiming();
        LeavesCarrierOff(start, RepeatIntervals(), on);
      }
    }

    /** Sends an address and a command as one data frame, exactly the
        frame of the raw code MakeRawNECData builds for them, and with
        `autoRepeat` leaves a repeat session running. The repeat frames that
        session sends are not part of the trace. */
    method SendNEC(address: bv16, command: bv8, autoRepeat: bool)
      modifies this
      ensures trace == old(trace) +
              Rendered(FrameIntervals(NecCodec.RawBytes(NecCodec.Encode(address, command))), CarrierOn())
      ensures LastPwm(trace) == Some(0)
      ensures repeatActive == autoRepeat
    {
      var (addrLow, addrHigh) := SplitNECAddress(address);
      var dataTxDuration := SendNECRawBytes(addrLow, addrHigh, command, !command);
      NecCodec.EncodeBytes(address, command);
      if autoRepeat {
        repeatActive := true;
      }
    }

    /** Sends a raw code. An invalid code returns 0 and leaves the trace
        untouched; a valid one is sent as `ResentBytes(data)` and takes at
        least 89 units. */
    method SendNECRawCode(data: bv32) returns (txDuration: nat)
      modifies this
      ensures !NecCodec.Decode(data).valid ==>
              txDuration == 0 && trace == old(trace) && repeatActive == old(repeatActive)
      ensures NecCodec.Decode(data).valid ==>
              && trace == old(trace) + Rendered(FrameIntervals(ResentBytes(data)), CarrierOn())
              && txDuration == Duration(FrameIntervals(ResentBytes(data)))
              && MinFrameDuration <= txDuration <= MaxFrameDuration
              && LastPwm(trace) == Some(0)
              && !repeatActive
    {
      var decoded := SplitRawNECData(data);
      if !decoded.valid {
        return 0;
      }
      var (addrLow, addrHigh) := SplitNECAddress(decoded.address);
      ghost var resent := ResentBytes(data);
      assert resent == [addrLow, addrHigh, decoded.command, !decoded.command];
      txDuration := SendNECRawBytes(addrLow, addrHigh, decoded.command, !decoded.command);
      FrameDurationBounds(resent);
    }
  }
}
