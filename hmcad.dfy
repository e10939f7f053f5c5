// The register map of the HMCAD1511 ADC (casperfpga/src/yellow_blocks/snapadc/hmcad1511.rs):
// each register has a fixed 8-bit address and packs into a 16-bit word (2 bytes, `lsb0`
// numbering: bit 0 is the least significant bit of the second byte). Enumerations pack as
// their discriminants, flags as one bit, arrays of flags as a field whose most significant
// bit is element 0, and the fine-gain and full-scale fields as two's complement.
module Hmcad1511 {
  import opened Wrappers
  import opened Bytes
  import opened Bits

  // ---------------------------------------------------------------------------
  // Enumerations and their codes
  // ---------------------------------------------------------------------------

  /** `PdPinCfg`: the function of the PD pin. */
  datatype PdPinCfg = SleepChannel | DeepSleep | PowerDown

  function PdPinCfgCode(c: PdPinCfg): (code: nat)
    ensures code < 4
  {
    match c
    case SleepChannel => 1
    case DeepSleep => 2
    case PowerDown => 0
  }

  /** `from_primitive`: the PdPinCfg with a discriminant, if any. */
  function PdPinCfgFromCode(c: nat): (r: Option<PdPinCfg>)
    ensures r.Some? ==> PdPinCfgCode(r.value) == c
    ensures forall x {:trigger PdPinCfgCode(x)} :: PdPinCfgCode(x) == c ==> r == Some(x)
  {
    match c
    case 1 => Some(SleepChannel)
    case 2 => Some(DeepSleep)
    case 0 => Some(PowerDown)
    case _ => None
  }

  /** `LvdsDriveStrength`: 3.5, 2.5, 1.5, 0.5, 7.5, 6.5, 5.5 and 4.5 mA. */
  datatype LvdsDriveStrength = Ma3p5 | Ma2p5 | Ma1p5 | Ma0p5 | Ma7p5 | Ma6p5 | Ma5p5 | Ma4p5

  function DriveCode(d: LvdsDriveStrength): (code: nat)
    ensures code < 8
  {
    match d
    case Ma3p5 => 0
    case Ma2p5 => 1
    case Ma1p5 => 2
    case Ma0p5 => 3
    case Ma7p5 => 4
    case Ma6p5 => 5
    case Ma5p5 => 6
    case Ma4p5 => 7
  }

  /** `from_primitive`: the LvdsDriveStrength with a discriminant, if any. */
  function DriveFromCode(c: nat): (r: Option<LvdsDriveStrength>)
    ensures r.Some? ==> DriveCode(r.value) == c
    ensures forall x {:trigger DriveCode(x)} :: DriveCode(x) == c ==> r == Some(x)
  {
    match c
    case 0 => Some(Ma3p5)
    case 1 => Some(Ma2p5)
    case 2 => Some(Ma1p5)
    case 3 => Some(Ma0p5)
    case 4 => Some(Ma7p5)
    case 5 => Some(Ma6p5)
    case 6 => Some(Ma5p5)
    case 7 => Some(Ma4p5)
    case _ => None
  }

  /** `LvdsTermination`: disabled, or 260, 150, 94, 125, 80, 66 or 55 ohms. */
  datatype LvdsTermination = TermDisabled | Ohm260 | Ohm150 | Ohm94 | Ohm125 | Ohm80 | Ohm66 | Ohm55

  function TerminationCode(t: LvdsTermination): (code: nat)
    ensures code < 8
  {
    match t
    case TermDisabled => 0
    case Ohm260 => 1
    case Ohm150 => 2
    case Ohm94 => 3
    case Ohm125 => 4
    case Ohm80 => 5
    case Ohm66 => 6
    case Ohm55 => 7
  }

  /** `from_primitive`: the LvdsTermination with a discriminant, if any. */
  function TerminationFromCode(c: nat): (r: Option<LvdsTermination>)
    ensures r.Some? ==> TerminationCode(r.value) == c
    ensures forall x {:trigger TerminationCode(x)} :: TerminationCode(x) == c ==> r == Some(x)
  {
    match c
    case 0 => Some(TermDisabled)
    case 1 => Some(Ohm260)
    case 2 => Some(Ohm150)
    case 3 => Some(Ohm94)
    case 4 => Some(Ohm125)
    case 5 => Some(Ohm80)
    case 6 => Some(Ohm66)
    case 7 => Some(Ohm55)
    case _ => None
  }

  /** `Pattern`: the test pattern output. */
  datatype Pattern = PatternDisabled | Ramp | DualCustom | SingleCustom

  function PatternCode(p: Pattern): (code: nat)
    ensures code < 8
  {
    match p
    case PatternDisabled => 0
    case Ramp => 0x4
    case DualCustom => 0x2
    case SingleCustom => 0x1
  }

  /** `from_primitive`: the Pattern with a discriminant, if any. */
  function PatternFromCode(c: nat): (r: Option<Pattern>)
    ensures r.Some? ==> PatternCode(r.value) == c
    ensures forall x {:trigger PatternCode(x)} :: PatternCode(x) == c ==> r == Some(x)
  {
    match c
    case 0 => Some(PatternDisabled)
    case 0x4 => Some(Ramp)
    case 0x2 => Some(DualCustom)
    case 0x1 => Some(SingleCustom)
    case _ => None
  }

  /** `CoarseGain`: 0 to 12 dB, and the 50x setting. */
  datatype CoarseGain = Db0 | Db1 | Db2 | Db3 | Db4 | Db5 | Db6 | Db7 | Db8 | Db9 | Db10 | Db11 | Db12 | X50

  function CoarseGainCode(g: CoarseGain): (code: nat)
    ensures code < 16
  {
    match g
    case Db0 => 0
    case Db1 => 1
    case Db2 => 2
    case Db3 => 3
    case Db4 => 4
    case Db5 => 5
    case Db6 => 6
    case Db7 => 7
    case Db8 => 8
    case Db9 => 9
    case Db10 => 10
    case Db11 => 11
    case Db12 => 12
    case X50 => 13
  }

  /** `from_primitive`: the CoarseGain with a discriminant, if any. */
  function CoarseGainFromCode(c: nat): (r: Option<CoarseGain>)
    ensures r.Some? ==> CoarseGainCode(r.value) == c
    ensures forall x {:trigger CoarseGainCode(x)} :: CoarseGainCode(x) == c ==> r == Some(x)
  {
    match c
    case 0 => Some(Db0)
    case 1 => Some(Db1)
    case 2 => Some(Db2)
    case 3 => Some(Db3)
    case 4 => Some(Db4)
    case 5 => Some(Db5)
    case 6 => Some(Db6)
    case 7 => Some(Db7)
    case 8 => Some(Db8)
    case 9 => Some(Db9)
    case 10 => Some(Db10)
    case 11 => Some(Db11)
    case 12 => Some(Db12)
    case 13 => Some(X50)
    case _ => None
  }

  /** `Jitter`: the clock stopped (`_0`), or settings 1 to 8 (1 mA to 8 mA). */
  datatype Jitter = J0 | J1 | J2 | J3 | J4 | J5 | J6 | J7 | J8

  function JitterCode(j: Jitter): (code: nat)
    ensures code < 256
  {
    match j
    case J0 => 0x00
    case J1 => 0x01
    case J2 => 0x03
    case J3 => 0x07
    case J4 => 0x0F
    case J5 => 0x1F
    case J6 => 0x3F
    case J7 => 0x7F
    case J8 => 0xFF
  }

  /** `from_primitive`: the Jitter with a discriminant, if any. */
  function JitterFromCode(c: nat): (r: Option<Jitter>)
    ensures r.Some? ==> JitterCode(r.value) == c
    ensures forall x {:trigger JitterCode(x)} :: JitterCode(x) == c ==> r == Some(x)
  {
    match c
    case 0x00 => Some(J0)
    case 0x01 => Some(J1)
    case 0x03 => Some(J2)
    case 0x07 => Some(J3)
    case 0x0F => Some(J4)
    case 0x1F => Some(J5)
    case 0x3F => Some(J6)
    case 0x7F => Some(J7)
    case 0xFF => Some(J8)
    case _ => None
  }

  /** The number in a `Jitter` variant's name. */
  function JitterLevel(j: Jitter): nat {
    match j
    case J0 => 0
    case J1 => 1
    case J2 => 2
    case J3 => 3
    case J4 => 4
    case J5 => 5
    case J6 => 6
    case J7 => 7
    case J8 => 8
  }

  /** `ChannelNum`: one, two or four channels. */
  datatype ChannelNum = Single | Dual | Quad

  function ChannelNumCode(c: ChannelNum): (code: nat)
    ensures code < 8
  {
    match c
    case Single => 0x1
    case Dual => 0x2
    case Quad => 0x4
  }

  /** `from_primitive`: the ChannelNum with a discriminant, if any. */
  function ChannelNumFromCode(c: nat): (r: Option<ChannelNum>)
    ensures r.Some? ==> ChannelNumCode(r.value) == c
    ensures forall x {:trigger ChannelNumCode(x)} :: ChannelNumCode(x) == c ==> r == Some(x)
  {
    match c
    case 0x1 => Some(Single)
    case 0x2 => Some(Dual)
    case 0x4 => Some(Quad)
    case _ => None
  }

  /** The number of channels of a `ChannelNum`. */
  function Channels(c: ChannelNum): nat {
    match c
    case Single => 1
    case Dual => 2
    case Quad => 4
  }

  /** `ClockDivide`: the input clock divided by 1, 2, 4 or 8. */
  datatype ClockDivide = Div1 | Div2 | Div4 | Div8

  function ClockDivideCode(c: ClockDivide): (code: nat)
    ensures code < 4
  {
    match c
    case Div1 => 0
    case Div2 => 1
    case Div4 => 2
    case Div8 => 3
  }

  /** `from_primitive`: the ClockDivide with a discriminant, if any. */
  function ClockDivideFromCode(c: nat): (r: Option<ClockDivide>)
    ensures r.Some? ==> ClockDivideCode(r.value) == c
    ensures forall x {:trigger ClockDivideCode(x)} :: ClockDivideCode(x) == c ==> r == Some(x)
  {
    match c
    case 0 => Some(Div1)
    case 1 => Some(Div2)
    case 2 => Some(Div4)
    case 3 => Some(Div8)
    case _ => None
  }

  /** `InputSelect`: the cross-point switch input IP1/IN1 to IP4/IN4. */
  datatype InputSelect = In1 | In2 | In3 | In4

  function InputSelectCode(i: InputSelect): (code: nat)
    ensures code < 32
  {
    match i
    case In1 => 0x02
    case In2 => 0x04
    case In3 => 0x08
    case In4 => 0x10
  }

  /** `from_primitive`: the InputSelect with a discriminant, if any. */
  function InputSelectFromCode(c: nat): (r: Option<InputSelect>)
    ensures r.Some? ==> InputSelectCode(r.value) == c
    ensures forall x {:trigger InputSelectCode(x)} :: InputSelectCode(x) == c ==> r == Some(x)
  {
    match c
    case 0x02 => Some(In1)
    case 0x04 => Some(In2)
    case 0x08 => Some(In3)
    case 0x10 => Some(In4)
    case _ => None
  }

  /** The input number of an `InputSelect`. */
  function InputNumber(i: InputSelect): nat {
    match i
    case In1 => 1
    case In2 => 2
    case In3 => 3
    case In4 => 4
  }

  /** `PhaseDdr`: the LCLK phase, in degrees. */
  datatype PhaseDdr = Deg90 | Deg270 | Deg180 | Deg0

  function PhaseDdrCode(p: PhaseDdr): (code: nat)
    ensures code < 4
  {
    match p
    case Deg90 => 2
    case Deg270 => 0
    case Deg180 => 1
    case Deg0 => 3
  }

  /** `from_primitive`: the PhaseDdr with a discriminant, if any. */
  function PhaseDdrFromCode(c: nat): (r: Option<PhaseDdr>)
    ensures r.Some? ==> PhaseDdrCode(r.value) == c
    ensures forall x {:trigger PhaseDdrCode(x)} :: PhaseDdrCode(x) == c ==> r == Some(x)
  {
    match c
    case 2 => Some(Deg90)
    case 0 => Some(Deg270)
    case 1 => Some(Deg180)
    case 3 => Some(Deg0)
    case _ => None
  }

  /** `DeskewSyncMode`. */
  datatype DeskewSyncMode = DeskewDisabled | Deskew | Sync

  function DeskewSyncCode(m: DeskewSyncMode): (code: nat)
    ensures code < 4
  {
    match m
    case DeskewDisabled => 0
    case Deskew => 1
    case Sync => 2
  }

  /** `from_primitive`: the DeskewSyncMode with a discriminant, if any. */
  function DeskewSyncFromCode(c: nat): (r: Option<DeskewSyncMode>)
    ensures r.Some? ==> DeskewSyncCode(r.value) == c
    ensures forall x {:trigger DeskewSyncCode(x)} :: DeskewSyncCode(x) == c ==> r == Some(x)
  {
    match c
    case 0 => Some(DeskewDisabled)
    case 1 => Some(Deskew)
    case 2 => Some(Sync)
    case _ => None
  }

  /** `AdcCurrentControl`: the current scaled down by 40, 30, 20, 10 or 0 percent. */
  datatype AdcCurrentControl = Less40 | Less30 | Less20 | Less10 | Less0

  function AdcCurrentCode(c: AdcCurrentControl): (code: nat)
    ensures code < 8
  {
    match c
    case Less40 => 0x4
    case Less30 => 0x5
    case Less20 => 0x6
    case Less10 => 0x7
    case Less0 => 0x0
  }

  /** `from_primitive`: the AdcCurrentControl with a discriminant, if any. */
  function AdcCurrentFromCode(c: nat): (r: Option<AdcCurrentControl>)
    ensures r.Some? ==> AdcCurrentCode(r.value) == c
    ensures forall x {:trigger AdcCurrentCode(x)} :: AdcCurrentCode(x) == c ==> r == Some(x)
  {
    match c
    case 0x4 => Some(Less40)
    case 0x5 => Some(Less30)
    case 0x6 => Some(Less20)
    case 0x7 => Some(Less10)
    case 0x0 => Some(Less0)
    case _ => None
  }

  /** `VcmBufferDrive`. */
  datatype VcmBufferDrive = VcmOff | Pm20 | Pm400 | Pm700

  function VcmCode(v: VcmBufferDrive): (code: nat)
    ensures code < 4
  {
    match v
    case VcmOff => 0
    case Pm20 => 1
    case Pm400 => 2
    case Pm700 => 3
  }

  /** `from_primitive`: the VcmBufferDrive with a discriminant, if any. */
  function VcmFromCode(c: nat): (r: Option<VcmBufferDrive>)
    ensures r.Some? ==> VcmCode(r.value) == c
    ensures forall x {:trigger VcmCode(x)} :: VcmCode(x) == c ==> r == Some(x)
  {
    match c
    case 0 => Some(VcmOff)
    case 1 => Some(Pm20)
    case 2 => Some(Pm400)
    case 3 => Some(Pm700)
    case _ => None
  }

  /** `LvdsShift`. */
  datatype LvdsShift = ShiftDisabled | Delay | Advance

  function LvdsShiftCode(s: LvdsShift): (code: nat)
    ensures code < 4
  {
    match s
    case ShiftDisabled => 0
    case Delay => 0x2
    case Advance => 0x1
  }

  /** `from_primitive`: the LvdsShift with a discriminant, if any. */
  function LvdsShiftFromCode(c: nat): (r: Option<LvdsShift>)
    ensures r.Some? ==> LvdsShiftCode(r.value) == c
    ensures forall x {:trigger LvdsShiftCode(x)} :: LvdsShiftCode(x) == c ==> r == Some(x)
  {
    match c
    case 0 => Some(ShiftDisabled)
    case 0x2 => Some(Delay)
    case 0x1 => Some(Advance)
    case _ => None
  }

  /** `StartupTiming`. */
  datatype StartupTiming = StartupDefault | T100 | T001 | T101 | T011

  function StartupCode(s: StartupTiming): (code: nat)
    ensures code < 8
  {
    match s
    case StartupDefault => 0
    case T100 => 0x4
    case T001 => 0x1
    case T101 => 0x5
    case T011 => 0x3
  }

  /** `from_primitive`: the StartupTiming with a discriminant, if any. */
  function StartupFromCode(c: nat): (r: Option<StartupTiming>)
    ensures r.Some? ==> StartupCode(r.value) == c
    ensures forall x {:trigger StartupCode(x)} :: StartupCode(x) == c ==> r == Some(x)
  {
    match c
    case 0 => Some(StartupDefault)
    case 0x4 => Some(T100)
    case 0x1 => Some(T001)
    case 0x5 => Some(T101)
    case 0x3 => Some(T011)
    case _ => None
  }

  // ---------------------------------------------------------------------------
  // Field encodings
  // ---------------------------------------------------------------------------

  /** An array of flags as a field: element 0 is its most significant bit. */
  function ArrayCode(a: seq<bool>): (code: nat)
    ensures code < Pow2(|a|)
  {
    MsbBitsOfValue(a);
    MsbValue(a)
  }

  /** A signed integer of `bits` bits (`Integer<i8, Bits<bits>>`), as its two's complement pattern. */
  predicate SignedFits(v: int, bits: nat) {
    bits > 0 && -(Pow2(bits - 1) as int) <= v < Pow2(bits - 1)
  }

  function SignedCode(v: int, bits: nat): (r: nat)
    requires SignedFits(v, bits)
    ensures r < Pow2(bits)
  {
    if v < 0 then v + Pow2(bits) else v
  }

  /** The signed value of a two's complement pattern of `bits` bits. */
  function SignedValue(r: nat, bits: nat): int
    requires bits > 0
  {
    if r >= Pow2(bits - 1) then r - Pow2(bits) else r
  }

  lemma SignedRoundTrip(v: int, bits: nat)
    requires SignedFits(v, bits)
    ensures SignedValue(SignedCode(v, bits), bits) == v
  {
  }

  // ---------------------------------------------------------------------------
  // The registers
  // ---------------------------------------------------------------------------

  /** One HMCAD1511 register value, by register type. */
  datatype Register =
    | Reset(reset: bool)
    | SleepPd(sleep4: seq<bool>, sleep2: seq<bool>, sleep1: bool, sleep: bool, pd: bool, pdPinCfg: PdPinCfg)
    | LvdsDrives(ilvdsLclk: LvdsDriveStrength, ilvdsFrame: LvdsDriveStrength, ilvdsDat: LvdsDriveStrength)
    | LvdsTerminations(enLvdsTerm: bool, termLclk: LvdsTermination, termFrame: LvdsTermination, termDat: LvdsTermination)
    | InvertCtl(invert4: seq<bool>, invert2: seq<bool>, invert1: bool)
    | PatternCtl(pattern: Pattern)
    | CustomPattern1(bitsCustom1: seq<bool>)
    | CustomPattern2(bitsCustom2: seq<bool>)
    | QuadCoarseGains(cgain4Ch1: CoarseGain, cgain4Ch2: CoarseGain, cgain4Ch3: CoarseGain, cgain4Ch4: CoarseGain)
    | DualCoarseGains(cgain2Ch1: CoarseGain, cgain2Ch2: CoarseGain, cgain1Ch1: CoarseGain)
    | JitterCtl(jitterCtrl: Jitter)
    | ChanNumClkDiv(channelNum: ChannelNum, clkDivide: ClockDivide)
    | GainCtl(coarseGainCfg: bool, fineGainEn: bool)
    | FineGain12(fgainBranch1: int, fgainBranch2: int)
    | FineGain34(fgainBranch3: int, fgainBranch4: int)
    | FineGain56(fgainBranch5: int, fgainBranch6: int)
    | FineGain78(fgainBranch7: int, fgainBranch8: int)
    | InputSelect12(inpSelAdc1: InputSelect, inpSelAdc2: InputSelect)
    | InputSelect34(inpSelAdc3: InputSelect, inpSelAdc4: InputSelect)
    | LclkPhase(phaseDdr: PhaseDdr)
    | DeskewSyncPattern(patDeskewSync: DeskewSyncMode)
    | OutputMode(btcMode: bool, msbFirst: bool)
    | AdcCurrentVcmDrive(adcCurr: AdcCurrentControl, extVcmBc: VcmBufferDrive)
    | LvdsPowerDown(lvdsPdMode: bool)
    | LvdsOutputControl(lowClkFreq: bool, lvdsShift: LvdsShift)
    | FullScaleRangeControl(fsCntrl: int)
    | StartupControl(startupCtrl: StartupTiming)

  /** The values a register's Rust type can hold: arrays of their declared length, integers in range. */
  predicate Valid(r: Register) {
    match r
    case SleepPd(s4, s2, _, _, _, _) => |s4| == 4 && |s2| == 2
    case InvertCtl(i4, i2, _) => |i4| == 4 && |i2| == 2
    case CustomPattern1(b) => |b| == 8
    case CustomPattern2(b) => |b| == 8
    case FineGain12(a, b) => SignedFits(a, 7) && SignedFits(b, 7)
    case FineGain34(a, b) => SignedFits(a, 7) && SignedFits(b, 7)
    case FineGain56(a, b) => SignedFits(a, 7) && SignedFits(b, 7)
    case FineGain78(a, b) => SignedFits(a, 7) && SignedFits(b, 7)
    case FullScaleRangeControl(v) => SignedFits(v, 6)
    case _ => true
  }

  /** The `#[address]` of each register type. */
  function Address(r: Register): (a: nat)
    ensures a < 256
  {
    match r
    case Reset(_) => 0x00
    case SleepPd(_, _, _, _, _, _) => 0x0F
    case LvdsDrives(_, _, _) => 0x12
    case LvdsTerminations(_, _, _, _) => 0x11
    case InvertCtl(_, _, _) => 0x24
    case PatternCtl(_) => 0x25
    case CustomPattern1(_) => 0x26
    case CustomPattern2(_) => 0x27
    case QuadCoarseGains(_, _, _, _) => 0x2A
    case DualCoarseGains(_, _, _) => 0x2B
    case JitterCtl(_) => 0x30
    case ChanNumClkDiv(_, _) => 0x31
    case GainCtl(_, _) => 0x33
    case FineGain12(_, _) => 0x34
    case FineGain34(_, _) => 0x35
    case FineGain56(_, _) => 0x36
    case FineGain78(_, _) => 0x37
    case InputSelect12(_, _) => 0x3A
    case InputSelect34(_, _) => 0x3B
    case LclkPhase(_) => 0x42
    case DeskewSyncPattern(_) => 0x45
    case OutputMode(_, _) => 0x46
    case AdcCurrentVcmDrive(_, _) => 0x50
    case LvdsPowerDown(_) => 0x52
    case LvdsOutputControl(_, _) => 0x53
    case FullScaleRangeControl(_) => 0x55
    case StartupControl(_) => 0x56
  }

  // The declared bit ranges of each register type, field by field, bit 0 the least significant.

  /** `reset` and `lvds_pd`: bit 0. */
  const ONE_BIT_FIELDS: Layout := [FieldSpec(0, 1)]

  /** Sleep and power-down. */
  const SLEEP_PD_FIELDS: Layout := [FieldSpec(0, 4), FieldSpec(4, 2), FieldSpec(6, 1), FieldSpec(8, 1), FieldSpec(9, 1), FieldSpec(10, 2)]

  /** LVDS drive strengths. */
  const LVDS_DRIVE_FIELDS: Layout := [FieldSpec(0, 3), FieldSpec(4, 3), FieldSpec(8, 3)]

  /** LVDS terminations. */
  const LVDS_TERM_FIELDS: Layout := [FieldSpec(14, 1), FieldSpec(0, 3), FieldSpec(4, 3), FieldSpec(8, 3)]

  /** Input inversion. */
  const INVERT_FIELDS: Layout := [FieldSpec(0, 4), FieldSpec(4, 2), FieldSpec(6, 1)]

  /** Test pattern selection. */
  const PATTERN_FIELDS: Layout := [FieldSpec(4, 3)]

  /** The custom patterns. */
  const CUSTOM_PATTERN_FIELDS: Layout := [FieldSpec(8, 8)]

  /** Quad-channel coarse gains. */
  const QUAD_GAIN_FIELDS: Layout := [FieldSpec(0, 4), FieldSpec(4, 4), FieldSpec(8, 4), FieldSpec(12, 4)]

  /** Dual-channel coarse gains. */
  const DUAL_GAIN_FIELDS: Layout := [FieldSpec(0, 4), FieldSpec(4, 4), FieldSpec(8, 4)]

  /** Clock jitter adjustment. */
  const JITTER_FIELDS: Layout := [FieldSpec(0, 8)]

  /** Channel count and clock divider. */
  const CHAN_CLK_FIELDS: Layout := [FieldSpec(0, 3), FieldSpec(8, 2)]

  /** Gain control. */
  const GAIN_CTL_FIELDS: Layout := [FieldSpec(0, 1), FieldSpec(1, 1)]

  /** The four fine-gain registers. */
  const FINE_GAIN_FIELDS: Layout := [FieldSpec(0, 7), FieldSpec(8, 7)]

  /** The two input-select registers. */
  const INPUT_SELECT_FIELDS: Layout := [FieldSpec(0, 5), FieldSpec(8, 5)]

  /** LCLK phase. */
  const LCLK_PHASE_FIELDS: Layout := [FieldSpec(5, 2)]

  /** Deskew/sync pattern mode. */
  const DESKEW_FIELDS: Layout := [FieldSpec(0, 2)]

  /** Output mode. */
  const OUTPUT_MODE_FIELDS: Layout := [FieldSpec(2, 1), FieldSpec(3, 1)]

  /** ADC current and VCM drive. */
  const ADC_CURRENT_FIELDS: Layout := [FieldSpec(0, 3), FieldSpec(5, 2)]

  /** LVDS output control. */
  const LVDS_OUTPUT_FIELDS: Layout := [FieldSpec(3, 1), FieldSpec(4, 2)]

  /** Full-scale range. */
  const FULL_SCALE_FIELDS: Layout := [FieldSpec(0, 6)]

  /** Start-up timing. */
  const STARTUP_FIELDS: Layout := [FieldSpec(0, 3)]

  /** The layout of a register's own type. */
  function Layout(r: Register): Layout {
    match r
    case Reset(_) => ONE_BIT_FIELDS
    case SleepPd(_, _, _, _, _, _) => SLEEP_PD_FIELDS
    case LvdsDrives(_, _, _) => LVDS_DRIVE_FIELDS
    case LvdsTerminations(_, _, _, _) => LVDS_TERM_FIELDS
    case InvertCtl(_, _, _) => INVERT_FIELDS
    case PatternCtl(_) => PATTERN_FIELDS
    case CustomPattern1(_) => CUSTOM_PATTERN_FIELDS
    case CustomPattern2(_) => CUSTOM_PATTERN_FIELDS
    case QuadCoarseGains(_, _, _, _) => QUAD_GAIN_FIELDS
    case DualCoarseGains(_, _, _) => DUAL_GAIN_FIELDS
    case JitterCtl(_) => JITTER_FIELDS
    case ChanNumClkDiv(_, _) => CHAN_CLK_FIELDS
    case GainCtl(_, _) => GAIN_CTL_FIELDS
    case FineGain12(_, _) => FINE_GAIN_FIELDS
    case FineGain34(_, _) => FINE_GAIN_FIELDS
    case FineGain56(_, _) => FINE_GAIN_FIELDS
    case FineGain78(_, _) => FINE_GAIN_FIELDS
    case InputSelect12(_, _) => INPUT_SELECT_FIELDS
    case InputSelect34(_, _) => INPUT_SELECT_FIELDS
    case LclkPhase(_) => LCLK_PHASE_FIELDS
    case DeskewSyncPattern(_) => DESKEW_FIELDS
    case OutputMode(_, _) => OUTPUT_MODE_FIELDS
    case AdcCurrentVcmDrive(_, _) => ADC_CURRENT_FIELDS
    case LvdsPowerDown(_) => ONE_BIT_FIELDS
    case LvdsOutputControl(_, _) => LVDS_OUTPUT_FIELDS
    case FullScaleRangeControl(_) => FULL_SCALE_FIELDS
    case StartupControl(_) => STARTUP_FIELDS
  }

  /** The layout of the register type at an address; no fields where there is none. */
  function LayoutAt(a: nat): Layout {
    match a
    case 0x00 => ONE_BIT_FIELDS
    case 0x0F => SLEEP_PD_FIELDS
    case 0x12 => LVDS_DRIVE_FIELDS
    case 0x11 => LVDS_TERM_FIELDS
    case 0x24 => INVERT_FIELDS
    case 0x25 => PATTERN_FIELDS
    case 0x26 => CUSTOM_PATTERN_FIELDS
    case 0x27 => CUSTOM_PATTERN_FIELDS
    case 0x2A => QUAD_GAIN_FIELDS
    case 0x2B => DUAL_GAIN_FIELDS
    case 0x30 => JITTER_FIELDS
    case 0x31 => CHAN_CLK_FIELDS
    case 0x33 => GAIN_CTL_FIELDS
    case 0x34 => FINE_GAIN_FIELDS
    case 0x35 => FINE_GAIN_FIELDS
    case 0x36 => FINE_GAIN_FIELDS
    case 0x37 => FINE_GAIN_FIELDS
    case 0x3A => INPUT_SELECT_FIELDS
    case 0x3B => INPUT_SELECT_FIELDS
    case 0x42 => LCLK_PHASE_FIELDS
    case 0x45 => DESKEW_FIELDS
    case 0x46 => OUTPUT_MODE_FIELDS
    case 0x50 => ADC_CURRENT_FIELDS
    case 0x52 => ONE_BIT_FIELDS
    case 0x53 => LVDS_OUTPUT_FIELDS
    case 0x55 => FULL_SCALE_FIELDS
    case 0x56 => STARTUP_FIELDS
    case _ => []
  }

  lemma LayoutAtAddress(r: Register)
    ensures LayoutAt(Address(r)) == Layout(r)
  {
  }

  /** The encoded value of each field, in the order of `Layout`. */
  function Values(r: Register): seq<nat>
    requires Valid(r)
  {
    match r
    case Reset(x) => [Flag(x)]
    case SleepPd(s4, s2, s1, s, pd, cfg) =>
      [ArrayCode(s4), ArrayCode(s2), Flag(s1), Flag(s), Flag(pd), PdPinCfgCode(cfg)]
    case LvdsDrives(a, b, c) => [DriveCode(a), DriveCode(b), DriveCode(c)]
    case LvdsTerminations(en, a, b, c) => [Flag(en), TerminationCode(a), TerminationCode(b), TerminationCode(c)]
    case InvertCtl(i4, i2, i1) => [ArrayCode(i4), ArrayCode(i2), Flag(i1)]
    case PatternCtl(p) => [PatternCode(p)]
    case CustomPattern1(b) => [ArrayCode(b)]
    case CustomPattern2(b) => [ArrayCode(b)]
    case QuadCoarseGains(a, b, c, d) => [CoarseGainCode(a), CoarseGainCode(b), CoarseGainCode(c), CoarseGainCode(d)]
    case DualCoarseGains(a, b, c) => [CoarseGainCode(a), CoarseGainCode(b), CoarseGainCode(c)]
    case JitterCtl(j) => [JitterCode(j)]
    case ChanNumClkDiv(n, d) => [ChannelNumCode(n), ClockDivideCode(d)]
    case GainCtl(c, f) => [Flag(c), Flag(f)]
    case FineGain12(a, b) => [SignedCode(a, 7), SignedCode(b, 7)]
    case FineGain34(a, b) => [SignedCode(a, 7), SignedCode(b, 7)]
    case FineGain56(a, b) => [SignedCode(a, 7), SignedCode(b, 7)]
    case FineGain78(a, b) => [SignedCode(a, 7), SignedCode(b, 7)]
    case InputSelect12(a, b) => [InputSelectCode(a), InputSelectCode(b)]
    case InputSelect34(a, b) => [InputSelectCode(a), InputSelectCode(b)]
    case LclkPhase(p) => [PhaseDdrCode(p)]
    case DeskewSyncPattern(m) => [DeskewSyncCode(m)]
    case OutputMode(btc, msb) => [Flag(btc), Flag(msb)]
    case AdcCurrentVcmDrive(c, v) => [AdcCurrentCode(c), VcmCode(v)]
    case LvdsPowerDown(x) => [Flag(x)]
    case LvdsOutputControl(low, s) => [Flag(low), LvdsShiftCode(s)]
    case FullScaleRangeControl(v) => [SignedCode(v, 6)]
    case StartupControl(s) => [StartupCode(s)]
  }

  lemma LayoutsWellFormed0()
    ensures WellFormed(ONE_BIT_FIELDS, 16) && WellFormed(SLEEP_PD_FIELDS, 16)
  {
    CheckLayoutSound(ONE_BIT_FIELDS, 16);
    CheckLayoutSound(SLEEP_PD_FIELDS, 16);
  }

  lemma LayoutsWellFormed1()
    ensures WellFormed(LVDS_DRIVE_FIELDS, 16) && WellFormed(LVDS_TERM_FIELDS, 16)
  {
    CheckLayoutSound(LVDS_DRIVE_FIELDS, 16);
    CheckLayoutSound(LVDS_TERM_FIELDS, 16);
  }

  lemma LayoutsWellFormed2()
    ensures WellFormed(INVERT_FIELDS, 16)
      && WellFormed(PATTERN_FIELDS, 16)
      && WellFormed(CUSTOM_PATTERN_FIELDS, 16)
      && WellFormed(QUAD_GAIN_FIELDS, 16)
  {
    CheckLayoutSound(INVERT_FIELDS, 16);
    CheckLayoutSound(PATTERN_FIELDS, 16);
    CheckLayoutSound(CUSTOM_PATTERN_FIELDS, 16);
    CheckLayoutSound(QUAD_GAIN_FIELDS, 16);
  }

  lemma LayoutsWellFormed3()
    ensures WellFormed(DUAL_GAIN_FIELDS, 16)
      && WellFormed(JITTER_FIELDS, 16)
      && WellFormed(CHAN_CLK_FIELDS, 16)
      && WellFormed(GAIN_CTL_FIELDS, 16)
  {
    CheckLayoutSound(DUAL_GAIN_FIELDS, 16);
    CheckLayoutSound(JITTER_FIELDS, 16);
    CheckLayoutSound(CHAN_CLK_FIELDS, 16);
    CheckLayoutSound(GAIN_CTL_FIELDS, 16);
  }

  lemma LayoutsWellFormed4()
    ensures WellFormed(FINE_GAIN_FIELDS, 16)
      && WellFormed(INPUT_SELECT_FIELDS, 16)
      && WellFormed(LCLK_PHASE_FIELDS, 16)
      && WellFormed(DESKEW_FIELDS, 16)
  {
    CheckLayoutSound(FINE_GAIN_FIELDS, 16);
    CheckLayoutSound(INPUT_SELECT_FIELDS, 16);
    CheckLayoutSound(LCLK_PHASE_FIELDS, 16);
    CheckLayoutSound(DESKEW_FIELDS, 16);
  }

  lemma LayoutsWellFormed5()
    ensures WellFormed(OUTPUT_MODE_FIELDS, 16)
      && WellFormed(ADC_CURRENT_FIELDS, 16)
      && WellFormed(LVDS_OUTPUT_FIELDS, 16)
      && WellFormed(FULL_SCALE_FIELDS, 16)
  {
    CheckLayoutSound(OUTPUT_MODE_FIELDS, 16);
    CheckLayoutSound(ADC_CURRENT_FIELDS, 16);
    CheckLayoutSound(LVDS_OUTPUT_FIELDS, 16);
    CheckLayoutSound(FULL_SCALE_FIELDS, 16);
  }

  lemma LayoutsWellFormed6()
    ensures WellFormed(STARTUP_FIELDS, 16)
  {
    CheckLayoutSound(STARTUP_FIELDS, 16);
  }

  /** Every register's fields lie within its 16 bits and do not overlap. */
  lemma LayoutWellFormed(r: Register)
    ensures WellFormed(Layout(r), 16)
  {
    LayoutsWellFormed0();
    LayoutsWellFormed1();
    LayoutsWellFormed2();
    LayoutsWellFormed3();
    LayoutsWellFormed4();
    LayoutsWellFormed5();
    LayoutsWellFormed6();
  }

  /** Every field value of a register fits its field. */
  lemma ValuesFit(r: Register)
    requires Valid(r)
    ensures Fits(Layout(r), Values(r))
  {
    if r.Reset? || r.SleepPd? || r.LvdsDrives? || r.LvdsTerminations? || r.InvertCtl? { ValuesFit0(r); }
    else if r.PatternCtl? || r.CustomPattern1? || r.CustomPattern2? || r.QuadCoarseGains? || r.DualCoarseGains? { ValuesFit1(r); }
    else if r.JitterCtl? || r.ChanNumClkDiv? || r.GainCtl? || r.FineGain12? || r.FineGain34? || r.FineGain56? || r.FineGain78? { ValuesFit2(r); }
    else if r.InputSelect12? || r.InputSelect34? || r.LclkPhase? || r.DeskewSyncPattern? || r.OutputMode? { ValuesFit3(r); }
    else { ValuesFit4(r); }
  }

  /** `ValuesFit` for one group of register types. */
  lemma ValuesFit0(r: Register)
    requires Valid(r) && (r.Reset? || r.SleepPd? || r.LvdsDrives? || r.LvdsTerminations? || r.InvertCtl?)
    ensures Fits(Layout(r), Values(r))
  {
    assert Pow2(1) == 2 && Pow2(2) == 4 && Pow2(3) == 8 && Pow2(4) == 16;
  }

  /** `ValuesFit` for one group of register types. */
  lemma ValuesFit1(r: Register)
    requires Valid(r) && (r.PatternCtl? || r.CustomPattern1? || r.CustomPattern2? || r.QuadCoarseGains? || r.DualCoarseGains?)
    ensures Fits(Layout(r), Values(r))
  {
    assert Pow2(3) == 8 && Pow2(4) == 16 && Pow2(8) == 256;
  }

  /** `ValuesFit` for one group of register types. */
  lemma ValuesFit2(r: Register)
    requires Valid(r) && (r.JitterCtl? || r.ChanNumClkDiv? || r.GainCtl? || r.FineGain12? || r.FineGain34? || r.FineGain56? || r.FineGain78?)
    ensures Fits(Layout(r), Values(r))
  {
    assert Pow2(1) == 2 && Pow2(2) == 4 && Pow2(3) == 8 && Pow2(7) == 128 && Pow2(8) == 256;
  }

  /** `ValuesFit` for one group of register types. */
  lemma ValuesFit3(r: Register)
    requires Valid(r) && (r.InputSelect12? || r.InputSelect34? || r.LclkPhase? || r.DeskewSyncPattern? || r.OutputMode?)
    ensures Fits(Layout(r), Values(r))
  {
    assert Pow2(1) == 2 && Pow2(2) == 4 && Pow2(5) == 32;
  }

  /** `ValuesFit` for one group of register types. */
  lemma ValuesFit4(r: Register)
    requires Valid(r) && (r.AdcCurrentVcmDrive? || r.LvdsPowerDown? || r.LvdsOutputControl? || r.FullScaleRangeControl? || r.StartupControl?)
    ensures Fits(Layout(r), Values(r))
  {
    assert Pow2(1) == 2 && Pow2(2) == 4 && Pow2(3) == 8 && Pow2(6) == 64;
  }

  /** `pack`: the register's 16-bit word. */
  function Word(r: Register): (w: nat)
    requires Valid(r)
    ensures w < 0x1_0000
  {
    LayoutWellFormed(r);
    Pow2Sixteen();
    Pack(16, Layout(r), Values(r))
  }

  /** `pack_to_slice` into two bytes, most significant first. */
  function Packed(r: Register): (b: bytes)
    requires Valid(r)
    ensures |b| == 2
  {
    assert Pow256(2) == 0x1_0000;
    BeBytes(Word(r), 2)
  }

  /** `u16::from_be_bytes` of the packed bytes is the word. */
  lemma PackedWord(r: Register)
    requires Valid(r)
    ensures FromBe(Packed(r)) == Word(r)
  {
    assert Pow256(2) == 0x1_0000;
    FromBeBeBytes(Word(r), 2);
  }

  /**
   * The packed word holds each field's value at the field's declared bits, and every bit outside
   * the declared fields is clear.
   */
  lemma WordFields(r: Register)
    requires Valid(r)
    ensures Unpack(Layout(r), Word(r)) == Values(r)
    ensures forall i | 0 <= i < 16 && Unused(Layout(r), i) :: !TestBit(Word(r), i)
  {
    WordUnpacks(r);
    WordUnusedClear(r);
  }

  lemma WordUnpacks(r: Register)
    requires Valid(r)
    ensures Unpack(Layout(r), Word(r)) == Values(r)
  {
    LayoutWellFormed(r);
    ValuesFit(r);
    UnpackOfPack(16, Layout(r), Values(r));
  }

  lemma WordUnusedClear(r: Register)
    requires Valid(r)
    ensures forall i | 0 <= i < 16 && Unused(Layout(r), i) :: !TestBit(Word(r), i)
  {
    LayoutWellFormed(r);
    ValuesFit(r);
    forall i | 0 <= i < 16 && Unused(Layout(r), i)
      ensures !TestBit(Word(r), i)
    {
      PackUnused(16, Layout(r), Values(r), i);
    }
  }

  // ---------------------------------------------------------------------------
  // Unpacking
  // ---------------------------------------------------------------------------

  /**
   * `unpack` of the word read from the register at address `a`: each field taken from its
   * declared bits, or `None` when an enumeration field holds a discriminant the enumeration does
   * not have, or when no register type has that address. Bits outside the fields are ignored.
   */
  function Decode(a: nat, w: nat): (r: Option<Register>)
    ensures r.Some? ==> Valid(r.value) && Address(r.value) == a
  {
    UnpackFits(LayoutAt(a), w);
    FromFields(a, Unpack(LayoutAt(a), w))
  }

  /** The register at address `a` whose fields hold the values `v`, in the order of its layout. */
  function FromFields(a: nat, v: seq<nat>): (r: Option<Register>)
    requires Fits(LayoutAt(a), v)
    ensures r.Some? ==> Valid(r.value) && Address(r.value) == a
  {
    if a < 0x24 then FromFieldsLow(a, v)
    else if a < 0x2A then FromFieldsPattern(a, v)
    else if a < 0x34 then FromFieldsGain(a, v)
    else if a < 0x3A then FromFieldsFineGain(a, v)
    else if a < 0x42 then FromFieldsInput(a, v)
    else if a < 0x52 then FromFieldsClock(a, v)
    else FromFieldsOutput(a, v)
  }

  /** `FromFields` at the addresses below 0x24. */
  function FromFieldsLow(a: nat, v: seq<nat>): (r: Option<Register>)
    requires Fits(LayoutAt(a), v)
    ensures r.Some? ==> Valid(r.value) && Address(r.value) == a
  {
    match a
    case 0x00 =>
      Some(Reset(v[0] == 1))
    case 0x0F =>
      var cfg :- PdPinCfgFromCode(v[5]);
      Some(SleepPd(MsbBits(v[0], 4), MsbBits(v[1], 2), v[2] == 1, v[3] == 1, v[4] == 1, cfg))
    case 0x12 =>
      var lclk :- DriveFromCode(v[0]);
      var frame :- DriveFromCode(v[1]);
      var dat :- DriveFromCode(v[2]);
      Some(LvdsDrives(lclk, frame, dat))
    case 0x11 =>
      var lclk :- TerminationFromCode(v[1]);
      var frame :- TerminationFromCode(v[2]);
      var dat :- TerminationFromCode(v[3]);
      Some(LvdsTerminations(v[0] == 1, lclk, frame, dat))
    case _ => None
  }

  /** `FromFields` at the addresses from 0x24 to 0x27. */
  function FromFieldsPattern(a: nat, v: seq<nat>): (r: Option<Register>)
    requires Fits(LayoutAt(a), v)
    ensures r.Some? ==> Valid(r.value) && Address(r.value) == a
  {
    match a
    case 0x24 =>
      Some(InvertCtl(MsbBits(v[0], 4), MsbBits(v[1], 2), v[2] == 1))
    case 0x25 =>
      var p :- PatternFromCode(v[0]);
      Some(PatternCtl(p))
    case 0x26 =>
      Some(CustomPattern1(MsbBits(v[0], 8)))
    case 0x27 =>
      Some(CustomPattern2(MsbBits(v[0], 8)))
    case _ => None
  }

  /** `FromFields` at the addresses from 0x2A to 0x33. */
  function FromFieldsGain(a: nat, v: seq<nat>): (r: Option<Register>)
    requires Fits(LayoutAt(a), v)
    ensures r.Some? ==> Valid(r.value) && Address(r.value) == a
  {
    match a
    case 0x2A =>
      var g1 :- CoarseGainFromCode(v[0]);
      var g2 :- CoarseGainFromCode(v[1]);
      var g3 :- CoarseGainFromCode(v[2]);
      var g4 :- CoarseGainFromCode(v[3]);
      Some(QuadCoarseGains(g1, g2, g3, g4))
    case 0x2B =>
      var g1 :- CoarseGainFromCode(v[0]);
      var g2 :- CoarseGainFromCode(v[1]);
      var g3 :- CoarseGainFromCode(v[2]);
      Some(DualCoarseGains(g1, g2, g3))
    case 0x30 =>
      var j :- JitterFromCode(v[0]);
      Some(JitterCtl(j))
    case 0x31 =>
      var n :- ChannelNumFromCode(v[0]);
      var d :- ClockDivideFromCode(v[1]);
      Some(ChanNumClkDiv(n, d))
    case 0x33 =>
      Some(GainCtl(v[0] == 1, v[1] == 1))
    case _ => None
  }

  /** `FromFields` at the addresses from 0x34 to 0x37. */
  function FromFieldsFineGain(a: nat, v: seq<nat>): (r: Option<Register>)
    requires Fits(LayoutAt(a), v)
    ensures r.Some? ==> Valid(r.value) && Address(r.value) == a
  {
    if a < 0x34 || a > 0x37 then None
    else
      assert LayoutAt(a) == FINE_GAIN_FIELDS && Pow2(6) == 64 && Pow2(7) == 128;
      var g, h := SignedValue(v[0], 7), SignedValue(v[1], 7);
      assert SignedFits(g, 7) && SignedFits(h, 7);
      if a == 0x34 then Some(FineGain12(g, h))
      else if a == 0x35 then Some(FineGain34(g, h))
      else if a == 0x36 then Some(FineGain56(g, h))
      else Some(FineGain78(g, h))
  }

  /** `FromFields` at the addresses 0x3A and 0x3B. */
  function FromFieldsInput(a: nat, v: seq<nat>): (r: Option<Register>)
    requires Fits(LayoutAt(a), v)
    ensures r.Some? ==> Valid(r.value) && Address(r.value) == a
  {
    match a
    case 0x3A =>
      var i1 :- InputSelectFromCode(v[0]);
      var i2 :- InputSelectFromCode(v[1]);
      Some(InputSelect12(i1, i2))
    case 0x3B =>
      var i3 :- InputSelectFromCode(v[0]);
      var i4 :- InputSelectFromCode(v[1]);
      Some(InputSelect34(i3, i4))
    case _ => None
  }

  /** `FromFields` at the addresses from 0x42 to 0x50. */
  function FromFieldsClock(a: nat, v: seq<nat>): (r: Option<Register>)
    requires Fits(LayoutAt(a), v)
    ensures r.Some? ==> Valid(r.value) && Address(r.value) == a
  {
    match a
    case 0x42 =>
      var p :- PhaseDdrFromCode(v[0]);
      Some(LclkPhase(p))
    case 0x45 =>
      var m :- DeskewSyncFromCode(v[0]);
      Some(DeskewSyncPattern(m))
    case 0x46 =>
      Some(OutputMode(v[0] == 1, v[1] == 1))
    case 0x50 =>
      var c :- AdcCurrentFromCode(v[0]);
      var d :- VcmFromCode(v[1]);
      Some(AdcCurrentVcmDrive(c, d))
    case _ => None
  }

  /** `FromFields` at the addresses from 0x52 up. */
  function FromFieldsOutput(a: nat, v: seq<nat>): (r: Option<Register>)
    requires Fits(LayoutAt(a), v)
    ensures r.Some? ==> Valid(r.value) && Address(r.value) == a
  {
    assert Pow2(5) == 32 && Pow2(6) == 64;
    match a
    case 0x52 =>
      Some(LvdsPowerDown(v[0] == 1))
    case 0x53 =>
      var s :- LvdsShiftFromCode(v[1]);
      Some(LvdsOutputControl(v[0] == 1, s))
    case 0x55 =>
      Some(FullScaleRangeControl(SignedValue(v[0], 6)))
    case 0x56 =>
      var s :- StartupFromCode(v[0]);
      Some(StartupControl(s))
    case _ => None
  }

  /** Unpacking a register's packed word at its address gives the register back. */
  lemma DecodeWord(r: Register)
    requires Valid(r)
    ensures Decode(Address(r), Word(r)) == Some(r)
  {
    WordFields(r);
    LayoutAtAddress(r);
    FromValues(r);
  }

  /** A register comes back from its field values. */
  lemma FromValues(r: Register)
    requires Valid(r)
    ensures Fits(LayoutAt(Address(r)), Values(r))
    ensures FromFields(Address(r), Values(r)) == Some(r)
  {
    ValuesFit(r);
    LayoutAtAddress(r);
    if Address(r) < 0x24 {
      FromValuesLow(r);
    } else if Address(r) < 0x2A {
      FromValuesPattern(r);
    } else if Address(r) < 0x34 {
      FromValuesGain(r);
    } else if Address(r) < 0x3A {
      FromValuesFineGain(r);
    } else if Address(r) < 0x42 {
      FromValuesInput(r);
    } else if Address(r) < 0x52 {
      FromValuesClock(r);
    } else {
      FromValuesOutput(r);
    }
  }

  lemma FromValuesLow(r: Register)
    requires Valid(r) && Address(r) < 0x24
    requires Fits(LayoutAt(Address(r)), Values(r))
    ensures FromFieldsLow(Address(r), Values(r)) == Some(r)
  {
    match r
    case Reset(_) =>
      assert FromFieldsLow(Address(r), Values(r)) == Some(r);
    case SleepPd(s4, s2, _, _, _, _) =>
      MsbBitsOfValue(s4);
      MsbBitsOfValue(s2);
      assert FromFieldsLow(Address(r), Values(r)) == Some(r);
    case LvdsDrives(_, _, _) =>
      assert FromFieldsLow(Address(r), Values(r)) == Some(r);
    case LvdsTerminations(_, _, _, _) =>
      assert FromFieldsLow(Address(r), Values(r)) == Some(r);
    case _ =>
  }

  lemma FromValuesPattern(r: Register)
    requires Valid(r) && 0x24 <= Address(r) < 0x2A
    requires Fits(LayoutAt(Address(r)), Values(r))
    ensures FromFieldsPattern(Address(r), Values(r)) == Some(r)
  {
    match r
    case InvertCtl(i4, i2, _) =>
      MsbBitsOfValue(i4);
      MsbBitsOfValue(i2);
      assert FromFieldsPattern(Address(r), Values(r)) == Some(r);
    case PatternCtl(_) =>
      assert FromFieldsPattern(Address(r), Values(r)) == Some(r);
    case CustomPattern1(b) =>
      MsbBitsOfValue(b);
      assert FromFieldsPattern(Address(r), Values(r)) == Some(r);
    case CustomPattern2(b) =>
      MsbBitsOfValue(b);
      assert FromFieldsPattern(Address(r), Values(r)) == Some(r);
    case _ =>
  }

  lemma FromValuesGain(r: Register)
    requires Valid(r) && 0x2A <= Address(r) < 0x34
    requires Fits(LayoutAt(Address(r)), Values(r))
    ensures FromFieldsGain(Address(r), Values(r)) == Some(r)
  {
    match r
    case QuadCoarseGains(_, _, _, _) =>
      assert FromFieldsGain(Address(r), Values(r)) == Some(r);
    case DualCoarseGains(_, _, _) =>
      assert FromFieldsGain(Address(r), Values(r)) == Some(r);
    case JitterCtl(_) =>
      assert FromFieldsGain(Address(r), Values(r)) == Some(r);
    case ChanNumClkDiv(_, _) =>
      assert FromFieldsGain(Address(r), Values(r)) == Some(r);
    case GainCtl(_, _) =>
      assert FromFieldsGain(Address(r), Values(r)) == Some(r);
    case _ =>
  }

  lemma FromValuesFineGain(r: Register)
    requires Valid(r) && 0x34 <= Address(r) < 0x3A
    requires Fits(LayoutAt(Address(r)), Values(r))
    ensures FromFieldsFineGain(Address(r), Values(r)) == Some(r)
  {
    assert Pow2(6) == 64 && Pow2(7) == 128;
    match r
    case FineGain12(a, b) =>
      SignedRoundTrip(a, 7);
      SignedRoundTrip(b, 7);
      assert FromFieldsFineGain(Address(r), Values(r)) == Some(r);
    case FineGain34(a, b) =>
      SignedRoundTrip(a, 7);
      SignedRoundTrip(b, 7);
      assert FromFieldsFineGain(Address(r), Values(r)) == Some(r);
    case FineGain56(a, b) =>
      SignedRoundTrip(a, 7);
      SignedRoundTrip(b, 7);
      assert FromFieldsFineGain(Address(r), Values(r)) == Some(r);
    case FineGain78(a, b) =>
      SignedRoundTrip(a, 7);
      SignedRoundTrip(b, 7);
      assert FromFieldsFineGain(Address(r), Values(r)) == Some(r);
    case _ =>
  }

  lemma FromValuesInput(r: Register)
    requires Valid(r) && 0x3A <= Address(r) < 0x42
    requires Fits(LayoutAt(Address(r)), Values(r))
    ensures FromFieldsInput(Address(r), Values(r)) == Some(r)
  {
    match r
    case InputSelect12(_, _) =>
      assert FromFieldsInput(Address(r), Values(r)) == Some(r);
    case InputSelect34(_, _) =>
      assert FromFieldsInput(Address(r), Values(r)) == Some(r);
    case _ =>
  }

  lemma FromValuesClock(r: Register)
    requires Valid(r) && 0x42 <= Address(r) < 0x52
    requires Fits(LayoutAt(Address(r)), Values(r))
    ensures FromFieldsClock(Address(r), Values(r)) == Some(r)
  {
    match r
    case LclkPhase(_) =>
      assert FromFieldsClock(Address(r), Values(r)) == Some(r);
    case DeskewSyncPattern(_) =>
      assert FromFieldsClock(Address(r), Values(r)) == Some(r);
    case OutputMode(_, _) =>
      assert FromFieldsClock(Address(r), Values(r)) == Some(r);
    case AdcCurrentVcmDrive(_, _) =>
      assert FromFieldsClock(Address(r), Values(r)) == Some(r);
    case _ =>
  }

  lemma FromValuesOutput(r: Register)
    requires Valid(r) && 0x52 <= Address(r)
    requires Fits(LayoutAt(Address(r)), Values(r))
    ensures FromFieldsOutput(Address(r), Values(r)) == Some(r)
  {
    match r
    case LvdsPowerDown(_) =>
      assert FromFieldsOutput(Address(r), Values(r)) == Some(r);
    case LvdsOutputControl(_, _) =>
      assert FromFieldsOutput(Address(r), Values(r)) == Some(r);
    case FullScaleRangeControl(v) =>
      SignedRoundTrip(v, 6);
      assert FromFieldsOutput(Address(r), Values(r)) == Some(r);
    case StartupControl(_) =>
      assert FromFieldsOutput(Address(r), Values(r)) == Some(r);
    case _ =>
  }

  /** Two registers with the same address and the same packed word are the same register. */
  lemma WordDetermines(r1: Register, r2: Register)
    requires Valid(r1) && Valid(r2)
    requires Address(r1) == Address(r2) && Word(r1) == Word(r2)
    ensures r1 == r2
  {
    DecodeWord(r1);
    DecodeWord(r2);
  }

  // ---------------------------------------------------------------------------
  // Properties of the codes and the defaults
  // ---------------------------------------------------------------------------

  /** The jitter settings are thermometer codes: setting k turns on the k lowest bits. */
  lemma JitterThermometer(j: Jitter)
    ensures JitterCode(j) == Pow2(JitterLevel(j)) - 1
  {
    Pow2Byte();
  }

  /** Input k of the cross-point switch is selected by bit k alone. */
  lemma InputSelectOneHot(i: InputSelect)
    ensures InputSelectCode(i) == Pow2(InputNumber(i))
    ensures 1 <= InputNumber(i) <= 4
  {
    Pow2Byte();
  }

  /** The channel-count code is one-hot: bit k alone stands for 2^k channels. */
  lemma ChannelNumOneHot(c: ChannelNum)
    ensures exists k :: 0 <= k < 3 && ChannelNumCode(c) == Pow2(k) == Channels(c)
  {
    Pow2Byte();
    match c
    case Single => assert ChannelNumCode(c) == Pow2(0);
    case Dual => assert ChannelNumCode(c) == Pow2(1);
    case Quad => assert ChannelNumCode(c) == Pow2(2);
  }

  /** `SleepPd::default()`: nothing asleep, not powered down, the PD pin powering down. */
  const DEFAULT_SLEEP_PD: Register :=
    SleepPd([false, false, false, false], [false, false], false, false, false, PowerDown)

  /** `InputSelect12::default()`: ADC 1 on input 1 and ADC 2 on input 2. */
  const DEFAULT_INPUT_SELECT12: Register := InputSelect12(In1, In2)

  /** `InputSelect34::default()`: ADC 3 on input 3 and ADC 4 on input 4. */
  const DEFAULT_INPUT_SELECT34: Register := InputSelect34(In3, In4)

  /** By default ADC 1 and ADC 2 take inputs 1 and 2: fields 0 and 1 hold bits 1 and 2 alone. */
  lemma DefaultInputSelect12Word()
    ensures Unpack(INPUT_SELECT_FIELDS, Word(DEFAULT_INPUT_SELECT12)) == [Pow2(1), Pow2(2)]
    ensures Decode(0x3A, Word(DEFAULT_INPUT_SELECT12)) == Some(InputSelect12(In1, In2))
  {
    assert Pow2(1) == 2 && Pow2(2) == 4;
    DecodeWord(DEFAULT_INPUT_SELECT12);
    WordFields(DEFAULT_INPUT_SELECT12);
  }

  /** By default ADC 3 and ADC 4 take inputs 3 and 4: fields 0 and 1 hold bits 3 and 4 alone. */
  lemma DefaultInputSelect34Word()
    ensures Unpack(INPUT_SELECT_FIELDS, Word(DEFAULT_INPUT_SELECT34)) == [Pow2(3), Pow2(4)]
    ensures Decode(0x3B, Word(DEFAULT_INPUT_SELECT34)) == Some(InputSelect34(In3, In4))
  {
    assert Pow2(3) == 8 && Pow2(4) == 16;
    DecodeWord(DEFAULT_INPUT_SELECT34);
    WordFields(DEFAULT_INPUT_SELECT34);
  }

  /**
   * `pack` is the one word that carries the register's field values and has every bit outside
   * the fields clear.
   */
  lemma WordIsUnique(r: Register, x: nat)
    requires Valid(r) && x < 0x1_0000
    requires Unpack(Layout(r), x) == Values(r)
    requires forall i | 0 <= i < 16 && Unused(Layout(r), i) :: !TestBit(x, i)
    ensures Word(r) == x
  {
    Pow2Sixteen();
    LayoutWellFormed(r);
    WordFields(r);
    FieldsDetermineWord(16, Layout(r), Word(r), x);
  }

  /** The default sleep register packs to zero. */
  lemma SleepPdDefaultWord()
    ensures Word(DEFAULT_SLEEP_PD) == 0
  {
    MsbValueClear([false, false, false, false]);
    MsbValueClear([false, false]);
    assert Values(DEFAULT_SLEEP_PD) == [0, 0, 0, 0, 0, 0];
    assert Unpack(SLEEP_PD_FIELDS, 0) == [0, 0, 0, 0, 0, 0];
    WordIsUnique(DEFAULT_SLEEP_PD, 0);
  }

  /** Bit 9 alone: the power-down field set and every other field clear. */
  lemma PowerDownFields()
    ensures Unpack(SLEEP_PD_FIELDS, 0x200) == [0, 0, 0, 0, 1, 0]
  {
    assert Pow2(9) == 0x200 && Pow2(10) == 0x400;
  }

  /** Bit 9 alone: every bit outside the fields clear. */
  lemma PowerDownUnused()
    ensures forall i | 0 <= i < 16 && Unused(SLEEP_PD_FIELDS, i) :: !TestBit(0x200, i)
  {
    assert Pow2(10) == 0x400;
    forall i | 0 <= i < 16 && Unused(SLEEP_PD_FIELDS, i)
      ensures !TestBit(0x200, i)
    {
      assert Apart(FieldSpec(i, 1), SLEEP_PD_FIELDS[0]) && Apart(FieldSpec(i, 1), SLEEP_PD_FIELDS[1]);
      assert Apart(FieldSpec(i, 1), SLEEP_PD_FIELDS[2]) && Apart(FieldSpec(i, 1), SLEEP_PD_FIELDS[3]);
      assert Apart(FieldSpec(i, 1), SLEEP_PD_FIELDS[4]) && Apart(FieldSpec(i, 1), SLEEP_PD_FIELDS[5]);
      if i != 7 {
        TestBitAbove(0x200, 10, i);
      }
    }
  }

  /** The power-down command of `power_cycle`: only bit 9 (0x0200) is set. */
  lemma SleepPdPowerDownWord()
    ensures Word(DEFAULT_SLEEP_PD.(pd := true)) == 0x200
  {
    MsbValueClear([false, false, false, false]);
    MsbValueClear([false, false]);
    assert Values(DEFAULT_SLEEP_PD.(pd := true)) == [0, 0, 0, 0, 1, 0];
    PowerDownFields();
    PowerDownUnused();
    WordIsUnique(DEFAULT_SLEEP_PD.(pd := true), 0x200);
  }

  /** The command of `reset`: bit 0 alone. */
  lemma ResetWord()
    ensures Word(Reset(true)) == 1
  {
    assert Unpack(ONE_BIT_FIELDS, 1) == Values(Reset(true));
    forall i | 0 <= i < 16 && Unused(ONE_BIT_FIELDS, i)
      ensures !TestBit(1, i)
    {
      assert Apart(FieldSpec(i, 1), ONE_BIT_FIELDS[0]);
      TestBitAbove(1, 1, i);
    }
    WordIsUnique(Reset(true), 1);
  }
}
