// The SNAP board's ADC block (casperfpga/src/yellow_blocks/snapadc/mod.rs and clockswitch.rs,
// and the single-file version casperfpga/src/yellow_blocks/snapadc.rs): the clock switch that
// chooses between the on-board synthesizer and an external clock, and `from_fpg`, which checks a
// design's metadata and wires the clock switch and the ADC controller to one transport.
module SnapAdc {
  import opened Wrappers
  import opened Bytes
  import opened Serde
  import opened Core
  import opened MockTransport
  import Adc16

  // ---------------------------------------------------------------------------
  // The clock switch
  // ---------------------------------------------------------------------------

  /** `Source`: the LMX synthesizer on the board, or an external clock. */
  datatype Source = Internal | External

  /** "adc16_use_synth", the register of the switch. */
  const USE_SYNTH: bytes := [97, 100, 99, 49, 54, 95, 117, 115, 101, 95, 115, 121, 110, 116, 104]

  /** The `u32` `set_source` writes: 1 selects the synthesizer. */
  function SourceWord(s: Source): (x: nat)
    ensures x < 2 && (x == 1 <==> s == Internal)
  {
    if s == Internal then 1 else 0
  }

  /** A transport failure, or the `unreachable!` of a word that is neither 0 nor 1. */
  datatype ClockError = Transport(cause: MockError) | Unreachable

  /** The `match raw` of `get_source`. */
  function DecodeSource(raw: int): (r: Result<Source, ClockError>)
    ensures r.Ok? <==> raw == 0 || raw == 1
    ensures r.Ok? ==> SourceWord(r.value) == raw
    ensures r.Err? ==> r.error == Unreachable
    ensures forall s {:trigger SourceWord(s)} :: SourceWord(s) == raw ==> r == Ok(s)
  {
    if raw == 1 then Ok(Internal)
    else if raw == 0 then Ok(External)
    else Err(Unreachable)
  }

  /** `ClockSwitch`: a handle on the transport it writes through. */
  class ClockSwitch {
    const transport: Mock

    constructor(transport: Mock)
      ensures this.transport == transport
    {
      this.transport := transport;
    }

    /** `set_source`: write the source's word to `adc16_use_synth` at offset 0, and nothing else. */
    method SetSource(s: Source) returns (r: Result<(), MockError>)
      modifies transport
      ensures var data := Serialize(U32, SourceWord(s));
        var w := WriteSpec(old(transport.memory), transport.registers, USE_SYNTH, 0, data);
        transport.registers == old(transport.registers) &&
        transport.writes == old(transport.writes) + [Access(USE_SYNTH, 0, data)] &&
        (w.Ok? ==> r == Ok(()) && transport.memory == w.value) &&
        (w.Err? ==> r == Err(w.error) && transport.memory == old(transport.memory))
    {
      assert Serde.InRange(U32, SourceWord(s)) by { assert Pow256(4) == 0x1_0000_0000; }
      var w := transport.Write(U32, USE_SYNTH, 0, SourceWord(s));
      if w.Err? {
        return Err(w.error);
      }
      return Ok(());
    }

    /** `get_source`: read the `u32` at offset 0 and decode it. */
    method GetSource() returns (r: Result<Source, ClockError>)
      ensures var b := ReadSpec(transport.memory, transport.registers, USE_SYNTH, 0, 4);
        (b.Ok? ==> r == DecodeSource(Deserialize(U32, b.value))) &&
        (b.Err? ==> r == Err(ClockError.Transport(b.error)))
    {
      var raw := transport.Read(U32, USE_SYNTH, 0);
      if raw.Err? {
        return Err(ClockError.Transport(raw.error));
      }
      return DecodeSource(raw.value);
    }
  }

  /** After a successful `set_source(s)`, `get_source` reads back s. */
  lemma SourceRoundTrip(memory: map<nat, byte>, registers: map<bytes, Register>, s: Source)
    requires Serde.InRange(U32, SourceWord(s))
    requires WriteSpec(memory, registers, USE_SYNTH, 0, Serialize(U32, SourceWord(s))).Ok?
    ensures var m := WriteSpec(memory, registers, USE_SYNTH, 0, Serialize(U32, SourceWord(s))).value;
      var b := ReadSpec(m, registers, USE_SYNTH, 0, 4);
      b.Ok? && DecodeSource(Deserialize(U32, b.value)) == Ok(s)
  {
    WriteThenReadNum(memory, registers, USE_SYNTH, 0, U32, SourceWord(s));
  }

  /**
   * The test `test_clock_switch`: on a fresh mock with a 4-byte `adc16_use_synth` at address 0,
   * setting External and then Internal succeeds and each reads back.
   */
  method ClockSwitchTest() returns (set1: Result<(), MockError>, get1: Result<Source, ClockError>,
                                    set2: Result<(), MockError>, get2: Result<Source, ClockError>)
    ensures set1 == Ok(()) && get1 == Ok(External)
    ensures set2 == Ok(()) && get2 == Ok(Internal)
  {
    var registers := map[USE_SYNTH := Register(0, 4)];
    var transport := new Mock(registers);
    var clksw := new ClockSwitch(transport);
    assert Pow256(4) == 0x1_0000_0000;
    set1 := clksw.SetSource(External);
    SourceRoundTrip(ZeroFilled(registers), registers, External);
    get1 := clksw.GetSource();
    var m := transport.memory;
    set2 := clksw.SetSource(Internal);
    SourceRoundTrip(m, registers, Internal);
    get2 := clksw.GetSource();
  }

  // ---------------------------------------------------------------------------
  // from_fpg
  // ---------------------------------------------------------------------------

  /** `AdcMode`: the channels each HMCAD1511 interleaves. */
  datatype AdcMode = Single | Dual | Quad

  /** The `snap_inputs` a design with this mode carries: twelve, six or three inputs. */
  function Inputs(m: AdcMode): nat {
    match m
    case Quad => 12
    case Dual => 6
    case Single => 3
  }

  /** "8": the only `adc_resolution` supported, the 8-bit HMCAD1511. */
  const RESOLUTION_8: bytes := [56]

  /** The `match snap_inputs` of `from_fpg`. */
  function ModeOf(snapInputs: bytes): (r: Option<AdcMode>)
    ensures r.Some? ==> snapInputs == DecimalText(Inputs(r.value))
    ensures forall m {:trigger Inputs(m)} :: snapInputs == DecimalText(Inputs(m)) ==> r == Some(m)
  {
    assert DecimalText(12) == [49, 50] && DecimalText(6) == [54] && DecimalText(3) == [51];
    if snapInputs == [49, 50] then Some(Quad)
    else if snapInputs == [54] then Some(Dual)
    else if snapInputs == [51] then Some(Single)
    else None
  }

  /** The `bail!`s of `from_fpg`, and the error of `sample_rate.parse()`. */
  datatype AdcError = BadSnapInputs | BadResolution | BadSampleRate

  /** What `from_fpg` keeps of the metadata: the name, the sample rate in MHz and the mode. */
  datatype Config = Config(name: bytes, sampleRate: nat, mode: AdcMode)

  /**
   * The checks of `from_fpg`, in order: `snap_inputs` names a mode, `adc_resolution` is "8", and
   * `sample_rate` parses as a `usize`; the name is kept as given.
   */
  function Classify(regName: bytes, adcResolution: bytes, sampleRate: bytes, snapInputs: bytes)
    : (r: Result<Config, AdcError>)
    ensures ModeOf(snapInputs).None? ==> r == Err(BadSnapInputs)
    ensures ModeOf(snapInputs).Some? && adcResolution != RESOLUTION_8 ==> r == Err(BadResolution)
    ensures ModeOf(snapInputs).Some? && adcResolution == RESOLUTION_8 && ParseUnsigned(sampleRate, USIZE_MAX).None? ==>
      r == Err(BadSampleRate)
    ensures r.Ok? ==>
      r.value.name == regName && r.value.sampleRate <= USIZE_MAX &&
      snapInputs == DecimalText(Inputs(r.value.mode)) && adcResolution == RESOLUTION_8
  {
    match ModeOf(snapInputs)
    case None => Err(BadSnapInputs)
    case Some(mode) =>
      if adcResolution != RESOLUTION_8 then Err(BadResolution)
      else
        match ParseUnsigned(sampleRate, USIZE_MAX)
        case None => Err(BadSampleRate)
        case Some(rate) => Ok(Config(regName, rate, mode))
  }

  /** Metadata written the way a design tool writes it is accepted and read back exactly. */
  lemma ClassifyText(regName: bytes, rate: nat, mode: AdcMode)
    requires rate <= USIZE_MAX
    ensures Classify(regName, RESOLUTION_8, DecimalText(rate), DecimalText(Inputs(mode))) == Ok(Config(regName, rate, mode))
  {
    ParseDecimalText(rate, USIZE_MAX);
  }

  /** `SnapAdc`: the checked metadata and the components, all on the transport it was built with. */
  class SnapAdc {
    const transport: Mock
    const config: Config
    const clksw: ClockSwitch
    const controller: Adc16.Adc16Controller

    constructor(transport: Mock, config: Config)
      ensures this.transport == transport && this.config == config
      ensures fresh(clksw) && fresh(controller)
      ensures clksw.transport == transport && controller.transport == transport
    {
      this.transport := transport;
      this.config := config;
      clksw := new ClockSwitch(transport);
      controller := new Adc16.Adc16Controller(transport);
    }
  }

  /** `from_fpg`: the checks of Classify, then the components built on the one transport. */
  method FromFpg(transport: Mock, regName: bytes, adcResolution: bytes, sampleRate: bytes, snapInputs: bytes)
    returns (r: Result<SnapAdc, AdcError>)
    ensures var c := Classify(regName, adcResolution, sampleRate, snapInputs);
      (c.Err? ==> r == Err(c.error)) &&
      (c.Ok? ==>
        r.Ok? && fresh(r.value) && r.value.config == c.value && r.value.transport == transport &&
        r.value.clksw.transport == transport && r.value.controller.transport == transport)
  {
    var c := Classify(regName, adcResolution, sampleRate, snapInputs);
    if c.Err? {
      return Err(c.error);
    }
    var adc := new SnapAdc(transport, c.value);
    return Ok(adc);
  }
}
