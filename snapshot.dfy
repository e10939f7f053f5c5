// The snapshot yellow block of casperfpga/src/yellow_blocks/snapshot.rs: a control register
// `{name}_ctrl` of four flags, a status register `{name}_status`, an optional trigger offset
// register `{name}_trig_offset` and the sample memory `{name}_bram` of 2^samples_n bytes. The
// packed control and status words cross the transport as 4 big-endian bytes, with bit 0 the
// least significant bit of the last byte.
module Snapshot {
  import opened Wrappers
  import opened Bytes
  import opened Serde
  import opened Bits
  import opened MockTransport

  /** `snapshot::Error`, plus `Panic` for the `unreachable!()` offset and the overflowing `2u32.pow`. */
  datatype SnapshotError = Transport(cause: MockError) | BadSampleN | NoOffsets | Panic

  /** A `Snapshot`: its name, whether it has an offset register, and log2 of its sample count. */
  datatype SnapshotBlock = SnapshotBlock(name: bytes, hasOffset: bool, samplesN: nat)

  /** The `Control` register: arm at bit 0, trig_override 1, write_enable_override 2, circular_capture 3. */
  datatype Control = Control(arm: bool, trigOverride: bool, writeEnableOverride: bool, circularCapture: bool)

  /** `Control::default()`: every flag clear. */
  const CLEAR: Control := Control(false, false, false, false)

  /** "_ctrl", "_status", "_bram", "_trig_offset" */
  const CTRL: bytes := [95, 99, 116, 114, 108]
  const STATUS: bytes := [95, 115, 116, 97, 116, 117, 115]
  const BRAM: bytes := [95, 98, 114, 97, 109]
  const TRIG_OFFSET: bytes := [95, 116, 114, 105, 103, 95, 111, 102, 102, 115, 101, 116]

  /** "on" and "off" */
  const ON: bytes := [111, 110]
  const OFF: bytes := [111, 102, 102]

  /** `from_fpg`: `nsamples` as a `u32`, then `offset` "off" or "on"; any other offset is unreachable. */
  function FromFpg(name: bytes, nsamples: bytes, offset: bytes): (r: Result<SnapshotBlock, SnapshotError>)
    ensures ParseUnsigned(nsamples, U32_MAX).None? <==> r == Err(BadSampleN)
    ensures r.Ok? <==> ParseUnsigned(nsamples, U32_MAX).Some? && (offset == ON || offset == OFF)
    ensures r.Ok? ==> r.value == SnapshotBlock(name, offset == ON, ParseUnsigned(nsamples, U32_MAX).value)
  {
    match ParseUnsigned(nsamples, U32_MAX)
    case None => Err(BadSampleN)
    case Some(n) =>
      if offset == OFF then Ok(SnapshotBlock(name, false, n))
      else if offset == ON then Ok(SnapshotBlock(name, true, n))
      else Err(Panic)
  }

  /** The control flags as a word: bit k is flag k and the bits from 4 up are clear. */
  function ControlWord(c: Control): (w: nat)
    ensures w < 16
    ensures TestBit(w, 0) == c.arm && TestBit(w, 1) == c.trigOverride
    ensures TestBit(w, 2) == c.writeEnableOverride && TestBit(w, 3) == c.circularCapture
  {
    Flag(c.arm) + 2 * Flag(c.trigOverride) + 4 * Flag(c.writeEnableOverride) + 8 * Flag(c.circularCapture)
  }

  /** `pack`: the four bytes of the control word. */
  function PackControl(c: Control): (b: bytes)
    ensures |b| == 4
  {
    assert Pow256(4) == 0x1_0000_0000;
    Serialize(U32, ControlWord(c))
  }

  /** `unpack`: the flags at bits 0 to 3 of the word; the other bits are not part of `Control`. */
  function UnpackControl(b: bytes): Control
    requires |b| == 4
  {
    var x := Deserialize(U32, b);
    Control(TestBit(x, 0), TestBit(x, 1), TestBit(x, 2), TestBit(x, 3))
  }

  /** `Status::done`, bit 31 of the status word. */
  function StatusDone(b: bytes): (done: bool)
    requires |b| == 4
    ensures done <==> b[0] >= 128
  {
    FromBe4(b);
    Deserialize(U32, b) >= 0x8000_0000
  }

  /** Unpacking a packed control gives it back. */
  lemma UnpackPack(c: Control)
    ensures UnpackControl(PackControl(c)) == c
  {
    assert Pow256(4) == 0x1_0000_0000;
    DeserializeSerialize(U32, ControlWord(c));
  }

  /**
   * Rewriting a control register through `Control` keeps bits 0 to 3 of the word read and
   * clears the rest: the packed word is the read word modulo 16.
   */
  lemma RepackKeepsLowBits(b: bytes)
    requires |b| == 4
    ensures ControlWord(UnpackControl(b)) == Deserialize(U32, b) % 16
  {
    var x := Deserialize(U32, b);
    LowNibble(x);
    assert Pow2(1) == 2 && Pow2(2) == 4 && Pow2(3) == 8;
    assert Flag(TestBit(x, 0)) == x % 2;
    assert Flag(TestBit(x, 1)) == (x / 2) % 2;
    assert Flag(TestBit(x, 2)) == (x / 4) % 2;
    assert Flag(TestBit(x, 3)) == (x / 8) % 2;
  }

  /** The low four bits of x, one by one. */
  lemma LowNibble(x: nat)
    ensures x % 16 == x % 2 + 2 * ((x / 2) % 2) + 4 * ((x / 4) % 2) + 8 * ((x / 8) % 2)
  {
    HalveMod(x, 8);
    HalveMod(x / 2, 4);
    HalveMod(x / 4, 2);
    assert x / 2 / 2 == x / 4 && x / 4 / 2 == x / 8;
  }

  /** x modulo 2m is its lowest bit plus twice x / 2 modulo m. */
  lemma HalveMod(x: nat, m: nat)
    requires m == 2 || m == 4 || m == 8
    ensures x % (2 * m) == x % 2 + 2 * ((x / 2) % m)
  {
    var c, t, s := x / 2 / m, (x / 2) % m, x % 2;
    assert x / 2 == m * c + t;
    assert x == 2 * m * c + (2 * t + s);
    ModUnique(x, 2 * m, c, 2 * t + s);
  }

  lemma ModUnique(x: nat, d: nat, q: nat, r: nat)
    requires d == 4 || d == 8 || d == 16
    requires x == d * q + r && r < d
    ensures x % d == r
  {
  }

  /** The control register `trigger` writes: the one read, with `trig_override` set. */
  function Triggered(b: bytes): Control
    requires |b| == 4
  {
    UnpackControl(b).(trigOverride := true)
  }

  /** `trigger`'s word is the read word's low four bits with bit 1 set. */
  lemma TriggerSetsBitOne(b: bytes)
    requires |b| == 4
    ensures var x := Deserialize(U32, b) % 16;
      ControlWord(Triggered(b)) == if TestBit(x, 1) then x else x + 2
  {
    var x := Deserialize(U32, b);
    RepackKeepsLowBits(b);
    assert Pow2(1) == 2;
    assert TestBit(x % 16, 1) == TestBit(x, 1);
  }

  /** `arm`: write the clear control, then the control with only `arm` set, both to `{name}_ctrl`. */
  method Arm(s: SnapshotBlock, transport: Mock) returns (r: Result<(), SnapshotError>)
    modifies transport
    ensures transport.registers == old(transport.registers)
    ensures var ctrl := s.name + CTRL;
      var w1 := WriteSpec(old(transport.memory), transport.registers, ctrl, 0, PackControl(CLEAR));
      if w1.Err? then
        r == Err(SnapshotError.Transport(w1.error)) && transport.memory == old(transport.memory) &&
        transport.writes == old(transport.writes) + [Access(ctrl, 0, PackControl(CLEAR))]
      else
        var w2 := WriteSpec(w1.value, transport.registers, ctrl, 0, PackControl(CLEAR.(arm := true)));
        transport.writes == old(transport.writes) + [Access(ctrl, 0, PackControl(CLEAR)), Access(ctrl, 0, PackControl(CLEAR.(arm := true)))] &&
        w2.Ok? && r == Ok(()) && transport.memory == w2.value
  {
    var ctrl := s.name + CTRL;
    var c := CLEAR;
    var w := transport.WriteBytes(ctrl, 0, PackControl(c));
    if w.Err? {
      return Err(SnapshotError.Transport(w.error));
    }
    c := c.(arm := true);
    w := transport.WriteBytes(ctrl, 0, PackControl(c));
    // The second write has the place and length of the first, so its `?` never fails.
    assert w.Ok?;
    return Ok(());
  }

  /** After a successful `arm`, the control register reads back with `arm` set and nothing else. */
  lemma ArmLeavesArmed(memory: map<nat, byte>, registers: map<bytes, Core.Register>, s: SnapshotBlock)
    requires var ctrl := s.name + CTRL;
      var w1 := WriteSpec(memory, registers, ctrl, 0, PackControl(CLEAR));
      w1.Ok? && WriteSpec(w1.value, registers, ctrl, 0, PackControl(CLEAR.(arm := true))).Ok?
    ensures var ctrl := s.name + CTRL;
      var w1 := WriteSpec(memory, registers, ctrl, 0, PackControl(CLEAR));
      var m := WriteSpec(w1.value, registers, ctrl, 0, PackControl(CLEAR.(arm := true))).value;
      var v := ReadSpec(m, registers, ctrl, 0, 4);
      v.Ok? && UnpackControl(v.value) == Control(true, false, false, false)
  {
    var ctrl := s.name + CTRL;
    var w1 := WriteSpec(memory, registers, ctrl, 0, PackControl(CLEAR));
    WriteThenRead(w1.value, registers, ctrl, 0, PackControl(CLEAR.(arm := true)));
    UnpackPack(CLEAR.(arm := true));
  }

  /** `read`: read the status (and ignore it), then `2^samples_n` bytes of `{name}_bram` from offset 0. */
  method Read(s: SnapshotBlock, transport: Mock) returns (r: Result<bytes, SnapshotError>)
    ensures var st := ReadSpec(transport.memory, transport.registers, s.name + STATUS, 0, 4);
      (st.Err? ==> r == Err(SnapshotError.Transport(st.error))) &&
      (st.Ok? && s.samplesN >= 32 ==> r == Err(Panic)) &&
      (st.Ok? && s.samplesN < 32 ==>
        var d := ReadSpec(transport.memory, transport.registers, s.name + BRAM, 0, Pow2(s.samplesN));
        (d.Ok? ==> r == Ok(d.value)) && (d.Err? ==> r == Err(SnapshotError.Transport(d.error))))
    ensures r.Ok? ==> |r.value| == Pow2(s.samplesN)
  {
    var st := transport.ReadNBytes(s.name + STATUS, 0, 4);
    if st.Err? {
      return Err(SnapshotError.Transport(st.error));
    }
    var _ := StatusDone(st.value);
    if s.samplesN >= 32 {
      return Err(Panic);
    }
    var d := transport.ReadNBytes(s.name + BRAM, 0, Pow2(s.samplesN));
    if d.Err? {
      return Err(SnapshotError.Transport(d.error));
    }
    return Ok(d.value);
  }

  /** `trigger`: read `{name}_ctrl`, set `trig_override`, write it back. */
  method Trigger(s: SnapshotBlock, transport: Mock) returns (r: Result<(), SnapshotError>)
    modifies transport
    ensures transport.registers == old(transport.registers)
    ensures var ctrl := s.name + CTRL;
      var c := ReadSpec(old(transport.memory), transport.registers, ctrl, 0, 4);
      if c.Err? then
        r == Err(SnapshotError.Transport(c.error)) && transport.memory == old(transport.memory) && transport.writes == old(transport.writes)
      else
        var w := WriteSpec(old(transport.memory), transport.registers, ctrl, 0, PackControl(Triggered(c.value)));
        transport.writes == old(transport.writes) + [Access(ctrl, 0, PackControl(Triggered(c.value)))] &&
        (w.Ok? ==> r == Ok(()) && transport.memory == w.value) &&
        (w.Err? ==> r == Err(SnapshotError.Transport(w.error)) && transport.memory == old(transport.memory))
  {
    var ctrl := s.name + CTRL;
    var c := transport.ReadNBytes(ctrl, 0, 4);
    if c.Err? {
      return Err(SnapshotError.Transport(c.error));
    }
    var control := UnpackControl(c.value);
    control := control.(trigOverride := true);
    var w := transport.WriteBytes(ctrl, 0, PackControl(control));
    if w.Err? {
      return Err(SnapshotError.Transport(w.error));
    }
    return Ok(());
  }

  /** `set_offset`: `NoOffsets`, touching nothing, without an offset register; else write the `u32`. */
  method SetOffset(s: SnapshotBlock, transport: Mock, offset: nat) returns (r: Result<(), SnapshotError>)
    requires Serde.InRange(U32, offset)
    modifies transport
    ensures !s.hasOffset ==> r == Err(NoOffsets) && unchanged(transport)
    ensures s.hasOffset ==>
      var reg := s.name + TRIG_OFFSET;
      var w := WriteSpec(old(transport.memory), transport.registers, reg, 0, Serialize(U32, offset));
      transport.registers == old(transport.registers) &&
      transport.writes == old(transport.writes) + [Access(reg, 0, Serialize(U32, offset))] &&
      (w.Ok? ==> r == Ok(()) && transport.memory == w.value) &&
      (w.Err? ==> r == Err(SnapshotError.Transport(w.error)) && transport.memory == old(transport.memory))
  {
    if !s.hasOffset {
      return Err(NoOffsets);
    }
    var w := transport.Write(U32, s.name + TRIG_OFFSET, 0, offset);
    if w.Err? {
      return Err(SnapshotError.Transport(w.error));
    }
    return Ok(());
  }
}
