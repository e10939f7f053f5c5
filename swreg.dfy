// The software register yellow block of casperfpga/src/yellow_blocks/swreg.rs: a 32-bit
// register read and written whole at offset 0 through the transport, with a direction check
// and, for fixed-point registers, an overflow check against the design's bit width. Fixed-point
// values are their raw 32-bit patterns. The older src/yellow_blocks/swreg.rs, which only
// classifies a device's metadata, closes the file.
module SoftwareRegister {
  import opened Wrappers
  import opened Bytes
  import opened Serde
  import opened MockTransport

  /** "To\_Processor", with the backslash the toolflow writes. */
  const TO_PROCESSOR: bytes := [84, 111, 92, 95, 80, 114, 111, 99, 101, 115, 115, 111, 114]
  /** "From\_Processor" */
  const FROM_PROCESSOR: bytes := [70, 114, 111, 109, 92, 95, 80, 114, 111, 99, 101, 115, 115, 111, 114]

  datatype Direction = ToProcessor | FromProcessor

  /**
   * `swreg::Error`, plus `Panic` for `2_usize.pow(width)` overflowing a 64-bit `usize` (a
   * debug build panics).
   */
  datatype SwregError = Transport(cause: MockError) | ReadOnly | BadDirection | BadBitwidth | Overflow | Panic

  /** A 32-bit fixed-point type of the `fixed` crate: its signedness and `FRAC_NBITS`. */
  datatype FixedType = FixedType(signed: bool, frac: nat)

  /** The integer type of the raw bits. */
  function BitsType(f: FixedType): (t: IntType)
    ensures Width(t) == 4 && (Signed(t) <==> f.signed)
  {
    if f.signed then I32 else U32
  }

  /** A `FixedSoftwareRegister`: direction, design bit width, name and fixed-point type. */
  datatype FixedRegister = FixedRegister(direction: Direction, width: nat, name: bytes, format: FixedType)

  /** A `BooleanSoftwareRegister`: direction and name. */
  datatype BooleanRegister = BooleanRegister(direction: Direction, name: bytes)

  /** The `match io_dir` of both `from_fpg`s. */
  function ParseDirection(ioDir: bytes): (r: Result<Direction, SwregError>)
    ensures r == Ok(ToProcessor) <==> ioDir == TO_PROCESSOR
    ensures r == Ok(FromProcessor) <==> ioDir == FROM_PROCESSOR
    ensures r.Err? ==> r.error == BadDirection
  {
    if ioDir == TO_PROCESSOR then Ok(ToProcessor)
    else if ioDir == FROM_PROCESSOR then Ok(FromProcessor)
    else Err(BadDirection)
  }

  /** `FixedSoftwareRegister::from_fpg`: the direction, then the bit width as a `usize`. */
  function FixedFromFpg(name: bytes, ioDir: bytes, bitwidths: bytes, format: FixedType): (r: Result<FixedRegister, SwregError>)
    ensures r.Ok? <==> ParseDirection(ioDir).Ok? && ParseUnsigned(bitwidths, USIZE_MAX).Some?
    ensures r.Ok? ==> r.value == FixedRegister(ParseDirection(ioDir).value, ParseUnsigned(bitwidths, USIZE_MAX).value, name, format)
    ensures ParseDirection(ioDir).Err? ==> r == Err(BadDirection)
    ensures ParseDirection(ioDir).Ok? && ParseUnsigned(bitwidths, USIZE_MAX).None? ==> r == Err(BadBitwidth)
  {
    var direction :- ParseDirection(ioDir);
    match ParseUnsigned(bitwidths, USIZE_MAX)
    case None => Err(BadBitwidth)
    case Some(width) => Ok(FixedRegister(direction, width, name, format))
  }

  /** `BooleanSoftwareRegister::from_fpg`: the direction only. */
  function BooleanFromFpg(name: bytes, ioDir: bytes): (r: Result<BooleanRegister, SwregError>)
    ensures r.Ok? <==> ParseDirection(ioDir).Ok?
    ensures r.Ok? ==> r.value == BooleanRegister(ParseDirection(ioDir).value, name)
    ensures r.Err? ==> r.error == BadDirection
  {
    var direction :- ParseDirection(ioDir);
    Ok(BooleanRegister(direction, name))
  }

  /** `2^width - 1 / 2^FRAC_NBITS` in `usize` arithmetic: the division is 1 or 0. */
  function Threshold(width: nat, frac: nat): nat {
    Pow2(width) - (if frac == 0 then 1 else 0)
  }

  /**
   * `val > threshold` for the value `bits / 2^frac`, as the `fixed` crate compares a fixed-point
   * number with an integer: exactly.
   */
  predicate Overflows(format: FixedType, width: nat, bits: int) {
    bits > Threshold(width, format.frac) * Pow2(format.frac)
  }

  /**
   * Without fraction bits the largest accepted value is `2^width - 1`; with fraction bits the
   * largest accepted value is `2^width` itself.
   */
  lemma OverflowBound(format: FixedType, width: nat, bits: int)
    ensures format.frac == 0 ==> (Overflows(format, width, bits) <==> bits >= Pow2(width))
    ensures format.frac > 0 ==> (Overflows(format, width, bits) <==> bits > Pow2(width + format.frac))
  {
    Pow2Add(width, format.frac);
  }

  /** A register of 32 or more bits (and below the panic) accepts every 32-bit value. */
  lemma WideNeverOverflows(format: FixedType, width: nat, bits: int)
    requires 32 <= width && Serde.InRange(BitsType(format), bits)
    ensures !Overflows(format, width, bits)
  {
    Pow2Monotone32(width);
    assert Pow256(4) == 0x1_0000_0000;
    OverflowBound(format, width, bits);
    if format.frac > 0 {
      Pow2Monotone32(width + format.frac);
    }
  }

  lemma {:induction false} Pow2Monotone32(k: nat)
    requires k >= 32
    ensures Pow2(k) >= 0x1_0000_0000
  {
    if k == 32 {
      Pow2Add(16, 16);
      assert Pow2(16) == 0x1_0000 by { Pow2Add(8, 8); }
    } else {
      Pow2Monotone32(k - 1);
    }
  }

  /** `read`: the 4 bytes at offset 0, as the fixed-point type's raw bits. */
  method ReadFixed(reg: FixedRegister, transport: Mock) returns (r: Result<int, SwregError>)
    ensures var b := ReadSpec(transport.memory, transport.registers, reg.name, 0, 4);
      (b.Ok? ==> r == Ok(Deserialize(BitsType(reg.format), b.value))) && (b.Err? ==> r == Err(SwregError.Transport(b.error)))
  {
    var v := transport.Read(BitsType(reg.format), reg.name, 0);
    if v.Err? {
      return Err(SwregError.Transport(v.error));
    }
    return Ok(v.value);
  }

  /**
   * `write`: refuse a ToProcessor register and an overflowing value before touching the
   * transport; otherwise write the 4 big-endian bytes at offset 0.
   */
  method WriteFixed(reg: FixedRegister, transport: Mock, bits: int) returns (r: Result<(), SwregError>)
    requires Serde.InRange(BitsType(reg.format), bits)
    modifies transport
    ensures reg.direction == ToProcessor ==> r == Err(ReadOnly)
    ensures reg.direction == FromProcessor && reg.width >= 64 ==> r == Err(Panic)
    ensures reg.direction == FromProcessor && reg.width < 64 && Overflows(reg.format, reg.width, bits) ==> r == Err(Overflow)
    ensures r == Err(ReadOnly) || r == Err(Panic) || r == Err(Overflow) ==> unchanged(transport)
    ensures reg.direction == FromProcessor && reg.width < 64 && !Overflows(reg.format, reg.width, bits) ==>
      var w := WriteSpec(old(transport.memory), transport.registers, reg.name, 0, Serialize(BitsType(reg.format), bits));
      transport.registers == old(transport.registers) &&
      transport.writes == old(transport.writes) + [Access(reg.name, 0, Serialize(BitsType(reg.format), bits))] &&
      (w.Ok? ==> r == Ok(()) && transport.memory == w.value) &&
      (w.Err? ==> r == Err(SwregError.Transport(w.error)) && transport.memory == old(transport.memory))
  {
    if reg.direction == ToProcessor {
      return Err(ReadOnly);
    }
    if reg.width >= 64 {
      return Err(Panic);
    }
    if Overflows(reg.format, reg.width, bits) {
      return Err(Overflow);
    }
    var w := transport.Write(BitsType(reg.format), reg.name, 0, bits);
    if w.Err? {
      return Err(SwregError.Transport(w.error));
    }
    return Ok(());
  }

  /** `read` of a boolean register: the `u32` at offset 0 is `true` exactly when it is 1. */
  method ReadBool(reg: BooleanRegister, transport: Mock) returns (r: Result<bool, SwregError>)
    ensures var b := ReadSpec(transport.memory, transport.registers, reg.name, 0, 4);
      (b.Ok? ==> r == Ok(Deserialize(U32, b.value) == 1)) && (b.Err? ==> r == Err(SwregError.Transport(b.error)))
  {
    var raw := transport.Read(U32, reg.name, 0);
    if raw.Err? {
      return Err(SwregError.Transport(raw.error));
    }
    return Ok(raw.value == 1);
  }

  /** `u32::from(val)`. */
  function BoolWord(v: bool): (x: nat)
    ensures x in {0, 1} && (x == 1 <==> v)
  {
    if v then 1 else 0
  }

  /** `write` of a boolean register: refuse ToProcessor, else write the `u32` 1 or 0. */
  method WriteBool(reg: BooleanRegister, transport: Mock, v: bool) returns (r: Result<(), SwregError>)
    modifies transport
    ensures reg.direction == ToProcessor ==> r == Err(ReadOnly) && unchanged(transport)
    ensures reg.direction == FromProcessor ==>
      var w := WriteSpec(old(transport.memory), transport.registers, reg.name, 0, Serialize(U32, BoolWord(v)));
      transport.registers == old(transport.registers) &&
      transport.writes == old(transport.writes) + [Access(reg.name, 0, Serialize(U32, BoolWord(v)))] &&
      (w.Ok? ==> r == Ok(()) && transport.memory == w.value) &&
      (w.Err? ==> r == Err(SwregError.Transport(w.error)) && transport.memory == old(transport.memory))
  {
    if reg.direction == ToProcessor {
      return Err(ReadOnly);
    }
    assert Serde.InRange(U32, BoolWord(v)) by { assert Pow256(4) == 0x1_0000_0000; }
    var w := transport.Write(U32, reg.name, 0, BoolWord(v));
    if w.Err? {
      return Err(SwregError.Transport(w.error));
    }
    return Ok(());
  }

  // ---------------------------------------------------------------------------
  // Reading back what was written
  // ---------------------------------------------------------------------------

  /** A fixed-point value the write accepted reads back as the same raw bits. */
  lemma FixedRoundTrip(memory: map<nat, byte>, registers: map<bytes, Core.Register>, reg: FixedRegister, bits: int)
    requires Serde.InRange(BitsType(reg.format), bits)
    requires WriteSpec(memory, registers, reg.name, 0, Serialize(BitsType(reg.format), bits)).Ok?
    ensures var m := WriteSpec(memory, registers, reg.name, 0, Serialize(BitsType(reg.format), bits)).value;
      var b := ReadSpec(m, registers, reg.name, 0, 4);
      b.Ok? && Deserialize(BitsType(reg.format), b.value) == bits
  {
    WriteThenReadNum(memory, registers, reg.name, 0, BitsType(reg.format), bits);
  }

  /** A boolean written reads back as itself. */
  lemma BoolRoundTrip(memory: map<nat, byte>, registers: map<bytes, Core.Register>, name: bytes, v: bool)
    requires Serde.InRange(U32, BoolWord(v))
    requires WriteSpec(memory, registers, name, 0, Serialize(U32, BoolWord(v))).Ok?
    ensures var m := WriteSpec(memory, registers, name, 0, Serialize(U32, BoolWord(v))).value;
      var b := ReadSpec(m, registers, name, 0, 4);
      b.Ok? && (Deserialize(U32, b.value) == 1) == v
  {
    var reg := FixedRegister(FromProcessor, 32, name, FixedType(false, 0));
    assert BitsType(reg.format) == U32;
    FixedRoundTrip(memory, registers, reg, BoolWord(v));
  }

  /** "my_reg" */
  const MY_REG: bytes := [109, 121, 95, 114, 101, 103]

  /** A fresh 4-byte `my_reg`. */
  const MY_REGISTERS: map<bytes, Core.Register> := map[MY_REG := Core.Register(0, 4)]

  /**
   * The test `test_fixed_readwrite`: 2.75 as U27F5 is the bits 88, which a 32-bit
   * FromProcessor register on a fresh `my_reg` accepts and reads back unchanged.
   */
  lemma UnsignedFixedVector()
    ensures var w := WriteSpec(ZeroFilled(MY_REGISTERS), MY_REGISTERS, MY_REG, 0, Serialize(U32, 88));
      88 as real / 32.0 == 2.75 && !Overflows(FixedType(false, 5), 32, 88) &&
      w.Ok? && ReadSpec(w.value, MY_REGISTERS, MY_REG, 0, 4) == Ok(Serialize(U32, 88))
  {
    assert Pow256(4) == 0x1_0000_0000;
    WideNeverOverflows(FixedType(false, 5), 32, 88);
    WriteThenRead(ZeroFilled(MY_REGISTERS), MY_REGISTERS, MY_REG, 0, Serialize(U32, 88));
  }

  /**
   * The test `test_ufixed_readwrite`: 3.15625 as I25F7 is the bits 404, which a 32-bit
   * FromProcessor register on a fresh `my_reg` accepts and reads back unchanged.
   */
  lemma SignedFixedVector()
    ensures var w := WriteSpec(ZeroFilled(MY_REGISTERS), MY_REGISTERS, MY_REG, 0, Serialize(I32, 404));
      404 as real / 128.0 == 3.15625 && !Overflows(FixedType(true, 7), 32, 404) &&
      w.Ok? && ReadSpec(w.value, MY_REGISTERS, MY_REG, 0, 4) == Ok(Serialize(I32, 404))
  {
    assert Pow256(4) == 0x1_0000_0000;
    WideNeverOverflows(FixedType(true, 7), 32, 404);
    WriteThenRead(ZeroFilled(MY_REGISTERS), MY_REGISTERS, MY_REG, 0, Serialize(I32, 404));
  }

  // ---------------------------------------------------------------------------
  // The older crate: src/yellow_blocks/swreg.rs
  // ---------------------------------------------------------------------------

  /** "xps:sw_reg" */
  const XPS_SW_REG: bytes := [120, 112, 115, 58, 115, 119, 95, 114, 101, 103]
  /** "io_dir" */
  const IO_DIR: bytes := [105, 111, 95, 100, 105, 114]
  /** "bin_pts" */
  const BIN_PTS: bytes := [98, 105, 110, 95, 112, 116, 115]
  /** "arith_types" */
  const ARITH_TYPES: bytes := [97, 114, 105, 116, 104, 95, 116, 121, 112, 101, 115]

  /** The older `Kind`. */
  datatype Kind = Bool | Fixed(binPts: nat, signed: bool)

  /** The older `SoftwareRegister`. */
  datatype ClassifiedRegister = ClassifiedRegister(direction: Direction, kind: Kind)

  /** The older `from_fpg`'s failures: the three `bail!` messages and the `bin_pts` parse error. */
  datatype ClassifyError = WrongKind | Malformed | Missing | BadNumber

  /**
   * The older `SoftwareRegister::from_fpg`: the kind must be `xps:sw_reg`; then `io_dir`, then
   * `bin_pts` (required even for a boolean register), then `arith_types` "0", "1" or "2".
   */
  function Classify(kind: bytes, metadata: map<bytes, bytes>): (r: Result<ClassifiedRegister, ClassifyError>)
    ensures r.Ok? ==> kind == XPS_SW_REG && IO_DIR in metadata && BIN_PTS in metadata && ARITH_TYPES in metadata
    ensures r.Ok? ==> ParseDirection(metadata[IO_DIR]) == Ok(r.value.direction)
    ensures r.Ok? ==> (r.value.kind.Bool? <==> metadata[ARITH_TYPES] == ['2' as int])
    ensures r.Ok? && r.value.kind.Fixed? ==>
      Some(r.value.kind.binPts) == ParseUnsigned(metadata[BIN_PTS], USIZE_MAX) &&
      (r.value.kind.signed <==> metadata[ARITH_TYPES] == ['1' as int]) && metadata[ARITH_TYPES] in {['0' as int], ['1' as int]}
    ensures kind != XPS_SW_REG ==> r == Err(WrongKind)
    ensures kind == XPS_SW_REG && IO_DIR !in metadata ==> r == Err(Missing)
    ensures kind == XPS_SW_REG && IO_DIR in metadata && ParseDirection(metadata[IO_DIR]).Err? ==> r == Err(Malformed)
    ensures kind == XPS_SW_REG && IO_DIR in metadata && ParseDirection(metadata[IO_DIR]).Ok? ==>
      (BIN_PTS !in metadata ==> r == Err(Missing)) &&
      (BIN_PTS in metadata && ParseUnsigned(metadata[BIN_PTS], USIZE_MAX).None? ==> r == Err(BadNumber))
    ensures kind == XPS_SW_REG && IO_DIR in metadata && ParseDirection(metadata[IO_DIR]).Ok? &&
            BIN_PTS in metadata && ParseUnsigned(metadata[BIN_PTS], USIZE_MAX).Some? ==>
      (ARITH_TYPES !in metadata ==> r == Err(Missing)) &&
      (ARITH_TYPES in metadata && metadata[ARITH_TYPES] !in {['0' as int], ['1' as int], ['2' as int]} ==> r == Err(Missing))
  {
    if kind != XPS_SW_REG then Err(WrongKind)
    else if IO_DIR !in metadata then Err(Missing)
    else if ParseDirection(metadata[IO_DIR]).Err? then Err(Malformed)
    else if BIN_PTS !in metadata then Err(Missing)
    else if ParseUnsigned(metadata[BIN_PTS], USIZE_MAX).None? then Err(BadNumber)
    else if ARITH_TYPES !in metadata then Err(Missing)
    else
      var direction := ParseDirection(metadata[IO_DIR]).value;
      var binPts := ParseUnsigned(metadata[BIN_PTS], USIZE_MAX).value;
      var arith := metadata[ARITH_TYPES];
      if arith == ['0' as int] then Ok(ClassifiedRegister(direction, Fixed(binPts, false)))
      else if arith == ['1' as int] then Ok(ClassifiedRegister(direction, Fixed(binPts, true)))
      else if arith == ['2' as int] then Ok(ClassifiedRegister(direction, Bool))
      else Err(Missing)
  }

  /** "io_delay" */
  const IO_DELAY: bytes := [105, 111, 95, 100, 101, 108, 97, 121]

  /** The test `test_from_fpg`: a FromProcessor unsigned register with no fraction bits. */
  lemma ClassifyVector()
    ensures Classify(XPS_SW_REG, map[IO_DIR := FROM_PROCESSOR, IO_DELAY := ['0' as int], BIN_PTS := ['0' as int],
                                     ARITH_TYPES := ['0' as int]])
      == Ok(ClassifiedRegister(FromProcessor, Fixed(0, false)))
  {
    var m := map[IO_DIR := FROM_PROCESSOR, IO_DELAY := ['0' as int], BIN_PTS := ['0' as int], ARITH_TYPES := ['0' as int]];
    assert m[IO_DIR] == FROM_PROCESSOR;
    assert m[BIN_PTS] == ['0' as int];
    assert m[ARITH_TYPES] == ['0' as int];
    assert DecValue(['0' as int]) == 0;
  }
}
