// The table by which the `fpga_from_fpg!` macro of casperfpga_derive/src/fpg.rs turns the devices
// of an fpg file into the fields of a generated struct: which yellow block type each device kind
// becomes, with what metadata its constructor is called, and which devices become fields.
// Everything the macro would `expect`, `unwrap`, `unreachable!` or `panic!` on is `Panic`, an
// error at compile time. The generated code itself is not modelled: a `Constructor` records the
// field, the type and the metadata values the generated `from_fpg` call receives.
module FpgDerive {
  import opened Wrappers
  import opened Bytes
  import opened Serde
  import Fpg

  /** The Rust type a device becomes. */
  datatype YellowType =
    | FixedSoftwareRegister(signed: bool, fracBits: nat)
    | BooleanSoftwareRegister
    | TenGbE
    | SnapAdc
    | Snapshot(sample: IntType)

  /** A panic of the macro. */
  datatype DeriveError = Panic

  const SW_REG: bytes := [120, 112, 115, 58, 115, 119, 95, 114, 101, 103]
  const TEN_GBE: bytes := [120, 112, 115, 58, 116, 101, 110, 95, 103, 98, 101]
  const SNAP_ADC: bytes := [120, 112, 115, 58, 115, 110, 97, 112, 95, 97, 100, 99]
  const SNAPSHOT: bytes := [99, 97, 115, 112, 101, 114, 58, 115, 110, 97, 112, 115, 104, 111, 116]

  const ARITH_TYPES: bytes := [97, 114, 105, 116, 104, 95, 116, 121, 112, 101, 115]
  const BIN_PTS: bytes := [98, 105, 110, 95, 112, 116, 115]
  const DATA_WIDTH: bytes := [100, 97, 116, 97, 95, 119, 105, 100, 116, 104]
  const IO_DIR: bytes := [105, 111, 95, 100, 105, 114]
  const BITWIDTHS: bytes := [98, 105, 116, 119, 105, 100, 116, 104, 115]
  const NSAMPLES: bytes := [110, 115, 97, 109, 112, 108, 101, 115]
  const OFFSET: bytes := [111, 102, 102, 115, 101, 116]
  const SNAP: bytes := [83, 78, 65, 80]
  const CLK_SRC: bytes := [99, 108, 107, 95, 115, 114, 99]
  const ADC_RESOLUTION: bytes := [97, 100, 99, 95, 114, 101, 115, 111, 108, 117, 116, 105, 111, 110]
  const SAMPLE_RATE: bytes := [115, 97, 109, 112, 108, 101, 95, 114, 97, 116, 101]
  const SNAP_INPUTS: bytes := [115, 110, 97, 112, 95, 105, 110, 112, 117, 116, 115]

  /** The `arith_types` codes "0", "1" and "2". */
  const ARITH_UNSIGNED: bytes := [48]
  const ARITH_SIGNED: bytes := [49]
  const ARITH_BOOL: bytes := [50]

  /** The four kinds with a yellow block implementation. */
  predicate Mapped(kind: bytes) {
    kind == SW_REG || kind == TEN_GBE || kind == SNAP_ADC || kind == SNAPSHOT
  }

  /** `dev.metadata.get(key)`. */
  function Meta(dev: Fpg.Device, key: bytes): Option<bytes> {
    if key in dev.metadata then Some(dev.metadata[key]) else None
  }

  // ---------------------------------------------------------------------------
  // The type of a device
  // ---------------------------------------------------------------------------

  /**
   * `fixed_type`: `bin_pts` parsed as a `u32` is the number of fraction bits; `arith_types` "0"
   * is `FixedU32` and "1" is `FixedI32`.
   */
  function FixedType(dev: Fpg.Device): (r: Result<YellowType, DeriveError>)
    ensures r.Ok? <==>
      Meta(dev, BIN_PTS).Some? && ParseUnsigned(Meta(dev, BIN_PTS).value, U32_MAX).Some? &&
      (Meta(dev, ARITH_TYPES) == Some(ARITH_UNSIGNED) || Meta(dev, ARITH_TYPES) == Some(ARITH_SIGNED))
    ensures r.Ok? ==>
      r.value == FixedSoftwareRegister(Meta(dev, ARITH_TYPES) == Some(ARITH_SIGNED),
                                       ParseUnsigned(Meta(dev, BIN_PTS).value, U32_MAX).value)
  {
    match Meta(dev, BIN_PTS)
    case None => Err(Panic)
    case Some(text) =>
      match ParseUnsigned(text, U32_MAX)
      case None => Err(Panic)
      case Some(frac) =>
        match Meta(dev, ARITH_TYPES)
        case None => Err(Panic)
        case Some(arith) =>
          if arith == ARITH_UNSIGNED then Ok(FixedSoftwareRegister(false, frac))
          else if arith == ARITH_SIGNED then Ok(FixedSoftwareRegister(true, frac))
          else Err(Panic)
  }

  /** `disambiguate_sw_reg`: "0" and "1" are fixed-point registers, "2" a boolean one. */
  function SwRegType(dev: Fpg.Device): (r: Result<YellowType, DeriveError>)
    ensures Meta(dev, ARITH_TYPES) == Some(ARITH_BOOL) ==> r == Ok(BooleanSoftwareRegister)
    ensures Meta(dev, ARITH_TYPES) != Some(ARITH_BOOL) ==> r == FixedType(dev)
  {
    match Meta(dev, ARITH_TYPES)
    case None => Err(Panic)
    case Some(arith) =>
      if arith == ARITH_UNSIGNED || arith == ARITH_SIGNED then FixedType(dev)
      else if arith == ARITH_BOOL then Ok(BooleanSoftwareRegister)
      else Err(Panic)
  }

  /** The unsigned integer type of a snapshot's samples, by bit width. */
  function SampleType(width: nat): (r: Option<IntType>)
    ensures r.Some? ==> !Signed(r.value) && 8 * Width(r.value) == width
    ensures forall t {:trigger Width(t)} :: !Signed(t) && 8 * Width(t) == width ==> r == Some(t)
  {
    match width
    case 8 => Some(U8)
    case 16 => Some(U16)
    case 32 => Some(U32)
    case 64 => Some(U64)
    case 128 => Some(U128)
    case _ => None
  }

  /** `disambiguate_snapshot`: `data_width`, a `u32`, picks u8 .. u128. */
  function SnapshotType(dev: Fpg.Device): (r: Result<YellowType, DeriveError>)
    ensures r.Ok? <==>
      Meta(dev, DATA_WIDTH).Some? && ParseUnsigned(Meta(dev, DATA_WIDTH).value, U32_MAX).Some? &&
      SampleType(ParseUnsigned(Meta(dev, DATA_WIDTH).value, U32_MAX).value).Some?
    ensures r.Ok? ==>
      r.value.Snapshot? && !Signed(r.value.sample) &&
      ParseUnsigned(Meta(dev, DATA_WIDTH).value, U32_MAX) == Some(8 * Width(r.value.sample))
  {
    match Meta(dev, DATA_WIDTH)
    case None => Err(Panic)
    case Some(text) =>
      match ParseUnsigned(text, U32_MAX)
      case None => Err(Panic)
      case Some(width) =>
        match SampleType(width)
        case None => Err(Panic)
        case Some(t) => Ok(Snapshot(t))
  }

  /** `kind_to_type`: a type for the four mapped kinds, None for every other kind. */
  function KindToType(dev: Fpg.Device): (r: Result<Option<YellowType>, DeriveError>)
    ensures r == Ok(None) <==> !Mapped(dev.kind)
    ensures dev.kind == TEN_GBE ==> r == Ok(Some(TenGbE))
    ensures dev.kind == SNAP_ADC ==> r == Ok(Some(SnapAdc))
    ensures r.Ok? && r.value.Some? ==>
      (r.value.value.FixedSoftwareRegister? || r.value.value.BooleanSoftwareRegister? <==> dev.kind == SW_REG) &&
      (r.value.value.Snapshot? <==> dev.kind == SNAPSHOT)
  {
    if dev.kind == SW_REG then
      match SwRegType(dev)
      case Err(e) => Err(e)
      case Ok(t) => Ok(Some(t))
    else if dev.kind == TEN_GBE then Ok(Some(TenGbE))
    else if dev.kind == SNAP_ADC then Ok(Some(SnapAdc))
    else if dev.kind == SNAPSHOT then
      match SnapshotType(dev)
      case Err(e) => Err(e)
      case Ok(t) => Ok(Some(t))
    else Ok(None)
  }

  /** A software register as a design tool writes it is typed by its `arith_types` and `bin_pts`. */
  lemma SwRegText(dev: Fpg.Device, frac: nat)
    requires dev.kind == SW_REG && frac <= U32_MAX && Meta(dev, BIN_PTS) == Some(DecimalText(frac))
    ensures Meta(dev, ARITH_TYPES) == Some(ARITH_UNSIGNED) ==> KindToType(dev) == Ok(Some(FixedSoftwareRegister(false, frac)))
    ensures Meta(dev, ARITH_TYPES) == Some(ARITH_SIGNED) ==> KindToType(dev) == Ok(Some(FixedSoftwareRegister(true, frac)))
    ensures Meta(dev, ARITH_TYPES) == Some(ARITH_BOOL) ==> KindToType(dev) == Ok(Some(BooleanSoftwareRegister))
    ensures Meta(dev, ARITH_TYPES) !in {Some(ARITH_UNSIGNED), Some(ARITH_SIGNED), Some(ARITH_BOOL)} ==> KindToType(dev) == Err(Panic)
  {
    ParseDecimalText(frac, U32_MAX);
  }

  /** A snapshot whose `data_width` is written as the bit width of an unsigned type samples that type. */
  lemma SnapshotText(dev: Fpg.Device, t: IntType)
    requires dev.kind == SNAPSHOT && !Signed(t) && Meta(dev, DATA_WIDTH) == Some(DecimalText(8 * Width(t)))
    ensures KindToType(dev) == Ok(Some(Snapshot(t)))
  {
    ParseDecimalText(8 * Width(t), U32_MAX);
  }

  // ---------------------------------------------------------------------------
  // Constructors
  // ---------------------------------------------------------------------------

  /** One generated `let <field> = <type>::from_fpg(tweak.clone(), "<field>", <args>)?;`. */
  datatype Constructor = Constructor(field: bytes, ty: YellowType, args: seq<bytes>)

  /** The metadata values at keys, in order, or a panic if one is missing. */
  function MetaArgs(dev: Fpg.Device, keys: seq<bytes>): (r: Result<seq<bytes>, DeriveError>)
    ensures r.Ok? <==> forall k | 0 <= k < |keys| :: keys[k] in dev.metadata
    ensures r.Ok? ==> |r.value| == |keys| && forall k | 0 <= k < |keys| :: r.value[k] == dev.metadata[keys[k]]
  {
    if keys == [] then Ok([])
    else if keys[0] !in dev.metadata then Err(Panic)
    else
      match MetaArgs(dev, keys[1..])
      case Err(e) => Err(e)
      case Ok(rest) => Ok([dev.metadata[keys[0]]] + rest)
  }

  /** The keys whose values follow the name in each `from_fpg` call, in the order of its parameters. */
  function ArgKeys(ty: YellowType): seq<bytes> {
    match ty
    case FixedSoftwareRegister(_, _) => [IO_DIR, BITWIDTHS]
    case BooleanSoftwareRegister => [IO_DIR]
    case TenGbE => []
    case Snapshot(_) => [NSAMPLES, OFFSET]
    case SnapAdc => [ADC_RESOLUTION, SAMPLE_RATE, SNAP_INPUTS]
  }

  /**
   * `dev_to_constructor`: nothing for an unmapped kind or a name that is no identifier; otherwise
   * the constructor with its metadata arguments, and for a SNAP ADC the `clk_src` of the device
   * named "SNAP" last.
   */
  function DevToConstructor(name: bytes, devices: map<bytes, Fpg.Device>, isIdent: bytes -> bool)
    : (r: Result<Option<Constructor>, DeriveError>)
    requires name in devices
    ensures KindToType(devices[name]).Err? ==> r == Err(Panic)
    ensures KindToType(devices[name]) == Ok(None) || (KindToType(devices[name]).Ok? && !isIdent(name)) ==> r == Ok(None)
    ensures r.Ok? && r.value.Some? ==>
      var c := r.value.value;
      KindToType(devices[name]) == Ok(Some(c.ty)) && c.field == name && isIdent(name) &&
      MetaArgs(devices[name], ArgKeys(c.ty)).Ok? &&
      if c.ty.SnapAdc? then
        SNAP in devices && CLK_SRC in devices[SNAP].metadata &&
        c.args == MetaArgs(devices[name], ArgKeys(c.ty)).value + [devices[SNAP].metadata[CLK_SRC]]
      else
        c.args == MetaArgs(devices[name], ArgKeys(c.ty)).value
  {
    var dev := devices[name];
    match KindToType(dev)
    case Err(e) => Err(e)
    case Ok(None) => Ok(None)
    case Ok(Some(ty)) =>
      if !isIdent(name) then Ok(None)
      else if ty.SnapAdc? && (SNAP !in devices || CLK_SRC !in devices[SNAP].metadata) then Err(Panic)
      else
        match MetaArgs(dev, ArgKeys(ty))
        case Err(e) => Err(e)
        case Ok(args) =>
          var extra := if ty.SnapAdc? then [devices[SNAP].metadata[CLK_SRC]] else [];
          Ok(Some(Constructor(name, ty, args + extra)))
  }

  // ---------------------------------------------------------------------------
  // The generated struct
  // ---------------------------------------------------------------------------

  /** Names all present in the device map: one iteration order of its keys. */
  predicate Listed(devices: map<bytes, Fpg.Device>, order: seq<bytes>) {
    forall k | 0 <= k < |order| :: order[k] in devices
  }

  /** `generate_struct_fields`: a field for each device with a type; a name that is no identifier panics. */
  function StructFields(devices: map<bytes, Fpg.Device>, order: seq<bytes>, isIdent: bytes -> bool)
    : (r: Result<seq<(bytes, YellowType)>, DeriveError>)
    requires Listed(devices, order)
  {
    if order == [] then Ok([])
    else
      var n := order[0];
      match KindToType(devices[n])
      case Err(e) => Err(e)
      case Ok(t) =>
        if t.Some? && !isIdent(n) then Err(Panic)
        else
          match StructFields(devices, order[1..], isIdent)
          case Err(e) => Err(e)
          case Ok(rest) => Ok((if t.Some? then [(n, t.value)] else []) + rest)
  }

  /** `generate_field_names`: the same filter, keeping only the names. */
  function FieldNames(devices: map<bytes, Fpg.Device>, order: seq<bytes>, isIdent: bytes -> bool)
    : (r: Result<seq<bytes>, DeriveError>)
    requires Listed(devices, order)
  {
    if order == [] then Ok([])
    else
      var n := order[0];
      match KindToType(devices[n])
      case Err(e) => Err(e)
      case Ok(t) =>
        if t.Some? && !isIdent(n) then Err(Panic)
        else
          match FieldNames(devices, order[1..], isIdent)
          case Err(e) => Err(e)
          case Ok(rest) => Ok((if t.Some? then [n] else []) + rest)
  }

  /** `generate_constructors`: `dev_to_constructor` of every name, dropping the Nones. */
  function Constructors(devices: map<bytes, Fpg.Device>, order: seq<bytes>, isIdent: bytes -> bool)
    : (r: Result<seq<Constructor>, DeriveError>)
    requires Listed(devices, order)
  {
    if order == [] then Ok([])
    else
      match DevToConstructor(order[0], devices, isIdent)
      case Err(e) => Err(e)
      case Ok(c) =>
        match Constructors(devices, order[1..], isIdent)
        case Err(e) => Err(e)
        case Ok(rest) => Ok((if c.Some? then [c.value] else []) + rest)
  }

  /** The names of a list of fields. */
  function Names(fields: seq<(bytes, YellowType)>): (names: seq<bytes>)
    ensures |names| == |fields| && forall k | 0 <= k < |fields| :: names[k] == fields[k].0
  {
    if fields == [] then [] else [fields[0].0] + Names(fields[1..])
  }

  /** Generation panics exactly when some listed device's type panics or a typed name is no identifier. */
  predicate FieldPanics(devices: map<bytes, Fpg.Device>, n: bytes, isIdent: bytes -> bool)
    requires n in devices
  {
    KindToType(devices[n]).Err? || (KindToType(devices[n]).value.Some? && !isIdent(n))
  }

  lemma {:induction false} StructFieldsPanic(devices: map<bytes, Fpg.Device>, order: seq<bytes>, isIdent: bytes -> bool)
    requires Listed(devices, order)
    ensures StructFields(devices, order, isIdent).Err? <==>
      exists k | 0 <= k < |order| :: FieldPanics(devices, order[k], isIdent)
  {
    if order != [] {
      StructFieldsPanic(devices, order[1..], isIdent);
      if exists k | 0 <= k < |order| - 1 :: FieldPanics(devices, order[1..][k], isIdent) {
        var k :| 0 <= k < |order| - 1 && FieldPanics(devices, order[1..][k], isIdent);
        assert FieldPanics(devices, order[k + 1], isIdent);
      }
      if exists k | 0 <= k < |order| :: FieldPanics(devices, order[k], isIdent) {
        var k :| 0 <= k < |order| && FieldPanics(devices, order[k], isIdent);
        if k > 0 {
          assert FieldPanics(devices, order[1..][k - 1], isIdent);
        }
      }
    }
  }

  /** The field names are the names of the struct fields, in the same order and failing together. */
  lemma {:induction false} FieldNamesOfFields(devices: map<bytes, Fpg.Device>, order: seq<bytes>, isIdent: bytes -> bool)
    requires Listed(devices, order)
    ensures FieldNames(devices, order, isIdent).Ok? <==> StructFields(devices, order, isIdent).Ok?
    ensures FieldNames(devices, order, isIdent).Ok? ==>
      FieldNames(devices, order, isIdent).value == Names(StructFields(devices, order, isIdent).value)
  {
    if order != [] {
      FieldNamesOfFields(devices, order[1..], isIdent);
      var f := StructFields(devices, order, isIdent);
      if f.Ok? {
        var rest := StructFields(devices, order[1..], isIdent).value;
        var t := KindToType(devices[order[0]]).value;
        var head := if t.Some? then [(order[0], t.value)] else [];
        assert f.value == head + rest;
        assert Names(head + rest) == Names(head) + Names(rest);
      }
    }
  }

  /** A field is produced for a listed name exactly when its device has a type, and it has that type. */
  lemma StructFieldsExactly(devices: map<bytes, Fpg.Device>, order: seq<bytes>, isIdent: bytes -> bool, n: bytes)
    requires Listed(devices, order) && StructFields(devices, order, isIdent).Ok? && n in order
    ensures KindToType(devices[n]).Ok?
    ensures var fields := StructFields(devices, order, isIdent).value;
      (exists k | 0 <= k < |fields| :: fields[k].0 == n) <==> KindToType(devices[n]).value.Some?
    ensures var fields := StructFields(devices, order, isIdent).value;
      forall k | 0 <= k < |fields| :: fields[k].0 == n ==> KindToType(devices[n]) == Ok(Some(fields[k].1))
  {
    StructFieldsHas(devices, order, isIdent, n);
    var fields := StructFields(devices, order, isIdent).value;
    forall k | 0 <= k < |fields| && fields[k].0 == n
      ensures KindToType(devices[n]) == Ok(Some(fields[k].1))
    {
      StructFieldsFrom(devices, order, isIdent, k);
    }
  }

  /** Every listed name has a type, and one with a device type has a field. */
  lemma {:induction false} StructFieldsHas(devices: map<bytes, Fpg.Device>, order: seq<bytes>, isIdent: bytes -> bool, n: bytes)
    requires Listed(devices, order) && StructFields(devices, order, isIdent).Ok? && n in order
    ensures KindToType(devices[n]).Ok?
    ensures var fields := StructFields(devices, order, isIdent).value;
      KindToType(devices[n]).value.Some? ==> exists k | 0 <= k < |fields| :: fields[k].0 == n
  {
    var fields := StructFields(devices, order, isIdent).value;
    var t := KindToType(devices[order[0]]).value;
    var head := if t.Some? then [(order[0], t.value)] else [];
    var rest := StructFields(devices, order[1..], isIdent).value;
    assert fields == head + rest;
    if n == order[0] {
      if t.Some? {
        assert fields[0].0 == n;
      }
    } else {
      assert n in order[1..];
      StructFieldsHas(devices, order[1..], isIdent, n);
      if KindToType(devices[n]).value.Some? {
        var k :| 0 <= k < |rest| && rest[k].0 == n;
        assert fields[k + |head|].0 == n;
      }
    }
  }

  /** Every field comes from a listed name and carries that device's type. */
  lemma {:induction false} StructFieldsFrom(devices: map<bytes, Fpg.Device>, order: seq<bytes>, isIdent: bytes -> bool, k: nat)
    requires Listed(devices, order) && StructFields(devices, order, isIdent).Ok?
    requires k < |StructFields(devices, order, isIdent).value|
    ensures var f := StructFields(devices, order, isIdent).value[k];
      f.0 in order && KindToType(devices[f.0]) == Ok(Some(f.1))
  {
    var fields := StructFields(devices, order, isIdent).value;
    var t := KindToType(devices[order[0]]).value;
    var head := if t.Some? then [(order[0], t.value)] else [];
    var rest := StructFields(devices, order[1..], isIdent).value;
    assert fields == head + rest;
    if k >= |head| {
      assert fields[k] == rest[k - |head|];
      StructFieldsFrom(devices, order[1..], isIdent, k - |head|);
    }
  }

  /** A name that is not listed gets no field. */
  lemma StructFieldsNotIn(devices: map<bytes, Fpg.Device>, order: seq<bytes>, isIdent: bytes -> bool, n: bytes)
    requires Listed(devices, order) && StructFields(devices, order, isIdent).Ok? && n !in order
    ensures var fields := StructFields(devices, order, isIdent).value;
      forall k | 0 <= k < |fields| :: fields[k].0 != n
  {
    var fields := StructFields(devices, order, isIdent).value;
    forall k | 0 <= k < |fields|
      ensures fields[k].0 != n
    {
      StructFieldsFrom(devices, order, isIdent, k);
    }
  }

  /** Constructors and fields that match one to one, in order. */
  predicate Matches(cs: seq<Constructor>, fields: seq<(bytes, YellowType)>) {
    |cs| == |fields| && forall k | 0 <= k < |cs| :: cs[k].field == fields[k].0 && cs[k].ty == fields[k].1
  }

  lemma MatchesAppend(cs: seq<Constructor>, fields: seq<(bytes, YellowType)>,
                      cs': seq<Constructor>, fields': seq<(bytes, YellowType)>)
    requires Matches(cs, fields) && Matches(cs', fields')
    ensures Matches(cs + cs', fields + fields')
  {
    forall k | 0 <= k < |cs + cs'|
      ensures (cs + cs')[k].field == (fields + fields')[k].0 && (cs + cs')[k].ty == (fields + fields')[k].1
    {
      if k >= |cs| {
        assert (cs + cs')[k] == cs'[k - |cs|] && (fields + fields')[k] == fields'[k - |cs|];
      }
    }
  }

  /** One name contributes a constructor exactly when it contributes a field, and the two agree. */
  lemma HeadMatches(n: bytes, devices: map<bytes, Fpg.Device>, isIdent: bytes -> bool)
    requires n in devices && KindToType(devices[n]).Ok? && DevToConstructor(n, devices, isIdent).Ok?
    requires KindToType(devices[n]).value.Some? ==> isIdent(n)
    ensures var t, c := KindToType(devices[n]).value, DevToConstructor(n, devices, isIdent).value;
      Matches(if c.Some? then [c.value] else [], if t.Some? then [(n, t.value)] else [])
  {
  }

  /** When both succeed, the constructors and the fields match one to one, in order. */
  lemma {:induction false} ConstructorsMatchFields(devices: map<bytes, Fpg.Device>, order: seq<bytes>, isIdent: bytes -> bool)
    requires Listed(devices, order)
    requires StructFields(devices, order, isIdent).Ok? && Constructors(devices, order, isIdent).Ok?
    ensures Matches(Constructors(devices, order, isIdent).value, StructFields(devices, order, isIdent).value)
  {
    if order != [] {
      ConstructorsMatchFields(devices, order[1..], isIdent);
      var t := KindToType(devices[order[0]]).value;
      var c := DevToConstructor(order[0], devices, isIdent).value;
      var fhead := if t.Some? then [(order[0], t.value)] else [];
      var chead := if c.Some? then [c.value] else [];
      HeadMatches(order[0], devices, isIdent);
      MatchesAppend(chead, fhead, Constructors(devices, order[1..], isIdent).value, StructFields(devices, order[1..], isIdent).value);
    }
  }

  /**
   * A typed device whose name is no identifier is skipped by `dev_to_constructor` but makes
   * `generate_struct_fields` panic.
   */
  lemma BadIdentifier(devices: map<bytes, Fpg.Device>, order: seq<bytes>, isIdent: bytes -> bool, k: nat)
    requires Listed(devices, order) && k < |order|
    requires KindToType(devices[order[k]]).Ok? && KindToType(devices[order[k]]).value.Some? && !isIdent(order[k])
    ensures DevToConstructor(order[k], devices, isIdent) == Ok(None)
    ensures StructFields(devices, order, isIdent).Err?
  {
    assert FieldPanics(devices, order[k], isIdent);
    StructFieldsPanic(devices, order, isIdent);
  }
}
