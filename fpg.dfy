// The CASPER FPG design-file grammar and device table of casper_utils/src/design_sources/fpg.rs,
// whose copy in casper_utils/src/bitstream/fpg.rs parses and assembles in exactly the same way.
// Every nom parser is a function from the input to `Some(Parsed(value, rest))` on success and
// `None` on a recoverable nom error (the only kind these complete parsers produce).
module Fpg {
  import opened Wrappers
  import opened Bytes

  const TAB: byte := 9
  const LF: byte := 10
  const CR: byte := 13
  const SPACE: byte := 32
  const SLASH: byte := '/' as int
  const UNDERSCORE: byte := '_' as int

  /** "#!/bin/kcpfpg" */
  const SHEBANG: bytes := [35, 33, 47, 98, 105, 110, 47, 107, 99, 112, 102, 112, 103]
  /** "?uploadbin" */
  const UPLOADBIN: bytes := [63, 117, 112, 108, 111, 97, 100, 98, 105, 110]
  /** "?register" */
  const REGISTER: bytes := [63, 114, 101, 103, 105, 115, 116, 101, 114]
  /** "?meta" */
  const META: bytes := [63, 109, 101, 116, 97]
  /** "?quit" */
  const QUIT: bytes := [63, 113, 117, 105, 116]
  /** "0x" */
  const HEX_PREFIX: bytes := [48, 120]

  /** The first bytes of a gzip member: magic 1F 8B and method 8 (deflate). */
  const GZIP_MAGIC: bytes := [0x1F, 0x8B, 0x08]

  /** A register on the FPGA bus: its 32-bit address and its size in bytes. */
  datatype Register = Register(addr: nat, size: nat)

  /** A device: its kind, the register of the same name if there is one, and its metadata. */
  datatype Device = Device(kind: bytes, register: Option<Register>, metadata: map<bytes, bytes>)

  /** A parsed design: the device table and the bitstream that follows `?quit`. */
  datatype Design = Design(devices: map<bytes, Device>, bitstream: bytes)

  /** One `?register NAME 0xADDR 0xSIZE` line. */
  datatype RegisterLine = RegisterLine(name: bytes, addr: nat, size: nat)

  /** One `?meta DEVICE KIND KEY VALUE` line. */
  datatype MetaLine = MetaLine(device: bytes, kind: bytes, key: bytes, value: bytes)

  /** A parser's output and the input it left. */
  datatype Parsed<T> = Parsed(value: T, rest: bytes)

  /** r is what is left of s after some prefix of s was consumed. */
  predicate EndsWith(s: bytes, r: bytes) {
    |r| <= |s| && s[|s| - |r|..] == r
  }

  lemma EndsWithTrans(s: bytes, t: bytes, r: bytes)
    requires EndsWith(s, t) && EndsWith(t, r)
    ensures EndsWith(s, r)
  {
    assert s[|s| - |r|..] == s[|s| - |t|..][|t| - |r|..];
  }

  // ---------------------------------------------------------------------------
  // Character classes and runs
  // ---------------------------------------------------------------------------

  /** nom's `is_space`: a space or a tab. */
  predicate IsSpace(b: byte) { b == SPACE || b == TAB }

  predicate IsLineByte(b: byte) { b == CR || b == LF }

  predicate NoSpaces(s: bytes) {
    forall k | 0 <= k < |s| :: !IsSpace(s[k])
  }

  /** The end of the run of spaces and tabs that starts at i. */
  function SpacesEnd(s: bytes, i: nat): (j: nat)
    requires i <= |s|
    ensures i <= j <= |s|
    ensures forall k | i <= k < j :: IsSpace(s[k])
    ensures j < |s| ==> !IsSpace(s[j])
    decreases |s| - i
  {
    if i == |s| || !IsSpace(s[i]) then i else SpacesEnd(s, i + 1)
  }

  /** `take_till(is_space)`: the end of the run of other bytes that starts at i. */
  function TokenEnd(s: bytes, i: nat): (j: nat)
    requires i <= |s|
    ensures i <= j <= |s|
    ensures forall k | i <= k < j :: !IsSpace(s[k])
    ensures j < |s| ==> IsSpace(s[j])
    decreases |s| - i
  {
    if i == |s| || IsSpace(s[i]) then i else TokenEnd(s, i + 1)
  }

  /** The end of the run of hex digits that starts at i. */
  function HexEnd(s: bytes, i: nat): (j: nat)
    requires i <= |s|
    ensures i <= j <= |s|
    ensures forall k | i <= k < j :: IsHexDigit(s[k])
    ensures j < |s| ==> !IsHexDigit(s[j])
    decreases |s| - i
  {
    if i == |s| || !IsHexDigit(s[i]) then i else HexEnd(s, i + 1)
  }

  /** The index of the first CR or LF at or after i, or |s|. */
  function LineEnd(s: bytes, i: nat): (j: nat)
    requires i <= |s|
    ensures i <= j <= |s|
    ensures forall k | i <= k < j :: !IsLineByte(s[k])
    ensures j < |s| ==> IsLineByte(s[j])
    decreases |s| - i
  {
    if i == |s| || IsLineByte(s[i]) then i else LineEnd(s, i + 1)
  }

  // ---------------------------------------------------------------------------
  // nom combinators
  // ---------------------------------------------------------------------------

  /** `tag(t)`. */
  function Tag(t: bytes, s: bytes): (r: Option<bytes>)
    ensures r.Some? ==> s == t + r.value
    ensures r.None? ==> |s| < |t| || s[..|t|] != t
  {
    if |t| <= |s| && s[..|t|] == t then
      assert s == t + s[|t|..];
      Some(s[|t|..])
    else None
  }

  /** `line_ending`: "\n" or "\r\n". */
  function LineEnding(s: bytes): (r: Option<bytes>)
    ensures r.Some? <==> (|s| >= 1 && s[0] == LF) || (|s| >= 2 && s[0] == CR && s[1] == LF)
    ensures r.Some? ==> EndsWith(s, r.value) && |r.value| < |s|
  {
    if |s| >= 1 && s[0] == LF then Some(s[1..])
    else if |s| >= 2 && s[0] == CR && s[1] == LF then Some(s[2..])
    else None
  }

  /** `space1`: one or more spaces and tabs, all of them consumed. */
  function Space1(s: bytes): (r: Option<bytes>)
    ensures r.Some? <==> |s| > 0 && IsSpace(s[0])
    ensures r.Some? ==> EndsWith(s, r.value) && |r.value| < |s| && (r.value == [] || !IsSpace(r.value[0]))
  {
    var j := SpacesEnd(s, 0);
    if j == 0 then None else Some(s[j..])
  }

  /**
   * `map_res(preceded(space1, take_till(is_space)), utf8_string)`: a field after its separating
   * whitespace, which must be valid UTF-8.
   */
  function Field(s: bytes): (r: Option<Parsed<bytes>>)
    ensures r.Some? ==> EndsWith(s, r.value.rest) && |r.value.rest| < |s|
    ensures r.Some? ==> NoSpaces(r.value.value) && ValidUtf8(r.value.value)
    ensures r.Some? ==> r.value.rest == [] || IsSpace(r.value.rest[0])
  {
    var t :- Space1(s);
    var j := TokenEnd(t, 0);
    if ValidUtf8(t[..j]) then
      EndsWithTrans(s, t, t[j..]);
      Some(Parsed(t[..j], t[j..]))
    else None
  }

  /** `map_res(preceded(tag("0x"), hex_digit1), from_hex)`: a `u32` in hexadecimal. */
  function HexNumber(s: bytes): (r: Option<Parsed<nat>>)
    ensures r.Some? ==> EndsWith(s, r.value.rest) && |r.value.rest| < |s|
    ensures r.Some? ==> r.value.value < Pow2(32)
  {
    var t :- Tag(HEX_PREFIX, s);
    var j := HexEnd(t, 0);
    if j == 0 then None
    else
      var v :- HexU32(t[..j]);
      assert EndsWith(s, t);
      EndsWithTrans(s, t, t[j..]);
      Some(Parsed(v, t[j..]))
  }

  /** `preceded(space1, hex_number)`. */
  function HexField(s: bytes): (r: Option<Parsed<nat>>)
    ensures r.Some? ==> EndsWith(s, r.value.rest) && |r.value.rest| < |s|
    ensures r.Some? ==> r.value.value < Pow2(32)
  {
    var t :- Space1(s);
    var n :- HexNumber(t);
    EndsWithTrans(s, t, n.rest);
    Some(n)
  }

  /**
   * `not_line_ending`: everything up to the first "\n" or "\r\n"; a CR that is not followed
   * by LF is an error.
   */
  function NotLineEnding(s: bytes): (r: Option<Parsed<bytes>>)
    ensures r.Some? ==> s == r.value.value + r.value.rest
    ensures r.Some? ==> forall k | 0 <= k < |r.value.value| :: !IsLineByte(r.value.value[k])
  {
    var j := LineEnd(s, 0);
    if j < |s| && s[j] == CR && !(j + 1 < |s| && s[j + 1] == LF) then None
    else
      assert s == s[..j] + s[j..];
      Some(Parsed(s[..j], s[j..]))
  }

  // ---------------------------------------------------------------------------
  // Lines
  // ---------------------------------------------------------------------------

  /** `shebang`, `uploadbin` and `quit`: a fixed tag and a line ending. */
  function TagLine(t: bytes, s: bytes): (r: Option<bytes>)
    ensures r.Some? ==> EndsWith(s, r.value) && |r.value| + |t| < |s|
  {
    var a :- Tag(t, s);
    var b :- LineEnding(a);
    assert EndsWith(s, a);
    EndsWithTrans(s, a, b);
    Some(b)
  }

  /** `register`: `?register`, a name, an address and a size. */
  function RegisterP(s: bytes): (r: Option<Parsed<RegisterLine>>)
    ensures r.Some? ==> EndsWith(s, r.value.rest) && |r.value.rest| < |s|
    ensures r.Some? ==> r.value.value.addr < Pow2(32) && r.value.value.size < Pow2(32)
    ensures r.Some? ==> NoSpaces(r.value.value.name) && ValidUtf8(r.value.value.name)
  {
    var a :- Tag(REGISTER, s);
    var name :- Field(a);
    var addr :- HexField(name.rest);
    var size :- HexField(addr.rest);
    var rest :- LineEnding(size.rest);
    assert EndsWith(s, a);
    EndsWithTrans(s, a, name.rest);
    EndsWithTrans(s, name.rest, addr.rest);
    EndsWithTrans(s, addr.rest, size.rest);
    EndsWithTrans(s, size.rest, rest);
    Some(Parsed(RegisterLine(name.value, addr.value, size.value), rest))
  }

  /** The device path, kind and key fields of a meta line. */
  function MetaFields(s: bytes): (r: Option<Parsed<(bytes, bytes, bytes)>>)
    ensures r.Some? ==> EndsWith(s, r.value.rest) && |r.value.rest| < |s|
  {
    var device :- Field(s);
    var kind :- Field(device.rest);
    var key :- Field(kind.rest);
    EndsWithTrans(s, device.rest, kind.rest);
    EndsWithTrans(s, kind.rest, key.rest);
    Some(Parsed((device.value, kind.value, key.value), key.rest))
  }

  /**
   * `map_res(preceded(space1, terminated(not_line_ending, line_ending)), utf8_string)`: the rest
   * of the line after its separating whitespace, which must be valid UTF-8.
   */
  function LineValue(s: bytes): (r: Option<Parsed<bytes>>)
    ensures r.Some? ==> EndsWith(s, r.value.rest) && |r.value.rest| < |s|
    ensures r.Some? ==> ValidUtf8(r.value.value) && forall k | 0 <= k < |r.value.value| :: !IsLineByte(r.value.value[k])
  {
    var b :- Space1(s);
    var value :- NotLineEnding(b);
    var rest :- LineEnding(value.rest);
    if !ValidUtf8(value.value) then None
    else
      assert EndsWith(b, value.rest);
      EndsWithTrans(s, b, value.rest);
      EndsWithTrans(s, value.rest, rest);
      Some(Parsed(value.value, rest))
  }

  /**
   * `meta`: `?meta`, a device path, a kind, a key and the rest of the line as the value. The
   * device path has every '/' replaced by '_' (a byte-for-byte replacement, since '/' is ASCII).
   */
  function MetaP(s: bytes): (r: Option<Parsed<MetaLine>>)
    ensures r.Some? ==> EndsWith(s, r.value.rest) && |r.value.rest| < |s|
  {
    var a :- Tag(META, s);
    var fields :- MetaFields(a);
    var value :- LineValue(fields.rest);
    assert EndsWith(s, a);
    EndsWithTrans(s, a, fields.rest);
    EndsWithTrans(s, fields.rest, value.rest);
    var (device, kind, key) := fields.value;
    Some(Parsed(MetaLine(ReplaceByte(device, SLASH, UNDERSCORE), kind, key, value.value), value.rest))
  }

  /** `many0(register)`: register lines up to the first input that is not one. */
  function Registers(s: bytes): (r: Parsed<seq<RegisterLine>>)
    ensures EndsWith(s, r.rest) && RegisterP(r.rest).None?
    decreases |s|
  {
    match RegisterP(s)
    case None => Parsed([], s)
    case Some(p) =>
      var q := Registers(p.rest);
      EndsWithTrans(s, p.rest, q.rest);
      Parsed([p.value] + q.value, q.rest)
  }

  /** `many0(meta)`. */
  function Metas(s: bytes): (r: Parsed<seq<MetaLine>>)
    ensures EndsWith(s, r.rest) && MetaP(r.rest).None?
    decreases |s|
  {
    match MetaP(s)
    case None => Parsed([], s)
    case Some(p) =>
      var q := Metas(p.rest);
      EndsWithTrans(s, p.rest, q.rest);
      Parsed([p.value] + q.value, q.rest)
  }

  lemma RegistersCons(s: bytes, l: RegisterLine, rest: bytes)
    requires RegisterP(s) == Some(Parsed(l, rest))
    ensures Registers(s) == Parsed([l] + Registers(rest).value, Registers(rest).rest)
  {
  }

  lemma MetasCons(s: bytes, m: MetaLine, rest: bytes)
    requires MetaP(s) == Some(Parsed(m, rest))
    ensures Metas(s) == Parsed([m] + Metas(rest).value, Metas(rest).rest)
  {
  }

  /** The lines of an FPG file, in the only order accepted, and the bytes after `?quit`. */
  datatype Lines = Lines(registers: seq<RegisterLine>, metas: seq<MetaLine>, bitstream: bytes)

  /** The combinator sequence of `fpg_file`: shebang, uploadbin, registers, metas, quit. */
  function Grammar(input: bytes): (g: Option<Lines>)
    ensures g.Some? ==> EndsWith(input, g.value.bitstream)
  {
    var a :- TagLine(SHEBANG, input);
    var b :- TagLine(UPLOADBIN, a);
    var regs := Registers(b);
    var metas := Metas(regs.rest);
    var bitstream :- TagLine(QUIT, metas.rest);
    EndsWithTrans(input, a, b);
    EndsWithTrans(input, b, regs.rest);
    EndsWithTrans(input, regs.rest, metas.rest);
    EndsWithTrans(input, metas.rest, bitstream);
    Some(Lines(regs.value, metas.value, bitstream))
  }

  /** The `?quit` line that produced the bitstream sits just before it in the input. */
  lemma QuitLineBefore(input: bytes, q: bytes, bitstream: bytes)
    requires EndsWith(input, q) && TagLine(QUIT, q) == Some(bitstream)
    ensures EndsWith(input, bitstream)
    ensures var k := |input| - |bitstream|;
      k >= |QUIT| + 1 &&
      (TagLine(QUIT, input[k - |QUIT| - 1..]) == Some(bitstream) || (k >= |QUIT| + 2 && TagLine(QUIT, input[k - |QUIT| - 2..]) == Some(bitstream)))
  {
    EndsWithTrans(input, q, bitstream);
    var a := Tag(QUIT, q).value;
    assert q == QUIT + a;
    if a[0] == LF {
      assert q == QUIT + [LF] + bitstream;
      assert input[|input| - |bitstream| - |QUIT| - 1..] == q;
    } else {
      assert q == QUIT + [CR, LF] + bitstream;
      assert input[|input| - |bitstream| - |QUIT| - 2..] == q;
    }
  }

  // ---------------------------------------------------------------------------
  // Device table
  // ---------------------------------------------------------------------------

  /** `Device::add_meta` and `FpgDevice::add_meta`: insert or overwrite the one key `k`. */
  function AddMeta(d: Device, k: bytes, v: bytes): (r: Device)
    ensures r.kind == d.kind && r.register == d.register
    ensures k in r.metadata && r.metadata[k] == v
    ensures forall j | j != k :: (j in r.metadata <==> j in d.metadata)
    ensures forall j | j != k && j in d.metadata :: r.metadata[j] == d.metadata[j]
  {
    d.(metadata := d.metadata[k := v])
  }

  /** The register map collected from the register lines: a later line replaces an earlier one. */
  function RegisterMap(regs: seq<RegisterLine>): map<bytes, Register>
  {
    if regs == [] then map[]
    else
      var l := regs[|regs| - 1];
      RegisterMap(regs[..|regs| - 1])[l.name := Register(l.addr, l.size)]
  }

  function Lookup(m: map<bytes, Register>, n: bytes): Option<Register> {
    if n in m then Some(m[n]) else None
  }

  /** One turn of the `for` loop of `fpg_file`: a new device takes the register of its name. */
  function Step(devices: map<bytes, Device>, registers: map<bytes, Register>, m: MetaLine): map<bytes, Device> {
    if m.device in devices then devices[m.device := AddMeta(devices[m.device], m.key, m.value)]
    else devices[m.device := Device(m.kind, Lookup(registers, m.device), map[m.key := m.value])]
  }

  /** The device table after the `for` loop has consumed `metas`. */
  function Assemble(registers: map<bytes, Register>, metas: seq<MetaLine>): map<bytes, Device>
  {
    if metas == [] then map[]
    else Step(Assemble(registers, metas[..|metas| - 1]), registers, metas[|metas| - 1])
  }

  /** `fpg_file`, as a value: None where the combinators fail. */
  function Parse(input: bytes): Option<Design> {
    var g :- Grammar(input);
    Some(Design(Assemble(RegisterMap(g.registers), g.metas), g.bitstream))
  }

  lemma AssembleSnoc(registers: map<bytes, Register>, metas: seq<MetaLine>, i: nat)
    requires i < |metas|
    ensures Assemble(registers, metas[..i + 1]) == Step(Assemble(registers, metas[..i]), registers, metas[i])
  {
    assert metas[..i + 1][..i] == metas[..i];
  }

  /** `fpg_file`: the combinators, then the device table built from the meta lines. */
  method FpgFile(input: bytes) returns (r: Option<Design>)
    ensures r == Parse(input)
  {
    var g := Grammar(input);
    if g.None? {
      return None;
    }
    var devices := BuildDevices(g.value.registers, g.value.metas);
    r := Some(Design(devices, g.value.bitstream));
  }

  /**
   * The `for` loop of `fpg_file`: a known name gets `add_meta`, a new name becomes a device that
   * takes (and removes) the register of its name.
   */
  method BuildDevices(regs: seq<RegisterLine>, metas: seq<MetaLine>) returns (devices: map<bytes, Device>)
    ensures devices == Assemble(RegisterMap(regs), metas)
  {
    ghost var all := RegisterMap(regs);
    var registers := RegisterMap(regs);
    devices := map[];
    assert registers == all - devices.Keys;
    var i := 0;
    while i < |metas|
      invariant i <= |metas|
      invariant devices == Assemble(all, metas[..i])
      invariant registers == all - devices.Keys
    {
      var m := metas[i];
      AssembleSnoc(all, metas, i);
      if m.device in devices {
        KeysKept(devices, m.device, AddMeta(devices[m.device], m.key, m.value));
        devices := devices[m.device := AddMeta(devices[m.device], m.key, m.value)];
      } else {
        var register := if m.device in registers then Some(registers[m.device]) else None;
        assert register == Lookup(all, m.device);
        var d := Device(m.kind, register, map[m.key := m.value]);
        KeyRemoved(all, registers, devices, m.device, d);
        registers := registers - {m.device};
        devices := devices[m.device := d];
      }
      i := i + 1;
    }
    assert metas[..|metas|] == metas;
  }

  lemma KeysKept(devices: map<bytes, Device>, n: bytes, d: Device)
    requires n in devices
    ensures devices[n := d].Keys == devices.Keys
  {
  }

  lemma KeyRemoved(all: map<bytes, Register>, registers: map<bytes, Register>, devices: map<bytes, Device>, n: bytes, d: Device)
    requires registers == all - devices.Keys
    ensures registers - {n} == all - devices[n := d].Keys
  {
  }

  // ---------------------------------------------------------------------------
  // What the device table holds
  // ---------------------------------------------------------------------------

  /** Meta line m sets key k of device n. */
  predicate Sets(m: MetaLine, n: bytes, k: bytes) {
    m.device == n && m.key == k
  }

  /** Exactly the names of the meta lines become devices. */
  lemma {:induction false} AssembleDomain(registers: map<bytes, Register>, metas: seq<MetaLine>, n: bytes)
    ensures n in Assemble(registers, metas) <==> exists i | 0 <= i < |metas| :: metas[i].device == n
    decreases |metas|
  {
    if metas != [] {
      var init := metas[..|metas| - 1];
      AssembleDomain(registers, init, n);
      if n in Assemble(registers, init) {
        var i :| 0 <= i < |init| && init[i].device == n;
        assert metas[i].device == n;
      }
      if exists i | 0 <= i < |metas| :: metas[i].device == n {
        var i :| 0 <= i < |metas| && metas[i].device == n;
        if i < |init| {
          assert init[i].device == n;
        }
      }
    }
  }

  /** A device's kind is that of the first meta line of its name; its register is the map's. */
  lemma {:induction false} AssembleKind(registers: map<bytes, Register>, metas: seq<MetaLine>, n: bytes)
    requires n in Assemble(registers, metas)
    ensures Assemble(registers, metas)[n].register == Lookup(registers, n)
    ensures exists i | 0 <= i < |metas| ::
      metas[i].device == n && metas[i].kind == Assemble(registers, metas)[n].kind && forall j | 0 <= j < i :: metas[j].device != n
    decreases |metas|
  {
    var init := metas[..|metas| - 1];
    var last := metas[|metas| - 1];
    if n in Assemble(registers, init) {
      AssembleKind(registers, init, n);
      var i :| 0 <= i < |init| && init[i].device == n && init[i].kind == Assemble(registers, init)[n].kind &&
        forall j | 0 <= j < i :: init[j].device != n;
      assert metas[i] == init[i];
      assert forall j | 0 <= j < i :: metas[j] == init[j];
    } else {
      assert last.device == n;
      AssembleDomain(registers, init, n);
      assert forall j | 0 <= j < |init| :: metas[j] == init[j];
    }
  }

  /** The last meta line sets key k of device n: the device now holds its value. */
  lemma MetadataLastSets(registers: map<bytes, Register>, metas: seq<MetaLine>, n: bytes, k: bytes)
    requires metas != [] && Sets(metas[|metas| - 1], n, k)
    ensures n in Assemble(registers, metas)
    ensures var md := Assemble(registers, metas)[n].metadata; k in md && md[k] == metas[|metas| - 1].value
  {
  }

  /** The last meta line is about another key or device: key k of device n is as before. */
  lemma MetadataLastOther(registers: map<bytes, Register>, metas: seq<MetaLine>, n: bytes, k: bytes)
    requires metas != [] && !Sets(metas[|metas| - 1], n, k)
    requires n in Assemble(registers, metas[..|metas| - 1])
    ensures n in Assemble(registers, metas)
    ensures var md := Assemble(registers, metas)[n].metadata;
      var old_md := Assemble(registers, metas[..|metas| - 1])[n].metadata;
      (k in md <==> k in old_md) && (k in md ==> md[k] == old_md[k])
  {
  }

  /** The last meta line created device n: it holds only that line's key. */
  lemma MetadataLastCreates(registers: map<bytes, Register>, metas: seq<MetaLine>, n: bytes, k: bytes)
    requires metas != [] && !Sets(metas[|metas| - 1], n, k)
    requires n in Assemble(registers, metas) && n !in Assemble(registers, metas[..|metas| - 1])
    ensures k !in Assemble(registers, metas)[n].metadata
    ensures metas[|metas| - 1].device == n
  {
  }

  /**
   * A device holds key k exactly when some meta line of its name sets k, and then the value of
   * the last such line.
   */
  lemma {:induction false} AssembleMetadata(registers: map<bytes, Register>, metas: seq<MetaLine>, n: bytes, k: bytes)
    requires n in Assemble(registers, metas)
    ensures k in Assemble(registers, metas)[n].metadata <==> exists i | 0 <= i < |metas| :: Sets(metas[i], n, k)
    ensures k in Assemble(registers, metas)[n].metadata ==>
      exists i | 0 <= i < |metas| :: Sets(metas[i], n, k) && metas[i].value == Assemble(registers, metas)[n].metadata[k] &&
        forall j | i < j < |metas| :: !Sets(metas[j], n, k)
    decreases |metas|
  {
    var init := metas[..|metas| - 1];
    assert forall j | 0 <= j < |init| :: metas[j] == init[j];
    if Sets(metas[|metas| - 1], n, k) {
      MetadataLastSets(registers, metas, n, k);
    } else if n in Assemble(registers, init) {
      MetadataLastOther(registers, metas, n, k);
      AssembleMetadata(registers, init, n, k);
    } else {
      MetadataLastCreates(registers, metas, n, k);
      AssembleDomain(registers, init, n);
    }
  }

  /** A name is in the register map exactly when a line declares it, with the last such line's values. */
  lemma {:induction false} RegisterMapLast(regs: seq<RegisterLine>, n: bytes)
    ensures n in RegisterMap(regs) <==> exists i | 0 <= i < |regs| :: regs[i].name == n
    ensures n in RegisterMap(regs) ==>
      exists i | 0 <= i < |regs| :: regs[i].name == n && RegisterMap(regs)[n] == Register(regs[i].addr, regs[i].size) &&
        forall j | i < j < |regs| :: regs[j].name != n
    decreases |regs|
  {
    if regs != [] {
      var init := regs[..|regs| - 1];
      var last := regs[|regs| - 1];
      RegisterMapLast(init, n);
      if last.name != n {
        if n in RegisterMap(init) {
          var i :| 0 <= i < |init| && init[i].name == n && RegisterMap(init)[n] == Register(init[i].addr, init[i].size) &&
            forall j | i < j < |init| :: init[j].name != n;
          assert regs[i] == init[i];
          assert forall j | i < j < |regs| - 1 :: regs[j] == init[j];
        }
        if exists i | 0 <= i < |regs| :: regs[i].name == n {
          var i :| 0 <= i < |regs| && regs[i].name == n;
          assert init[i].name == n;
        }
      } else {
        assert regs[|regs| - 1].name == n;
      }
    }
  }

  /**
   * In a parsed design, a device takes the register of its name declared last, registers without
   * a meta line are dropped, and the bitstream is the input after the `?quit` line.
   */
  lemma ParsedDevices(input: bytes, n: bytes)
    requires Parse(input).Some?
    ensures var g := Grammar(input).value;
      var d := Parse(input).value;
      EndsWith(input, d.bitstream) && d.bitstream == g.bitstream &&
      (n in d.devices <==> exists i | 0 <= i < |g.metas| :: g.metas[i].device == n) &&
      (n in d.devices ==> (d.devices[n].register.Some? <==> exists i | 0 <= i < |g.registers| :: g.registers[i].name == n))
  {
    var g := Grammar(input).value;
    AssembleDomain(RegisterMap(g.registers), g.metas, n);
    RegisterMapLast(g.registers, n);
    if n in Parse(input).value.devices {
      AssembleKind(RegisterMap(g.registers), g.metas, n);
    }
  }

  // ---------------------------------------------------------------------------
  // read_fpg_file
  // ---------------------------------------------------------------------------

  datatype FpgError = ParseMatch | Panic

  /** A design as read: `gzip` says whether the bitstream goes on to be decompressed. */
  datatype Loaded = Loaded(design: Design, gzip: bool)

  /**
   * What `read_fpg_file` does with the parse, as written: the comparison of `bitstream[..3]`
   * with the gzip magic panics on a bitstream shorter than three bytes.
   */
  function LoadAsWritten(p: Option<Design>): (r: Result<Loaded, FpgError>)
    ensures r.Err? <==> p.None? || |p.value.bitstream| < 3
    ensures r.Ok? ==> r.value.design == p.value && (r.value.gzip <==> p.value.bitstream[..3] == GZIP_MAGIC)
  {
    match p
    case None => Err(ParseMatch)
    case Some(d) =>
      if |d.bitstream| < 3 then Err(Panic) else Ok(Loaded(d, d.bitstream[..3] == GZIP_MAGIC))
  }

  /** `read_fpg_file` as written, after the file is read. */
  function ReadFpgFileAsWritten(contents: bytes): Result<Loaded, FpgError> {
    LoadAsWritten(Parse(contents))
  }

  /** A file whose bitstream is empty makes the magic check panic. */
  lemma ShortBitstreamPanics()
    ensures ReadFpgFileAsWritten(FileText([], [], [])) == Err(Panic)
  {
    FileRoundTrip([], [], []);
  }

  /** Whether a bitstream starts with the gzip magic; a short one does not. */
  predicate IsGzip(bitstream: bytes) {
    |bitstream| >= 3 && bitstream[..3] == GZIP_MAGIC
  }

  /** The magic compared only when there are three bytes to compare. */
  function Load(p: Option<Design>): (r: Result<Loaded, FpgError>)
    ensures r.Err? <==> p.None?
    ensures r.Err? ==> r.error == ParseMatch
    ensures r.Ok? ==> r.value.design == p.value
    ensures r.Ok? ==> (r.value.gzip <==> |p.value.bitstream| >= 3 && p.value.bitstream[..3] == GZIP_MAGIC)
  {
    match p
    case None => Err(ParseMatch)
    case Some(d) => Ok(Loaded(d, IsGzip(d.bitstream)))
  }

  /** `read_fpg_file`, after the file is read, with the short-bitstream panic removed. */
  function ReadFpgFile(contents: bytes): Result<Loaded, FpgError> {
    Load(Parse(contents))
  }

  /** The two agree on every parse whose bitstream has at least three bytes. */
  lemma LoadAgrees(p: Option<Design>)
    requires p.Some? ==> |p.value.bitstream| >= 3
    ensures LoadAsWritten(p) == Load(p)
  {
  }

  // ---------------------------------------------------------------------------
  // Writing FPG text, and reading it back
  // ---------------------------------------------------------------------------

  /** A name or key that survives `take_till(is_space)` and `utf8_string`. */
  predicate GoodToken(x: bytes) {
    |x| > 0 && NoSpaces(x) && ValidUtf8(x)
  }

  predicate GoodRegister(l: RegisterLine) {
    GoodToken(l.name) && l.addr < Pow2(32) && l.size < Pow2(32)
  }

  /** A meta value: the rest of a line, not starting with whitespace that `space1` would eat. */
  predicate GoodValue(v: bytes) {
    ValidUtf8(v) && (v == [] || !IsSpace(v[0])) && forall k | 0 <= k < |v| :: !IsLineByte(v[k])
  }

  predicate GoodMeta(m: MetaLine) {
    GoodToken(m.device) && GoodToken(m.kind) && GoodToken(m.key) && GoodValue(m.value)
  }

  function FieldOnto(x: bytes, k: bytes): bytes {
    [TAB] + (x + k)
  }

  function HexOnto(n: nat, k: bytes): bytes {
    [TAB] + (HEX_PREFIX + (LowerHex(n) + k))
  }

  /** `?register\tNAME\t0xADDR\t0xSIZE\n` in front of k. */
  function RegisterOnto(l: RegisterLine, k: bytes): bytes {
    REGISTER + FieldOnto(l.name, HexOnto(l.addr, HexOnto(l.size, [LF] + k)))
  }

  /** `?meta\tDEVICE\tKIND\tKEY\tVALUE\n` in front of k. */
  function MetaOnto(m: MetaLine, k: bytes): bytes {
    META + FieldOnto(m.device, FieldOnto(m.kind, FieldOnto(m.key, [TAB] + (m.value + ([LF] + k)))))
  }

  function RegistersOnto(regs: seq<RegisterLine>, k: bytes): bytes {
    if regs == [] then k else RegisterOnto(regs[0], RegistersOnto(regs[1..], k))
  }

  function MetasOnto(metas: seq<MetaLine>, k: bytes): bytes {
    if metas == [] then k else MetaOnto(metas[0], MetasOnto(metas[1..], k))
  }

  /** A whole FPG file with LF line endings. */
  function FileText(regs: seq<RegisterLine>, metas: seq<MetaLine>, bitstream: bytes): bytes {
    SHEBANG + ([LF] + (UPLOADBIN + ([LF] + RegistersOnto(regs, MetasOnto(metas, QUIT + ([LF] + bitstream))))))
  }

  /** A meta line as `meta` returns it: the device path with '/' replaced by '_'. */
  function Normalised(m: MetaLine): MetaLine {
    m.(device := ReplaceByte(m.device, SLASH, UNDERSCORE))
  }

  function AllNormalised(metas: seq<MetaLine>): (r: seq<MetaLine>)
    ensures |r| == |metas| && forall i | 0 <= i < |metas| :: r[i] == Normalised(metas[i])
  {
    if metas == [] then [] else [Normalised(metas[0])] + AllNormalised(metas[1..])
  }

  lemma TagOnto(t: bytes, x: bytes)
    ensures Tag(t, t + x) == Some(x)
  {
    assert (t + x)[..|t|] == t;
    assert (t + x)[|t|..] == x;
  }

  lemma Space1Onto(x: bytes)
    requires x == [] || !IsSpace(x[0])
    ensures Space1([TAB] + x) == Some(x)
  {
    var s := [TAB] + x;
    assert SpacesEnd(s, 1) == 1;
    assert s[1..] == x;
  }

  lemma {:induction false} TokenEndOnto(x: bytes, k: bytes, i: nat)
    requires i <= |x| && NoSpaces(x) && (k == [] || IsSpace(k[0]))
    ensures TokenEnd(x + k, i) == |x|
    decreases |x| - i
  {
    if i < |x| {
      TokenEndOnto(x, k, i + 1);
    }
  }

  lemma FieldOntoParses(x: bytes, k: bytes)
    requires GoodToken(x) && (k == [] || IsSpace(k[0]))
    ensures Field(FieldOnto(x, k)) == Some(Parsed(x, k))
  {
    Space1Onto(x + k);
    TokenEndOnto(x, k, 0);
    assert (x + k)[..|x|] == x && (x + k)[|x|..] == k;
  }

  lemma {:induction false} HexEndOnto(d: bytes, k: bytes, i: nat)
    requires i <= |d| && (forall j | 0 <= j < |d| :: IsHexDigit(d[j])) && (k == [] || !IsHexDigit(k[0]))
    ensures HexEnd(d + k, i) == |d|
    decreases |d| - i
  {
    if i < |d| {
      HexEndOnto(d, k, i + 1);
    }
  }

  lemma HexOntoParses(n: nat, k: bytes)
    requires n < Pow2(32) && (k == [] || !IsHexDigit(k[0]))
    ensures HexField(HexOnto(n, k)) == Some(Parsed(n, k))
  {
    var d := LowerHex(n);
    LowerHexValue(n);
    Space1Onto(HEX_PREFIX + (d + k));
    TagOnto(HEX_PREFIX, d + k);
    HexEndOnto(d, k, 0);
    assert (d + k)[..|d|] == d && (d + k)[|d|..] == k;
  }

  lemma {:induction false} LineEndOnto(v: bytes, k: bytes, i: nat)
    requires i <= |v| && (forall j | 0 <= j < |v| :: !IsLineByte(v[j])) && |k| > 0 && k[0] == LF
    ensures LineEnd(v + k, i) == |v|
    decreases |v| - i
  {
    if i < |v| {
      LineEndOnto(v, k, i + 1);
    }
  }

  /** `register` reads back the line that `RegisterOnto` writes. */
  lemma RegisterOntoParses(l: RegisterLine, k: bytes)
    requires GoodRegister(l)
    ensures RegisterP(RegisterOnto(l, k)) == Some(Parsed(l, k))
  {
    var size := HexOnto(l.size, [LF] + k);
    var addr := HexOnto(l.addr, size);
    TagOnto(REGISTER, FieldOnto(l.name, addr));
    FieldOntoParses(l.name, addr);
    HexOntoParses(l.addr, size);
    HexOntoParses(l.size, [LF] + k);
  }

  lemma MetaFieldsOnto(m: MetaLine, k: bytes)
    requires GoodToken(m.device) && GoodToken(m.kind) && GoodToken(m.key) && (k == [] || IsSpace(k[0]))
    ensures MetaFields(FieldOnto(m.device, FieldOnto(m.kind, FieldOnto(m.key, k)))) == Some(Parsed((m.device, m.kind, m.key), k))
  {
    var key := FieldOnto(m.key, k);
    var kind := FieldOnto(m.kind, key);
    FieldOntoParses(m.device, kind);
    FieldOntoParses(m.kind, key);
    FieldOntoParses(m.key, k);
  }

  lemma LineValueOnto(v: bytes, k: bytes)
    requires GoodValue(v)
    ensures LineValue([TAB] + (v + ([LF] + k))) == Some(Parsed(v, k))
  {
    var tail := [LF] + k;
    Space1Onto(v + tail);
    LineEndOnto(v, tail, 0);
    assert (v + tail)[..|v|] == v && (v + tail)[|v|..] == tail;
    assert tail[1..] == k;
  }

  /** `meta` reads back the line that `MetaOnto` writes, with its path normalised. */
  lemma MetaOntoParses(m: MetaLine, k: bytes)
    requires GoodMeta(m)
    ensures MetaP(MetaOnto(m, k)) == Some(Parsed(Normalised(m), k))
  {
    var value := [TAB] + (m.value + ([LF] + k));
    var fields := FieldOnto(m.device, FieldOnto(m.kind, FieldOnto(m.key, value)));
    TagOnto(META, fields);
    MetaFieldsOnto(m, value);
    LineValueOnto(m.value, k);
  }

  /** Text whose second byte is not 'r' is no register line. */
  lemma NotRegister(x: bytes)
    requires |x| >= 2 && x[1] != 'r' as int
    ensures RegisterP(x).None?
  {
    if |x| >= |REGISTER| {
      assert x[..|REGISTER|][1] != REGISTER[1];
    }
  }

  /** Text whose second byte is not 'm' is no meta line. */
  lemma NotMeta(x: bytes)
    requires |x| >= 2 && x[1] != 'm' as int
    ensures MetaP(x).None?
  {
    if |x| >= |META| {
      assert x[..|META|][1] != META[1];
    }
  }

  lemma {:induction false} RegistersOntoParse(regs: seq<RegisterLine>, k: bytes)
    requires forall i | 0 <= i < |regs| :: GoodRegister(regs[i])
    requires RegisterP(k).None?
    ensures Registers(RegistersOnto(regs, k)) == Parsed(regs, k)
    decreases |regs|
  {
    if regs != [] {
      assert [regs[0]] + regs[1..] == regs;
      var rest := RegistersOnto(regs[1..], k);
      var s := RegistersOnto(regs, k);
      assert s == RegisterOnto(regs[0], rest);
      RegistersOntoParse(regs[1..], k);
      RegisterOntoParses(regs[0], rest);
      RegistersCons(s, regs[0], rest);
    }
  }

  lemma {:induction false} MetasOntoParse(metas: seq<MetaLine>, k: bytes)
    requires forall i | 0 <= i < |metas| :: GoodMeta(metas[i])
    requires MetaP(k).None?
    ensures Metas(MetasOnto(metas, k)) == Parsed(AllNormalised(metas), k)
    decreases |metas|
  {
    if metas != [] {
      var rest := MetasOnto(metas[1..], k);
      MetaOntoParses(metas[0], rest);
      MetasCons(MetasOnto(metas, k), Normalised(metas[0]), rest);
      MetasOntoParse(metas[1..], k);
    }
  }

  /** The meta lines, and the quit line after them, start with "?m" or "?q". */
  lemma MetasOntoStart(metas: seq<MetaLine>, bitstream: bytes)
    ensures var x := MetasOnto(metas, QUIT + ([LF] + bitstream));
      |x| >= 2 && (x[1] == 'm' as int || x[1] == 'q' as int)
  {
    if metas != [] {
      assert MetasOnto(metas, QUIT + ([LF] + bitstream))[1] == META[1];
    } else {
      assert (QUIT + ([LF] + bitstream))[1] == QUIT[1];
    }
  }

  lemma TagLineOnto(t: bytes, k: bytes)
    ensures TagLine(t, t + ([LF] + k)) == Some(k)
  {
    TagOnto(t, [LF] + k);
  }

  lemma GrammarOf(input: bytes, a: bytes, b: bytes, regs: seq<RegisterLine>, ms: bytes, metas: seq<MetaLine>, q: bytes, bitstream: bytes)
    requires TagLine(SHEBANG, input) == Some(a) && TagLine(UPLOADBIN, a) == Some(b)
    requires Registers(b) == Parsed(regs, ms) && Metas(ms) == Parsed(metas, q) && TagLine(QUIT, q) == Some(bitstream)
    ensures Grammar(input) == Some(Lines(regs, metas, bitstream))
  {
  }

  /** The register lines, meta lines and quit line read back. */
  lemma BodyParses(regs: seq<RegisterLine>, metas: seq<MetaLine>, bitstream: bytes)
    requires forall i | 0 <= i < |regs| :: GoodRegister(regs[i])
    requires forall i | 0 <= i < |metas| :: GoodMeta(metas[i])
    ensures var quit := QUIT + ([LF] + bitstream);
      var ms := MetasOnto(metas, quit);
      Registers(RegistersOnto(regs, ms)) == Parsed(regs, ms) &&
      Metas(ms) == Parsed(AllNormalised(metas), quit) &&
      TagLine(QUIT, quit) == Some(bitstream)
  {
    var quit := QUIT + ([LF] + bitstream);
    var ms := MetasOnto(metas, quit);
    RegistersPartParses(regs, metas, bitstream);
    MetasPartParses(metas, bitstream);
  }

  lemma RegistersPartParses(regs: seq<RegisterLine>, metas: seq<MetaLine>, bitstream: bytes)
    requires forall i | 0 <= i < |regs| :: GoodRegister(regs[i])
    ensures var ms := MetasOnto(metas, QUIT + ([LF] + bitstream));
      Registers(RegistersOnto(regs, ms)) == Parsed(regs, ms)
  {
    var ms := MetasOnto(metas, QUIT + ([LF] + bitstream));
    MetasOntoStart(metas, bitstream);
    NotRegister(ms);
    RegistersOntoParse(regs, ms);
  }

  lemma QuitStart(bitstream: bytes)
    ensures |QUIT + ([LF] + bitstream)| >= 2 && (QUIT + ([LF] + bitstream))[1] == 'q' as int
  {
  }

  lemma MetasPartParses(metas: seq<MetaLine>, bitstream: bytes)
    requires forall i | 0 <= i < |metas| :: GoodMeta(metas[i])
    ensures var quit := QUIT + ([LF] + bitstream);
      Metas(MetasOnto(metas, quit)) == Parsed(AllNormalised(metas), quit) && TagLine(QUIT, quit) == Some(bitstream)
  {
    var quit := QUIT + ([LF] + bitstream);
    QuitStart(bitstream);
    NotMeta(quit);
    MetasOntoParse(metas, quit);
    TagLineOnto(QUIT, bitstream);
  }

  /**
   * Reading a file written from well-formed lines gives back exactly those lines, with the meta
   * paths normalised, and the bytes after `?quit` untouched.
   */
  lemma GrammarRoundTrip(regs: seq<RegisterLine>, metas: seq<MetaLine>, bitstream: bytes)
    requires forall i | 0 <= i < |regs| :: GoodRegister(regs[i])
    requires forall i | 0 <= i < |metas| :: GoodMeta(metas[i])
    ensures Grammar(FileText(regs, metas, bitstream)) == Some(Lines(regs, AllNormalised(metas), bitstream))
  {
    var quit := QUIT + ([LF] + bitstream);
    var ms := MetasOnto(metas, quit);
    var rs := RegistersOnto(regs, ms);
    var up := UPLOADBIN + ([LF] + rs);
    TagLineOnto(SHEBANG, up);
    TagLineOnto(UPLOADBIN, rs);
    BodyParses(regs, metas, bitstream);
    GrammarOf(FileText(regs, metas, bitstream), up, rs, regs, ms, AllNormalised(metas), quit, bitstream);
  }

  /** The design read from such a file: the device table of its lines and its bitstream. */
  lemma FileRoundTrip(regs: seq<RegisterLine>, metas: seq<MetaLine>, bitstream: bytes)
    requires forall i | 0 <= i < |regs| :: GoodRegister(regs[i])
    requires forall i | 0 <= i < |metas| :: GoodMeta(metas[i])
    ensures Parse(FileText(regs, metas, bitstream)) ==
      Some(Design(Assemble(RegisterMap(regs), AllNormalised(metas)), bitstream))
  {
    GrammarRoundTrip(regs, metas, bitstream);
  }


  // ---------------------------------------------------------------------------
  // The source's test vectors
  // ---------------------------------------------------------------------------

  /** "fft_overflow_cnt" */
  const FFT_OVERFLOW_CNT: bytes := [102, 102, 116, 95, 111, 118, 101, 114, 102, 108, 111, 119, 95, 99, 110, 116]
  /** "gbe0/txs/ss/bram" */
  const GBE0_PATH: bytes := [103, 98, 101, 48, 47, 116, 120, 115, 47, 115, 115, 47, 98, 114, 97, 109]
  /** "gbe0_txs_ss_bram" */
  const GBE0_NAME: bytes := [103, 98, 101, 48, 95, 116, 120, 115, 95, 115, 115, 95, 98, 114, 97, 109]
  /** "xps:bram" */
  const XPS_BRAM: bytes := [120, 112, 115, 58, 98, 114, 97, 109]
  /** "init_vals" */
  const INIT_VALS: bytes := [105, 110, 105, 116, 95, 118, 97, 108, 115]
  /** "[0:2^13-1]" */
  const INIT_RANGE: bytes := [91, 48, 58, 50, 94, 49, 51, 45, 49, 93]

  /** "tx_en" */
  const TX_EN: bytes := [116, 120, 95, 101, 110]
  /** "SNAP" */
  const SNAP: bytes := [83, 78, 65, 80]
  /** "xps:xsg" */
  const XPS_XSG: bytes := [120, 112, 115, 58, 120, 115, 103]
  /** "clk_rate" */
  const CLK_RATE: bytes := [99, 108, 107, 95, 114, 97, 116, 101]
  /** "250" */
  const TEXT_250: bytes := [50, 53, 48]
  /** "xps:sw_reg" */
  const XPS_SW_REG: bytes := [120, 112, 115, 58, 115, 119, 95, 114, 101, 103]
  /** "bitwidths" */
  const BITWIDTHS: bytes := [98, 105, 116, 119, 105, 100, 116, 104, 115]
  /** "32" */
  const TEXT_32: bytes := [51, 50]

  /** The text of `test_register`: "?register\tfft_overflow_cnt\t0x3510c\t0x4\n". */
  const REGISTER_VECTOR: bytes :=
    REGISTER + ([TAB] + (FFT_OVERFLOW_CNT + ([TAB] + (HEX_PREFIX + ([51, 53, 49, 48, 99] + ([TAB] + (HEX_PREFIX + ([52] + [LF]))))))))

  /** The text of `test_meta`: "?meta\tgbe0/txs/ss/bram\txps:bram\tinit_vals\t[0:2^13-1]\n". */
  const META_VECTOR: bytes :=
    META + ([TAB] + (GBE0_PATH + ([TAB] + (XPS_BRAM + ([TAB] + (INIT_VALS + ([TAB] + (INIT_RANGE + [LF]))))))))

  lemma ShebangVector()
    ensures TagLine(SHEBANG, SHEBANG + [LF]) == Some([])
    ensures TagLine(UPLOADBIN, UPLOADBIN + [LF]) == Some([])
  {
    assert SHEBANG + [LF] == SHEBANG + ([LF] + []);
    assert UPLOADBIN + [LF] == UPLOADBIN + ([LF] + []);
    TagLineOnto(SHEBANG, []);
    TagLineOnto(UPLOADBIN, []);
  }

  lemma U32Limit()
    ensures Pow2(32) == 0x1_0000_0000
  {
    Pow2Add(16, 16);
    Pow2Add(8, 8);
  }

  /** An ASCII token without spaces is one that `take_till` and `utf8_string` accept. */
  lemma AsciiToken(x: bytes)
    requires |x| > 0 && IsAscii(x) && NoSpaces(x)
    ensures GoodToken(x)
  {
    AsciiIsUtf8(x);
  }

  /** An ASCII value without CR or LF and not starting with whitespace is a good meta value. */
  lemma AsciiValue(x: bytes)
    requires IsAscii(x) && (x == [] || !IsSpace(x[0])) && forall k | 0 <= k < |x| :: !IsLineByte(x[k])
    ensures GoodValue(x)
  {
    AsciiIsUtf8(x);
  }

  lemma RegisterVectorLine()
    ensures GoodRegister(RegisterLine(FFT_OVERFLOW_CNT, 0x3510C, 4))
  {
    AsciiToken(FFT_OVERFLOW_CNT);
    U32Limit();
  }

  lemma VectorHex()
    ensures LowerHex(0x3510C) == [51, 53, 49, 48, 99]
    ensures LowerHex(4) == [52]
  {
    assert LowerHex(3) == [51];
    assert LowerHex(0x35) == [51, 53];
    assert LowerHex(0x351) == [51, 53, 49];
    assert LowerHex(0x3510) == [51, 53, 49, 48];
  }

  /** The register line of the source's `test_register`. */
  lemma RegisterVector()
    ensures RegisterP(REGISTER_VECTOR) == Some(Parsed(RegisterLine(FFT_OVERFLOW_CNT, 0x3510C, 4), []))
  {
    RegisterVectorLine();
    VectorHex();
    assert [LF] + [] == [LF];
    RegisterOntoParses(RegisterLine(FFT_OVERFLOW_CNT, 0x3510C, 4), []);
  }

  lemma GbePathToken() ensures GoodToken(GBE0_PATH) { AsciiToken(GBE0_PATH); }
  lemma XpsBramToken() ensures GoodToken(XPS_BRAM) { AsciiToken(XPS_BRAM); }
  lemma InitValsToken() ensures GoodToken(INIT_VALS) { AsciiToken(INIT_VALS); }
  lemma InitRangeValue() ensures GoodValue(INIT_RANGE) { AsciiValue(INIT_RANGE); }

  lemma GoodMetaOf(device: bytes, kind: bytes, key: bytes, value: bytes)
    requires GoodToken(device) && GoodToken(kind) && GoodToken(key) && GoodValue(value)
    ensures GoodMeta(MetaLine(device, kind, key, value))
  {
  }

  lemma GbePathNormalised()
    ensures ReplaceByte(GBE0_PATH, SLASH, UNDERSCORE) == GBE0_NAME
  {
  }

  /** The meta line of the source's `test_meta`: the path comes back with '_' for '/'. */
  lemma MetaVector()
    ensures MetaP(META_VECTOR) == Some(Parsed(MetaLine(GBE0_NAME, XPS_BRAM, INIT_VALS, INIT_RANGE), []))
  {
    GbePathToken();
    XpsBramToken();
    InitValsToken();
    InitRangeValue();
    GoodMetaOf(GBE0_PATH, XPS_BRAM, INIT_VALS, INIT_RANGE);
    GbePathNormalised();
    assert [LF] + [] == [LF];
    MetaOntoParses(MetaLine(GBE0_PATH, XPS_BRAM, INIT_VALS, INIT_RANGE), []);
  }

  /** The register line of `test_fpg_file`. */
  const TEST_REGISTERS: seq<RegisterLine> := [RegisterLine(TX_EN, 0x3513C, 4)]

  /** The meta lines of `test_fpg_file`. */
  const TEST_METAS: seq<MetaLine> := [MetaLine(SNAP, XPS_XSG, CLK_RATE, TEXT_250), MetaLine(TX_EN, XPS_SW_REG, BITWIDTHS, TEXT_32)]

  /** The bitstream of `test_fpg_file`. */
  const TEST_BITSTREAM: bytes := [0xDE, 0xAD, 0xBE, 0xEF]

  lemma TestRegisterGood()
    ensures GoodRegister(RegisterLine(TX_EN, 0x3513C, 4))
  {
    TxEnToken();
    U32Limit();
  }

  lemma TestSnapMetaGood()
    ensures GoodMeta(MetaLine(SNAP, XPS_XSG, CLK_RATE, TEXT_250))
  {
    SnapToken();
    XsgToken();
    ClkRateToken();
    Value250();
    GoodMetaOf(SNAP, XPS_XSG, CLK_RATE, TEXT_250);
  }

  lemma TestTxEnMetaGood()
    ensures GoodMeta(MetaLine(TX_EN, XPS_SW_REG, BITWIDTHS, TEXT_32))
  {
    TxEnToken();
    SwRegToken();
    BitwidthsToken();
    Value32();
    GoodMetaOf(TX_EN, XPS_SW_REG, BITWIDTHS, TEXT_32);
  }

  lemma GoodLines(r: RegisterLine, m0: MetaLine, m1: MetaLine)
    requires GoodRegister(r) && GoodMeta(m0) && GoodMeta(m1)
    ensures forall i | 0 <= i < |[r]| :: GoodRegister([r][i])
    ensures forall i | 0 <= i < |[m0, m1]| :: GoodMeta([m0, m1][i])
  {
  }

  lemma TxEnToken() ensures GoodToken(TX_EN) { AsciiToken(TX_EN); }
  lemma SnapToken() ensures GoodToken(SNAP) { AsciiToken(SNAP); }
  lemma XsgToken() ensures GoodToken(XPS_XSG) { AsciiToken(XPS_XSG); }
  lemma ClkRateToken() ensures GoodToken(CLK_RATE) { AsciiToken(CLK_RATE); }
  lemma SwRegToken() ensures GoodToken(XPS_SW_REG) { AsciiToken(XPS_SW_REG); }
  lemma BitwidthsToken() ensures GoodToken(BITWIDTHS) { AsciiToken(BITWIDTHS); }
  lemma Value250() ensures GoodValue(TEXT_250) { AsciiValue(TEXT_250); }
  lemma Value32() ensures GoodValue(TEXT_32) { AsciiValue(TEXT_32); }

  lemma TestMetasNormal()
    ensures AllNormalised(TEST_METAS) == TEST_METAS
  {
    assert ReplaceByte(SNAP, SLASH, UNDERSCORE) == SNAP;
    assert ReplaceByte(TX_EN, SLASH, UNDERSCORE) == TX_EN;
  }

  /** The devices the source's `test_fpg_file` expects. */
  const TEST_DEVICES: map<bytes, Device> := map[
    SNAP := Device(XPS_XSG, None, map[CLK_RATE := TEXT_250]),
    TX_EN := Device(XPS_SW_REG, Some(Register(217404, 4)), map[BITWIDTHS := TEXT_32])]

  lemma AssembleTwo(registers: map<bytes, Register>, m0: MetaLine, m1: MetaLine)
    requires m0.device != m1.device
    ensures Assemble(registers, [m0, m1]) == map[
      m0.device := Device(m0.kind, Lookup(registers, m0.device), map[m0.key := m0.value]),
      m1.device := Device(m1.kind, Lookup(registers, m1.device), map[m1.key := m1.value])]
  {
    assert [m0, m1][..1] == [m0];
    assert [m0][..0] == [];
    assert Assemble(registers, [m0][..0]) == map[];
    var first := Assemble(registers, [m0]);
    assert first == Step(map[], registers, m0);
    assert first == map[m0.device := Device(m0.kind, Lookup(registers, m0.device), map[m0.key := m0.value])];
    assert m1.device !in first;
  }

  lemma RegisterMapOne(r: RegisterLine)
    ensures RegisterMap([r]) == map[r.name := Register(r.addr, r.size)]
  {
    assert [r][..0] == [];
  }

  lemma TestAssemble()
    ensures Assemble(RegisterMap(TEST_REGISTERS), TEST_METAS) == TEST_DEVICES
  {
    assert SNAP != TX_EN by {
      assert SNAP[0] != TX_EN[0];
    }
    RegisterMapOne(TEST_REGISTERS[0]);
    var registers := RegisterMap(TEST_REGISTERS);
    AssembleTwo(registers, TEST_METAS[0], TEST_METAS[1]);
    assert Lookup(registers, SNAP) == None;
  }

  /**
   * `test_fpg_file`: the file "#!/bin/kcpfpg\n?uploadbin\n?register\ttx_en\t0x3513c\t0x4\n
   * ?meta\tSNAP\txps:xsg\tclk_rate\t250\n?meta\ttx_en\txps:sw_reg\tbitwidths\t32\n?quit\n"
   * followed by DE AD BE EF: SNAP has no register, tx_en takes its register, and the bitstream
   * is the four bytes.
   */
  lemma FpgFileVector()
    ensures Parse(FileText(TEST_REGISTERS, TEST_METAS, TEST_BITSTREAM)) == Some(Design(TEST_DEVICES, TEST_BITSTREAM))
  {
    TestRegisterGood();
    TestSnapMetaGood();
    TestTxEnMetaGood();
    GoodLines(TEST_REGISTERS[0], TEST_METAS[0], TEST_METAS[1]);
    FileRoundTrip(TEST_REGISTERS, TEST_METAS, TEST_BITSTREAM);
    TestMetasNormal();
    TestAssemble();
  }
}
