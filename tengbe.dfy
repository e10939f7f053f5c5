// The memory map of the CASPER 10GbE core (casperfpga/src/yellow_blocks/ten_gbe.rs, and the same
// table in the older src/yellow_blocks/ten_gbe.rs). The core is one large gateware register
// named after the block; each sub-register sits at a fixed byte offset in it and crosses the
// transport as the byte array `packed_struct` makes of it. The flag registers use `lsb0`
// numbering: bit 0 is the least significant bit of the last byte, and `bytes = "k"` is bits
// 8k .. 8k + 7. The two-field registers are two big-endian `u16`s, the MAC address is its six
// bytes and an IP register is its four octets.
module TenGbe {
  import opened Wrappers
  import opened Bytes
  import opened Bits

  type u16 = x: int | 0 <= x < 0x1_0000

  /** Six bytes of a MAC address. */
  type Mac = s: bytes | |s| == 6 witness [0, 0, 0, 0, 0, 0]

  /** `Ipv4Addr`: four octets, most significant first. */
  datatype Ipv4 = Ipv4(a: byte, b: byte, c: byte, d: byte)

  // ---------------------------------------------------------------------------
  // EthernetType
  // ---------------------------------------------------------------------------

  /** `EthernetType`: the speed of the core. */
  datatype EthernetType = OneGbE | TenGbE | TwentyFiveGbE | FortyGbE | HundredGbE

  /** Its `u8` discriminant. */
  function EthernetCode(t: EthernetType): (code: nat)
    ensures 1 <= code <= 5
  {
    match t
    case OneGbE => 1
    case TenGbE => 2
    case TwentyFiveGbE => 3
    case FortyGbE => 4
    case HundredGbE => 5
  }

  /** `from_primitive`: the type with a discriminant, if any. */
  function EthernetFromCode(c: nat): (r: Option<EthernetType>)
    ensures r.Some? <==> 1 <= c <= 5
    ensures r.Some? ==> EthernetCode(r.value) == c
    ensures forall t {:trigger EthernetCode(t)} :: EthernetCode(t) == c ==> r == Some(t)
  {
    match c
    case 1 => Some(OneGbE)
    case 2 => Some(TenGbE)
    case 3 => Some(TwentyFiveGbE)
    case 4 => Some(FortyGbE)
    case 5 => Some(HundredGbE)
    case _ => None
  }

  // ---------------------------------------------------------------------------
  // The address table
  // ---------------------------------------------------------------------------

  /** `CoreAddress`: the sub-registers of the core. */
  datatype CoreAddress = CoreType | BufferSizes | WordLengths | MacAddress | IpAddress | GatewayAddress
    | Netmask | MulticastIp | MulticastMask | BytesAvailable | PromiscRstEn | Port | Status

  /** The byte offset of a sub-register within the core's register. */
  function Offset(a: CoreAddress): nat {
    match a
    case CoreType => 0x0
    case BufferSizes => 0x4
    case WordLengths => 0x8
    case MacAddress => 0xC
    case IpAddress => 0x14
    case GatewayAddress => 0x18
    case Netmask => 0x1C
    case MulticastIp => 0x20
    case MulticastMask => 0x24
    case BytesAvailable => 0x28
    case PromiscRstEn => 0x2C
    case Port => 0x30
    case Status => 0x34
  }

  /** The length of its `ByteArray`. */
  function Size(a: CoreAddress): nat {
    match a
    case MacAddress => 6
    case Status => 8
    case _ => 4
  }

  /** No two sub-registers share a byte of the core's register. */
  lemma OffsetsApart(a: CoreAddress, b: CoreAddress)
    requires a != b
    ensures Offset(a) + Size(a) <= Offset(b) || Offset(b) + Size(b) <= Offset(a)
  {
  }

  // ---------------------------------------------------------------------------
  // Sub-register values
  // ---------------------------------------------------------------------------

  /** One value of each packed struct of the core. */
  datatype Register =
    | CoreType(cpuTxEnable: bool, cpuRxEnable: bool, revision: byte, coreType: EthernetType)
    | BufferSizes(txBufMax: u16, rxBufMax: u16)
    | WordLengths(txWordSize: u16, rxWordSize: u16)
    | MacAddress(mac: Mac)
    | IpAddress(ip: Ipv4)
    | GatewayAddress(ip: Ipv4)
    | Netmask(ip: Ipv4)
    | MulticastIp(ip: Ipv4)
    | MulticastMask(ip: Ipv4)
    | BytesAvailable(txSize: u16, rxSize: u16)
    | PromiscRstEn(softRst: bool, promisc: bool, enable: bool)
    | Port(portMask: u16, port: u16)
    | Status(linkUp: bool)

  /** The `#[address]` of a value's type. */
  function AddressOf(r: Register): CoreAddress {
    match r
    case CoreType(_, _, _, _) => CoreAddress.CoreType
    case BufferSizes(_, _) => CoreAddress.BufferSizes
    case WordLengths(_, _) => CoreAddress.WordLengths
    case MacAddress(_) => CoreAddress.MacAddress
    case IpAddress(_) => CoreAddress.IpAddress
    case GatewayAddress(_) => CoreAddress.GatewayAddress
    case Netmask(_) => CoreAddress.Netmask
    case MulticastIp(_) => CoreAddress.MulticastIp
    case MulticastMask(_) => CoreAddress.MulticastMask
    case BytesAvailable(_, _) => CoreAddress.BytesAvailable
    case PromiscRstEn(_, _, _) => CoreAddress.PromiscRstEn
    case Port(_, _) => CoreAddress.Port
    case Status(_) => CoreAddress.Status
  }

  /** CoreType, `lsb0`: cpu_tx_enable at bit 24, cpu_rx_enable at 16, revision in byte 1, core_type in byte 0. */
  const CORE_TYPE_FIELDS: Layout := [FieldSpec(24, 1), FieldSpec(16, 1), FieldSpec(8, 8), FieldSpec(0, 8)]

  /** PromiscRstEn, `lsb0`: soft_rst at bit 4, promisc at 2, enable at 0. */
  const PROMISC_FIELDS: Layout := [FieldSpec(4, 1), FieldSpec(2, 1), FieldSpec(0, 1)]

  /** Status, `lsb0` over 8 bytes: link_up at bit 0, the rest undocumented. */
  const STATUS_FIELDS: Layout := [FieldSpec(0, 1)]

  /** The bit layout of a flag register; the others have none. */
  function FieldsOf(a: CoreAddress): Layout {
    match a
    case CoreType => CORE_TYPE_FIELDS
    case PromiscRstEn => PROMISC_FIELDS
    case Status => STATUS_FIELDS
    case _ => []
  }

  predicate IsFlagRegister(a: CoreAddress) {
    a.CoreType? || a.PromiscRstEn? || a.Status?
  }

  lemma FlagLayoutsWellFormed(a: CoreAddress)
    requires IsFlagRegister(a)
    ensures WellFormed(FieldsOf(a), 8 * Size(a))
  {
    CheckLayoutSound(CORE_TYPE_FIELDS, 32);
    CheckLayoutSound(PROMISC_FIELDS, 32);
    CheckLayoutSound(STATUS_FIELDS, 64);
  }

  /** Every bit of a word outside the fields of l is clear. */
  predicate ClearOutside(l: Layout, b: bytes) {
    forall i | 0 <= i < 8 * |b| && Unused(l, i) :: !TestBit(FromBe(b), i)
  }

  /** The byte arrays `pack` can produce: for a flag register, those with every undeclared bit clear. */
  predicate Canonical(a: CoreAddress, b: bytes) {
    IsFlagRegister(a) ==> ClearOutside(FieldsOf(a), b)
  }

  // ---------------------------------------------------------------------------
  // Flag registers
  // ---------------------------------------------------------------------------

  /** `pack` of a flag register: its fields placed in a clear word of nb bytes, as big-endian bytes. */
  function PackFlags(nb: nat, l: Layout, vals: seq<nat>): (b: bytes)
    requires Within(l, 8 * nb) && |vals| == |l|
    ensures |b| == nb
  {
    Pow256IsPow2(nb);
    BeBytes(Pack(8 * nb, l, vals), nb)
  }

  /** The packed bytes hold the values in their fields and nothing outside them. */
  lemma PackFlagsFields(nb: nat, l: Layout, vals: seq<nat>)
    requires WellFormed(l, 8 * nb) && Fits(l, vals)
    ensures Unpack(l, FromBe(PackFlags(nb, l, vals))) == vals
    ensures ClearOutside(l, PackFlags(nb, l, vals))
  {
    var n := 8 * nb;
    Pow256IsPow2(nb);
    FromBeBeBytes(Pack(n, l, vals), nb);
    UnpackOfPack(n, l, vals);
    forall i | 0 <= i < n && Unused(l, i)
      ensures !TestBit(Pack(n, l, vals), i)
    {
      PackUnused(n, l, vals, i);
    }
  }

  /** Bytes whose fields hold vals and which are clear outside them are what `pack` makes of vals. */
  lemma PackFlagsUnique(nb: nat, l: Layout, vals: seq<nat>, b: bytes)
    requires WellFormed(l, 8 * nb) && |b| == nb
    requires Unpack(l, FromBe(b)) == vals && ClearOutside(l, b)
    ensures PackFlags(nb, l, vals) == b
  {
    var n := 8 * nb;
    UnpackFits(l, FromBe(b));
    PackFlagsFields(nb, l, vals);
    var p := PackFlags(nb, l, vals);
    Pow256IsPow2(nb);
    FieldsDetermineWord(n, l, FromBe(p), FromBe(b));
    BeBytesFromBe(p);
    BeBytesFromBe(b);
  }

  // ---------------------------------------------------------------------------
  // Two-field, MAC and IP registers
  // ---------------------------------------------------------------------------

  /** Two `u16` fields with `endian = "msb"`, in declaration order. */
  function Halves(x: u16, y: u16): (b: bytes)
    ensures |b| == 4
  {
    BeBytes(x, 2) + BeBytes(y, 2)
  }

  /** The register read as one big-endian `u32` has the first field in its high half. */
  lemma HalvesWord(x: u16, y: u16)
    ensures FromBe(Halves(x, y)) == x * 0x1_0000 + y
  {
    var b := Halves(x, y);
    assert BeBytes(x, 2) == [x / 256, x % 256] by { assert x / 256 < 256; }
    assert BeBytes(y, 2) == [y / 256, y % 256] by { assert y / 256 < 256; }
    FromBe4(b);
  }

  function HighHalf(b: bytes): (x: u16)
    requires |b| == 4
  {
    FromBe(b[..2])
  }

  function LowHalf(b: bytes): (y: u16)
    requires |b| == 4
  {
    FromBe(b[2..])
  }

  lemma HalvesRoundTrip(x: u16, y: u16)
    ensures HighHalf(Halves(x, y)) == x && LowHalf(Halves(x, y)) == y
  {
    var b := Halves(x, y);
    assert b[..2] == BeBytes(x, 2) && b[2..] == BeBytes(y, 2);
    FromBeBeBytes(x, 2);
    FromBeBeBytes(y, 2);
  }

  lemma HalvesOfBytes(b: bytes)
    requires |b| == 4
    ensures Halves(HighHalf(b), LowHalf(b)) == b
  {
    BeBytesFromBe(b[..2]);
    BeBytesFromBe(b[2..]);
    assert b == b[..2] + b[2..];
  }

  /** `Ipv4Addr::octets`. */
  function Octets(ip: Ipv4): (b: bytes)
    ensures |b| == 4
  {
    [ip.a, ip.b, ip.c, ip.d]
  }

  /** `Ipv4Addr::new(src[0], src[1], src[2], src[3])`. */
  function FromOctets(b: bytes): Ipv4
    requires |b| == 4
  {
    Ipv4(b[0], b[1], b[2], b[3])
  }

  lemma OctetsRoundTrip(ip: Ipv4, b: bytes)
    requires |b| == 4
    ensures FromOctets(Octets(ip)) == ip && Octets(FromOctets(b)) == b
  {
  }

  // ---------------------------------------------------------------------------
  // pack and unpack
  // ---------------------------------------------------------------------------

  /** `pack` of every sub-register. */
  function Packed(r: Register): (b: bytes)
    ensures |b| == Size(AddressOf(r))
  {
    match r
    case CoreType(tx, rx, rev, t) =>
      Pow2Byte();
      PackFlags(4, CORE_TYPE_FIELDS, [Flag(tx), Flag(rx), rev, EthernetCode(t)])
    case BufferSizes(x, y) => Halves(x, y)
    case WordLengths(x, y) => Halves(x, y)
    case MacAddress(m) => m
    case IpAddress(ip) => Octets(ip)
    case GatewayAddress(ip) => Octets(ip)
    case Netmask(ip) => Octets(ip)
    case MulticastIp(ip) => Octets(ip)
    case MulticastMask(ip) => Octets(ip)
    case BytesAvailable(x, y) => Halves(x, y)
    case PromiscRstEn(s, p, e) => PackFlags(4, PROMISC_FIELDS, [Flag(s), Flag(p), Flag(e)])
    case Port(x, y) => Halves(x, y)
    case Status(up) => PackFlags(8, STATUS_FIELDS, [Flag(up)])
  }

  /** A flag register rebuilt from its field values; None when CoreType's code names no `EthernetType`. */
  function FromFlagValues(a: CoreAddress, v: seq<nat>): (r: Option<Register>)
    requires IsFlagRegister(a) && Fits(FieldsOf(a), v)
    ensures r.Some? ==> AddressOf(r.value) == a
    ensures r.None? <==> a.CoreType? && EthernetFromCode(v[3]).None?
  {
    Pow2Byte();
    if a.CoreType? then
      var t := EthernetFromCode(v[3]);
      if t.None? then None else Some(Register.CoreType(v[0] == 1, v[1] == 1, v[2], t.value))
    else if a.PromiscRstEn? then Some(Register.PromiscRstEn(v[0] == 1, v[1] == 1, v[2] == 1))
    else Some(Register.Status(v[0] == 1))
  }

  /** The field values `pack` places for a flag register. */
  function FlagValues(r: Register): (vals: seq<nat>)
    requires IsFlagRegister(AddressOf(r))
    ensures Fits(FieldsOf(AddressOf(r)), vals)
  {
    Pow2Byte();
    if r.CoreType? then [Flag(r.cpuTxEnable), Flag(r.cpuRxEnable), r.revision, EthernetCode(r.coreType)]
    else if r.PromiscRstEn? then [Flag(r.softRst), Flag(r.promisc), Flag(r.enable)]
    else [Flag(r.linkUp)]
  }

  /** Field values and flag registers are in one-to-one correspondence (up to CoreType's bad codes). */
  lemma FlagValuesRoundTrip(r: Register, a: CoreAddress, v: seq<nat>)
    requires IsFlagRegister(AddressOf(r)) && IsFlagRegister(a) && Fits(FieldsOf(a), v)
    ensures FromFlagValues(AddressOf(r), FlagValues(r)) == Some(r)
    ensures FromFlagValues(a, v).Some? ==> FlagValues(FromFlagValues(a, v).value) == v
  {
    Pow2Byte();
    if FromFlagValues(a, v).Some? {
      var u := FlagValues(FromFlagValues(a, v).value);
      assert |u| == |v|;
      assert forall k | 0 <= k < |v| :: u[k] == v[k];
    }
  }

  /**
   * `unpack` of the type at address a; only CoreType can fail, and only when its low byte is no
   * `EthernetType` discriminant.
   */
  function Unpacked(a: CoreAddress, b: bytes): (r: Option<Register>)
    requires |b| == Size(a)
    ensures r.Some? ==> AddressOf(r.value) == a
    ensures r.None? <==> a.CoreType? && EthernetFromCode(b[3]).None?
  {
    if IsFlagRegister(a) then
      var v := Unpack(FieldsOf(a), FromBe(b));
      UnpackFits(FieldsOf(a), FromBe(b));
      assert a.CoreType? ==> v[3] == b[3] by {
        if a.CoreType? { ByteOfWord4(b, 0); }
      }
      FromFlagValues(a, v)
    else
      match a
      case BufferSizes => Some(Register.BufferSizes(HighHalf(b), LowHalf(b)))
      case WordLengths => Some(Register.WordLengths(HighHalf(b), LowHalf(b)))
      case MacAddress => Some(Register.MacAddress(b))
      case IpAddress => Some(Register.IpAddress(FromOctets(b)))
      case GatewayAddress => Some(Register.GatewayAddress(FromOctets(b)))
      case Netmask => Some(Register.Netmask(FromOctets(b)))
      case MulticastIp => Some(Register.MulticastIp(FromOctets(b)))
      case MulticastMask => Some(Register.MulticastMask(FromOctets(b)))
      case BytesAvailable => Some(Register.BytesAvailable(HighHalf(b), LowHalf(b)))
      case Port => Some(Register.Port(HighHalf(b), LowHalf(b)))
  }

  lemma PackedFlags(r: Register)
    requires IsFlagRegister(AddressOf(r))
    ensures Packed(r) == PackFlags(Size(AddressOf(r)), FieldsOf(AddressOf(r)), FlagValues(r))
  {
  }

  /** `unpack(pack(r)) == r`, and what `pack` produces is canonical. */
  lemma UnpackPacked(r: Register)
    ensures Unpacked(AddressOf(r), Packed(r)) == Some(r)
    ensures Canonical(AddressOf(r), Packed(r))
  {
    var a := AddressOf(r);
    if IsFlagRegister(a) {
      FlagLayoutsWellFormed(a);
      PackedFlags(r);
      PackFlagsFields(Size(a), FieldsOf(a), FlagValues(r));
      FlagValuesRoundTrip(r, a, FlagValues(r));
    } else {
      match r
      case BufferSizes(x, y) => HalvesRoundTrip(x, y);
      case WordLengths(x, y) => HalvesRoundTrip(x, y);
      case BytesAvailable(x, y) => HalvesRoundTrip(x, y);
      case Port(x, y) => HalvesRoundTrip(x, y);
      case _ =>
    }
  }

  /** `pack(unpack(b)) == b` exactly when b is canonical. */
  lemma PackedUnpacked(a: CoreAddress, b: bytes)
    requires |b| == Size(a) && Unpacked(a, b).Some?
    ensures Packed(Unpacked(a, b).value) == b <==> Canonical(a, b)
  {
    var r := Unpacked(a, b).value;
    UnpackPacked(r);
    if IsFlagRegister(a) {
      if Canonical(a, b) {
        var l, v := FieldsOf(a), Unpack(FieldsOf(a), FromBe(b));
        FlagLayoutsWellFormed(a);
        UnpackFits(l, FromBe(b));
        FlagValuesRoundTrip(r, a, v);
        PackedFlags(r);
        PackFlagsUnique(Size(a), l, v, b);
      }
    } else if a.BufferSizes? || a.WordLengths? || a.BytesAvailable? || a.Port? {
      HalvesOfBytes(b);
    }
  }

  // ---------------------------------------------------------------------------
  // Byte positions of the flag registers
  // ---------------------------------------------------------------------------

  /** `lsb0` byte k of a 4-byte word is array element 3 - k. */
  lemma ByteOfWord4(b: bytes, k: nat)
    requires |b| == 4 && k < 4
    ensures Field(FromBe(b), 8 * k, 8) == b[3 - k]
  {
    FromBe4(b);
    Pow2Positions();
    Pow2Byte();
    var x := FromBe(b);
    var b0, b1, b2, b3: nat := b[0], b[1], b[2], b[3];
    if k == 0 {
      FieldOfSum(x, b0 * 0x1_0000 + b1 * 0x100 + b2, b3, 0, 0, 8, 1, 0x100);
    } else if k == 1 {
      FieldOfSum(x, b0 * 0x100 + b1, b2, b3, 8, 8, 0x100, 0x100);
    } else if k == 2 {
      FieldOfSum(x, b0, b1, b2 * 0x100 + b3, 16, 8, 0x1_0000, 0x100);
    } else {
      FieldOfSum(x, 0, b0, b1 * 0x1_0000 + b2 * 0x100 + b3, 24, 8, 0x100_0000, 0x100);
    }
  }

  /** `lsb0` bit i of a 4-byte word is bit i % 8 of array element 3 - i / 8. */
  lemma BitOfWord4(b: bytes, i: nat)
    requires |b| == 4 && i < 32
    ensures TestBit(FromBe(b), i) == TestBit(b[3 - i / 8], i % 8)
  {
    var k := i / 8;
    ByteOfWord4(b, k);
    Pow256IsPow2(4);
    TestBitOfField(FromBe(b), 32, 8 * k, 8, i % 8);
  }

  /** The bits of a byte, from its value. */
  lemma BitsOfByte(x: nat, j: nat, f0: nat, f1: nat, f2: nat, f3: nat, f4: nat, f5: nat, f6: nat, f7: nat)
    requires f0 < 2 && f1 < 2 && f2 < 2 && f3 < 2 && f4 < 2 && f5 < 2 && f6 < 2 && f7 < 2
    requires x == f0 + 2 * f1 + 4 * f2 + 8 * f3 + 16 * f4 + 32 * f5 + 64 * f6 + 128 * f7 && j < 8
    ensures TestBit(x, j) <==> [f0, f1, f2, f3, f4, f5, f6, f7][j] == 1
  {
    ByteDigits(x, f0, f1, f2, f3, f4, f5, f6, f7);
    Pow2Byte();
  }

  /** A flag stored at bit 0 of a byte leaves its other bits clear. */
  lemma FlagByteBits(f: nat, j: nat)
    requires f < 2 && j < 8
    ensures TestBit(f, j) <==> j == 0 && f == 1
  {
    BitsOfByte(f, j, f, 0, 0, 0, 0, 0, 0, 0);
  }

  /** A one-bit field's value is its bit. */
  lemma BitField(x: nat, k: nat, f: nat)
    requires f < 2 && (TestBit(x, k) <==> f == 1)
    ensures Field(x, k, 1) == f
  {
    Pow2Byte();
  }

  /** Bits of CoreType's word outside its fields are clear when its two flag bytes are 0 or 1. */
  lemma CoreTypeBitClear(b: bytes, i: nat)
    requires |b| == 4 && b[0] < 2 && b[1] < 2 && i < 32 && Unused(CORE_TYPE_FIELDS, i)
    ensures !TestBit(FromBe(b), i)
  {
    var l := CORE_TYPE_FIELDS;
    assert Apart(FieldSpec(i, 1), l[0]) && Apart(FieldSpec(i, 1), l[1]);
    assert Apart(FieldSpec(i, 1), l[2]) && Apart(FieldSpec(i, 1), l[3]);
    BitOfWord4(b, i);
    FlagByteBits(b[3 - i / 8], i % 8);
  }

  /** A byte of a 4-byte word that is 0 or 1 is the bit at the bottom of its position. */
  lemma FlagOfWord4(b: bytes, k: nat)
    requires |b| == 4 && k < 4 && b[3 - k] < 2
    ensures Field(FromBe(b), 8 * k, 1) == b[3 - k]
  {
    BitOfWord4(b, 8 * k);
    FlagByteBits(b[3 - k], 0);
    BitField(FromBe(b), 8 * k, b[3 - k]);
  }

  /** The fields of CoreType's word are its four bytes, when the two flag bytes are 0 or 1. */
  lemma CoreTypeUnpack(b: bytes)
    requires |b| == 4 && b[0] < 2 && b[1] < 2
    ensures Unpack(CORE_TYPE_FIELDS, FromBe(b)) == [b[0], b[1], b[2], b[3]]
  {
    var x := FromBe(b);
    assert Field(x, 24, 1) == b[0] by { FlagOfWord4(b, 3); }
    assert Field(x, 16, 1) == b[1] by { FlagOfWord4(b, 2); }
    assert Field(x, 8, 8) == b[2] by { ByteOfWord4(b, 1); }
    assert Field(x, 0, 8) == b[3] by { ByteOfWord4(b, 0); }
    assert Unpack(CORE_TYPE_FIELDS, x) == [Field(x, 24, 1), Field(x, 16, 1), Field(x, 8, 8), Field(x, 0, 8)];
  }

  /** The bytes of a packed CoreType: tx flag, rx flag, revision, discriminant. */
  lemma CoreTypeBytes(tx: bool, rx: bool, rev: byte, t: EthernetType)
    ensures Packed(Register.CoreType(tx, rx, rev, t)) == [Flag(tx), Flag(rx), rev, EthernetCode(t)]
  {
    var r := Register.CoreType(tx, rx, rev, t);
    var b: bytes := [Flag(tx), Flag(rx), rev, EthernetCode(t)];
    forall i | 0 <= i < 32 && Unused(CORE_TYPE_FIELDS, i)
      ensures !TestBit(FromBe(b), i)
    {
      CoreTypeBitClear(b, i);
    }
    CoreTypeUnpack(b);
    FlagLayoutsWellFormed(CoreAddress.CoreType);
    PackFlagsUnique(4, CORE_TYPE_FIELDS, FlagValues(r), b);
  }

  /** Bit i of enable | promisc << 2 | soft_rst << 4. */
  lemma PromiscByteBit(e: bool, p: bool, s: bool, j: nat)
    requires j < 8
    ensures TestBit(Flag(e) + 4 * Flag(p) + 16 * Flag(s), j) <==>
      (j == 0 && e) || (j == 2 && p) || (j == 4 && s)
  {
    BitsOfByte(Flag(e) + 4 * Flag(p) + 16 * Flag(s), j, Flag(e), 0, Flag(p), 0, Flag(s), 0, 0, 0);
  }

  lemma PromiscBitClear(b: bytes, e: bool, p: bool, s: bool, i: nat)
    requires b == [0, 0, 0, Flag(e) + 4 * Flag(p) + 16 * Flag(s)] && i < 32 && Unused(PROMISC_FIELDS, i)
    ensures !TestBit(FromBe(b), i)
  {
    var l := PROMISC_FIELDS;
    assert Apart(FieldSpec(i, 1), l[0]) && Apart(FieldSpec(i, 1), l[1]) && Apart(FieldSpec(i, 1), l[2]);
    BitOfWord4(b, i);
    if i < 8 {
      PromiscByteBit(e, p, s, i);
    } else {
      FlagByteBits(0, i % 8);
    }
  }

  lemma PromiscUnpack(b: bytes, e: bool, p: bool, s: bool)
    requires b == [0, 0, 0, Flag(e) + 4 * Flag(p) + 16 * Flag(s)]
    ensures Unpack(PROMISC_FIELDS, FromBe(b)) == [Flag(s), Flag(p), Flag(e)]
  {
    var x := FromBe(b);
    BitOfWord4(b, 4);
    PromiscByteBit(e, p, s, 4);
    BitField(x, 4, Flag(s));
    BitOfWord4(b, 2);
    PromiscByteBit(e, p, s, 2);
    BitField(x, 2, Flag(p));
    BitOfWord4(b, 0);
    PromiscByteBit(e, p, s, 0);
    BitField(x, 0, Flag(e));
  }

  /** The bytes of a packed PromiscRstEn: three zero bytes, then enable | promisc << 2 | soft_rst << 4. */
  lemma PromiscRstEnBytes(s: bool, p: bool, e: bool)
    ensures Packed(Register.PromiscRstEn(s, p, e)) == [0, 0, 0, Flag(e) + 4 * Flag(p) + 16 * Flag(s)]
  {
    var r := Register.PromiscRstEn(s, p, e);
    var b: bytes := [0, 0, 0, Flag(e) + 4 * Flag(p) + 16 * Flag(s)];
    forall i | 0 <= i < 32 && Unused(PROMISC_FIELDS, i)
      ensures !TestBit(FromBe(b), i)
    {
      PromiscBitClear(b, e, p, s, i);
    }
    PromiscUnpack(b, e, p, s);
    FlagLayoutsWellFormed(CoreAddress.PromiscRstEn);
    PackFlagsUnique(4, PROMISC_FIELDS, FlagValues(r), b);
  }

  /** Only bit 0 of a 0 or 1 can be set. */
  lemma FlagBits(f: nat, i: nat)
    requires f < 2
    ensures TestBit(f, i) <==> i == 0 && f == 1
  {
    if i > 0 {
      assert Pow2(1) == 2;
      TestBitAbove(f, 1, i);
    } else {
      assert Pow2(0) == 1;
    }
  }

  /** Zero bytes are the number zero. */
  lemma {:induction false} FromBeZeros(n: nat)
    ensures FromBe(seq(n, _ => 0)) == 0
  {
    if n > 0 {
      assert seq(n, _ => 0)[..n - 1] == seq(n - 1, _ => 0);
      FromBeZeros(n - 1);
    }
  }

  /** The bytes of a packed Status: seven zero bytes, then link_up. */
  lemma StatusBytes(up: bool)
    ensures Packed(Register.Status(up)) == [0, 0, 0, 0, 0, 0, 0, Flag(up)]
  {
    var r := Register.Status(up);
    var b: bytes := [0, 0, 0, 0, 0, 0, 0, Flag(up)];
    var f := Flag(up);
    assert FromBe(b) == f by {
      assert b[..7] == seq(7, _ => 0);
      FromBeZeros(7);
    }
    forall i | 0 <= i < 64 && Unused(STATUS_FIELDS, i)
      ensures !TestBit(FromBe(b), i)
    {
      assert Apart(FieldSpec(i, 1), STATUS_FIELDS[0]);
      FlagBits(f, i);
    }
    FlagBits(f, 0);
    BitField(f, 0, f);
    assert Unpack(STATUS_FIELDS, FromBe(b)) == [f];
    FlagLayoutsWellFormed(CoreAddress.Status);
    PackFlagsUnique(8, STATUS_FIELDS, FlagValues(r), b);
  }
}
