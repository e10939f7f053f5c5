// The ADC16 controller of casperfpga/src/yellow_blocks/snapadc/controller.rs: one gateware
// register "adc16_controller" whose word at byte offset 0 (`Adc3Wire`) bit-bangs the 3-wire
// serial bus of the HMCAD1511 chips and whose word at byte offset 4 (`AdcControl`) holds the
// demultiplexing, reset, snapshot, bit-slip and delay controls. Both words cross the transport
// as 4 big-endian bytes, bit 0 the least significant bit of the last byte.
module Adc16 {
  import opened Wrappers
  import opened Bytes
  import opened Serde
  import opened Bits
  import opened MockTransport
  import Hmcad1511

  /** The controller's failures: the transport's, a control word `unpack` rejects (`BadControl`), and `bail!`. */
  datatype Adc16Error = Transport(cause: MockError) | BadControl | Unsupported

  /** "adc16_controller" */
  const NAME: bytes := [97, 100, 99, 49, 54, 95, 99, 111, 110, 116, 114, 111, 108, 108, 101, 114]

  /** The `#[address]` of `Adc3Wire` and of `AdcControl`, as byte offsets into the register. */
  const WIRE_ADDR: nat := 0x0
  const CONTROL_ADDR: nat := 0x4

  // ---------------------------------------------------------------------------
  // Chip selects and bit slips
  // ---------------------------------------------------------------------------

  /** `ChipSelect` and `Bitslip`: one flag per chip, `a` at the least significant bit of the byte. */
  datatype Lanes = Lanes(a: bool, b: bool, c: bool, d: bool, e: bool, f: bool, g: bool, h: bool)

  /** `Default::default()`: no chip. */
  const NO_LANES: Lanes := Lanes(false, false, false, false, false, false, false, false)

  /** The flags from the least significant bit up. */
  function LaneBits(l: Lanes): (bits: seq<bool>)
    ensures |bits| == 8
  {
    [l.a, l.b, l.c, l.d, l.e, l.f, l.g, l.h]
  }

  /** The byte the flags pack to. */
  function LanesCode(l: Lanes): (x: nat)
    ensures x < 256
  {
    Flag(l.a) + 2 * Flag(l.b) + 4 * Flag(l.c) + 8 * Flag(l.d) + 16 * Flag(l.e) + 32 * Flag(l.f) + 64 * Flag(l.g) + 128 * Flag(l.h)
  }

  /** The flags a byte unpacks to. */
  function LanesFromCode(x: nat): (l: Lanes)
    ensures LaneBits(l) == BitsOf(x, 8)
  {
    var bits := BitsOf(x, 8);
    Lanes(bits[0], bits[1], bits[2], bits[3], bits[4], bits[5], bits[6], bits[7])
  }

  /** Each flag is a binary digit of the packed byte. */
  lemma LanesCodeDigits(l: Lanes)
    ensures var x := LanesCode(l);
      x % 2 == Flag(l.a) && x / 2 % 2 == Flag(l.b) && x / 4 % 2 == Flag(l.c) && x / 8 % 2 == Flag(l.d) &&
      x / 16 % 2 == Flag(l.e) && x / 32 % 2 == Flag(l.f) && x / 64 % 2 == Flag(l.g) && x / 128 % 2 == Flag(l.h)
  {
    ByteDigits(LanesCode(l), Flag(l.a), Flag(l.b), Flag(l.c), Flag(l.d), Flag(l.e), Flag(l.f), Flag(l.g), Flag(l.h));
  }

  /** Unpacking a packed set of flags gives it back. */
  lemma LanesRoundTrip(l: Lanes)
    ensures LanesFromCode(LanesCode(l)) == l
  {
    LanesCodeDigits(l);
    Pow2Table();
  }

  /** `ChipSelect::by_number`: chip v alone for v up to 7; any other number is `unreachable!()`. */
  function ByNumber(v: nat): (r: Option<Lanes>)
    ensures r.Some? <==> v < 8
    ensures r.Some? ==> forall k | 0 <= k < 8 :: LaneBits(r.value)[k] == (k == v)
  {
    match v
    case 0 => Some(NO_LANES.(a := true))
    case 1 => Some(NO_LANES.(b := true))
    case 2 => Some(NO_LANES.(c := true))
    case 3 => Some(NO_LANES.(d := true))
    case 4 => Some(NO_LANES.(e := true))
    case 5 => Some(NO_LANES.(f := true))
    case 6 => Some(NO_LANES.(g := true))
    case 7 => Some(NO_LANES.(h := true))
    case _ => None
  }

  /** The chip select of chip i. */
  function Chip(i: nat): Lanes
    requires i < 8
  {
    ByNumber(i).value
  }

  // ---------------------------------------------------------------------------
  // The 3-wire word
  // ---------------------------------------------------------------------------

  /** `Adc3Wire`: lock status, chip count and revision (read only), clock, data and chip select. */
  datatype Adc3Wire = Adc3Wire(lineLock: nat, supportedChips: nat, revision: nat, sclk: bool, sdata: bool, chipSelect: Lanes)

  /** The 2-, 4- and 2-bit integers hold their widths. */
  predicate ValidWire(w: Adc3Wire) {
    w.lineLock < 4 && w.supportedChips < 16 && w.revision < 4
  }

  /** The packed word: line_lock at bits 24-25, supported_chips 20-23, revision 16-17, sclk 9, sdata 8, chip_select 0-7. */
  function WireWord(w: Adc3Wire): (x: nat)
    requires ValidWire(w)
    ensures x < 0x1_0000_0000
  {
    w.lineLock * 0x100_0000 + w.supportedChips * 0x10_0000 + w.revision * 0x1_0000 +
    Flag(w.sclk) * 0x200 + Flag(w.sdata) * 0x100 + LanesCode(w.chipSelect)
  }

  /** `pack`: the word's 4 bytes, most significant first; the chip select is the last byte. */
  function PackWire(w: Adc3Wire): (b: bytes)
    requires ValidWire(w)
    ensures |b| == 4
  {
    BeBytes(WireWord(w) / 0x100, 3) + [LanesCode(w.chipSelect)]
  }

  /** The packed bytes are the big-endian serialization of the packed word. */
  lemma PackWireSerialized(w: Adc3Wire)
    requires ValidWire(w)
    ensures Pow256(4) == 0x1_0000_0000 && PackWire(w) == Serialize(U32, WireWord(w))
  {
    var x := WireWord(w);
    DivModUnique(x, 0x100, w.lineLock * 0x1_0000 + w.supportedChips * 0x1000 + w.revision * 0x100 + Flag(w.sclk) * 2 + Flag(w.sdata), LanesCode(w.chipSelect));
    assert Pow256(4) == 0x1_0000_0000;
  }

  /** `unpack`: every field is read from its bits; no word is rejected. */
  function UnpackWire(b: bytes): (w: Adc3Wire)
    requires |b| == 4
    ensures ValidWire(w)
  {
    var x := Deserialize(U32, b);
    Adc3Wire(Field(x, 24, 2), Field(x, 20, 4), Field(x, 16, 2), TestBit(x, 9), TestBit(x, 8), LanesFromCode(Field(x, 0, 8)))
  }

  /** Each field of the packed 3-wire word holds its value. */
  lemma WireWordFields(w: Adc3Wire)
    requires ValidWire(w)
    ensures var x := WireWord(w);
      Field(x, 24, 2) == w.lineLock && Field(x, 20, 4) == w.supportedChips && Field(x, 16, 2) == w.revision &&
      Field(x, 9, 1) == Flag(w.sclk) && Field(x, 8, 1) == Flag(w.sdata) && Field(x, 0, 8) == LanesCode(w.chipSelect)
  {
    var x := WireWord(w);
    var ll, n, rev, c, d, code := w.lineLock, w.supportedChips, w.revision, Flag(w.sclk), Flag(w.sdata), LanesCode(w.chipSelect);
    Pow2Table();
    Pow2Positions();
    assert Field(x, 24, 2) == ll by {
      FieldOfSum(x, 0, ll, n * 0x10_0000 + rev * 0x1_0000 + c * 0x200 + d * 0x100 + code, 24, 2, 0x100_0000, 4);
    }
    assert Field(x, 20, 4) == n by {
      FieldOfSum(x, ll, n, rev * 0x1_0000 + c * 0x200 + d * 0x100 + code, 20, 4, 0x10_0000, 16);
    }
    assert Field(x, 16, 2) == rev by {
      FieldOfSum(x, ll * 64 + n * 4, rev, c * 0x200 + d * 0x100 + code, 16, 2, 0x1_0000, 4);
    }
    assert Field(x, 9, 1) == c by {
      FieldOfSum(x, ll * 0x4000 + n * 0x400 + rev * 0x40, c, d * 0x100 + code, 9, 1, 0x200, 2);
    }
    assert Field(x, 8, 1) == d by {
      FieldOfSum(x, ll * 0x8000 + n * 0x800 + rev * 0x80 + c, d, code, 8, 1, 0x100, 2);
    }
    assert Field(x, 0, 8) == code by {
      FieldOfSum(x, ll * 0x1_0000 + n * 0x1000 + rev * 0x100 + c * 2 + d, code, 0, 0, 8, 1, 0x100);
    }
  }

  /** Unpacking a packed 3-wire word gives it back. */
  lemma UnpackPackWire(w: Adc3Wire)
    requires ValidWire(w)
    ensures UnpackWire(PackWire(w)) == w
  {
    PackWireSerialized(w);
    DeserializeSerialize(U32, WireWord(w));
    WireWordFields(w);
    LanesRoundTrip(w.chipSelect);
  }

  /** A state of the 3-wire bus: the chip select, the clock and the data line. */
  datatype Bus = Bus(cs: Lanes, sclk: bool, sdata: bool)

  /** The 3-wire word that drives the bus state, the read-only fields at zero. */
  function Wire(b: Bus): (w: Adc3Wire)
    ensures ValidWire(w) && w.chipSelect == b.cs && w.sclk == b.sclk && w.sdata == b.sdata
  {
    Adc3Wire(0, 0, 0, b.sclk, b.sdata, b.cs)
  }

  /** `Adc3Wire::idle()`: clock high, no data, no chip selected. */
  const IDLE: Bus := Bus(NO_LANES, true, false)

  /** `locked`: line-lock 0 or 2 is unlocked, 1 is locked on controllers of at most 4 chips, 3 is locked. */
  predicate LockedWord(w: Adc3Wire)
    requires ValidWire(w)
  {
    match w.lineLock
    case 0 => false
    case 1 => w.supportedChips <= 4
    case 2 => false
    case 3 => true
  }

  // ---------------------------------------------------------------------------
  // The control word
  // ---------------------------------------------------------------------------

  /** `DemuxMode`: codes 0, 1 and 2; 3 is not a mode. */
  datatype DemuxMode = SingleChannel | DualChannel | QuadChannel

  function DemuxCode(m: DemuxMode): (code: nat)
    ensures code < 3
  {
    match m
    case SingleChannel => 0
    case DualChannel => 1
    case QuadChannel => 2
  }

  function DemuxFromCode(c: nat): (r: Option<DemuxMode>)
    ensures forall m :: r == Some(m) <==> DemuxCode(m) == c
  {
    match c
    case 0 => Some(SingleChannel)
    case 1 => Some(DualChannel)
    case 2 => Some(QuadChannel)
    case _ => None
  }

  /** `AdcControl`. */
  datatype AdcControl = AdcControl(demuxWriteEnable: bool, demuxMode: DemuxMode, reset: bool, snapRequest: bool,
                                   bitslip: Lanes, delayTaps: seq<bool>)

  /** `delay_taps` is a `[bool; 5]`. */
  predicate ValidControl(c: AdcControl) {
    |c.delayTaps| == 5
  }

  /** `AdcControl::default()`. */
  const DEFAULT_CONTROL: AdcControl := AdcControl(false, SingleChannel, false, false, NO_LANES, [false, false, false, false, false])

  /** The control `supports_demux` writes: the default with `demux_write_enable` set. */
  const DEMUX_PROBE: AdcControl := DEFAULT_CONTROL.(demuxWriteEnable := true)

  /**
   * The packed word: demux_write_enable at bit 26, demux_mode 24-25, reset 20, snap_request 16,
   * bitslip 8-15, delay_taps 0-4 with its first element at bit 4.
   */
  function ControlWord(c: AdcControl): (x: nat)
    requires ValidControl(c)
    ensures x < 0x1_0000_0000
  {
    MsbBitsOfValue(c.delayTaps);
    Flag(c.demuxWriteEnable) * 0x400_0000 + DemuxCode(c.demuxMode) * 0x100_0000 + Flag(c.reset) * 0x10_0000 +
    Flag(c.snapRequest) * 0x1_0000 + LanesCode(c.bitslip) * 0x100 + MsbValue(c.delayTaps)
  }

  /** `pack`: the word's 4 bytes, most significant first; bit slip and delay taps are the last two. */
  function PackControl(c: AdcControl): (b: bytes)
    requires ValidControl(c)
    ensures |b| == 4
  {
    MsbBitsOfValue(c.delayTaps);
    Pow2Table();
    BeBytes(ControlWord(c) / 0x1_0000, 2) + [LanesCode(c.bitslip), MsbValue(c.delayTaps)]
  }

  /** The packed bytes are the big-endian serialization of the packed word. */
  lemma PackControlSerialized(c: AdcControl)
    requires ValidControl(c)
    ensures Pow256(4) == 0x1_0000_0000 && PackControl(c) == Serialize(U32, ControlWord(c))
  {
    var x := ControlWord(c);
    var hi := Flag(c.demuxWriteEnable) * 0x400 + DemuxCode(c.demuxMode) * 0x100 + Flag(c.reset) * 0x10 + Flag(c.snapRequest);
    var slip, taps := LanesCode(c.bitslip), MsbValue(c.delayTaps);
    MsbBitsOfValue(c.delayTaps);
    DivModUnique(x, 0x1_0000, hi, slip * 0x100 + taps);
    assert Pow256(2) == 0x1_0000 && Pow256(3) == 0x100_0000 && Pow256(4) == 0x1_0000_0000;
    var mid := hi * 0x100 + slip;
    BeBytesSnoc(mid, hi, slip, 2);
    BeBytesSnoc(x, mid, taps, 3);
    AppendPair(BeBytes(hi, 2), slip as byte, taps as byte);
  }

  /** `unpack`: fails on the demux code 3 and reads every other field from its bits. */
  function UnpackControl(b: bytes): (r: Option<AdcControl>)
    requires |b| == 4
    ensures r.None? <==> Field(Deserialize(U32, b), 24, 2) == 3
    ensures r.Some? ==> ValidControl(r.value)
  {
    var x := Deserialize(U32, b);
    var mode :- DemuxFromCode(Field(x, 24, 2));
    Some(AdcControl(TestBit(x, 26), mode, TestBit(x, 20), TestBit(x, 16), LanesFromCode(Field(x, 8, 8)), MsbBits(Field(x, 0, 5), 5)))
  }

  /** The four fields of the control word's high half hold their values. */
  lemma ControlWordHigh(c: AdcControl)
    requires ValidControl(c)
    ensures var x := ControlWord(c);
      Field(x, 26, 1) == Flag(c.demuxWriteEnable) && Field(x, 24, 2) == DemuxCode(c.demuxMode) &&
      Field(x, 20, 1) == Flag(c.reset) && Field(x, 16, 1) == Flag(c.snapRequest)
  {
    var x := ControlWord(c);
    var e, m, rs, sn := Flag(c.demuxWriteEnable), DemuxCode(c.demuxMode), Flag(c.reset), Flag(c.snapRequest);
    var low := LanesCode(c.bitslip) * 0x100 + MsbValue(c.delayTaps);
    Pow2Table();
    Pow2Positions();
    MsbBitsOfValue(c.delayTaps);
    assert Field(x, 26, 1) == e by {
      FieldOfSum(x, 0, e, m * 0x100_0000 + rs * 0x10_0000 + sn * 0x1_0000 + low, 26, 1, 0x400_0000, 2);
    }
    assert Field(x, 24, 2) == m by {
      FieldOfSum(x, e, m, rs * 0x10_0000 + sn * 0x1_0000 + low, 24, 2, 0x100_0000, 4);
    }
    assert Field(x, 20, 1) == rs by {
      FieldOfSum(x, e * 32 + m * 8, rs, sn * 0x1_0000 + low, 20, 1, 0x10_0000, 2);
    }
    FieldOfSum(x, e * 512 + m * 128 + rs * 8, sn, low, 16, 1, 0x1_0000, 2);
  }

  /** The bit slip and delay taps, the control word's low half, hold their values. */
  lemma ControlWordLow(c: AdcControl)
    requires ValidControl(c)
    ensures var x := ControlWord(c);
      Field(x, 8, 8) == LanesCode(c.bitslip) && Field(x, 0, 5) == MsbValue(c.delayTaps)
  {
    var x := ControlWord(c);
    var hi := Flag(c.demuxWriteEnable) * 0x400 + DemuxCode(c.demuxMode) * 0x100 + Flag(c.reset) * 0x10 + Flag(c.snapRequest);
    var slip, taps := LanesCode(c.bitslip), MsbValue(c.delayTaps);
    Pow2Table();
    MsbBitsOfValue(c.delayTaps);
    assert Field(x, 8, 8) == slip by {
      FieldOfSum(x, hi, slip, taps, 8, 8, 0x100, 0x100);
    }
    FieldOfSum(x, hi * 0x800 + slip * 8, taps, 0, 0, 5, 1, 32);
  }

  /** Each field of the packed control word holds its value. */
  lemma ControlWordFields(c: AdcControl)
    requires ValidControl(c)
    ensures var x := ControlWord(c);
      Field(x, 26, 1) == Flag(c.demuxWriteEnable) && Field(x, 24, 2) == DemuxCode(c.demuxMode) &&
      Field(x, 20, 1) == Flag(c.reset) && Field(x, 16, 1) == Flag(c.snapRequest) &&
      Field(x, 8, 8) == LanesCode(c.bitslip) && Field(x, 0, 5) == MsbValue(c.delayTaps)
  {
    ControlWordHigh(c);
    ControlWordLow(c);
  }

  /** Unpacking a packed control gives it back. */
  lemma UnpackPackControl(c: AdcControl)
    requires ValidControl(c)
    ensures UnpackControl(PackControl(c)) == Some(c)
  {
    PackControlSerialized(c);
    DeserializeSerialize(U32, ControlWord(c));
    ControlWordFields(c);
    MsbBitsOfValue(c.delayTaps);
    LanesRoundTrip(c.bitslip);
  }

  // ---------------------------------------------------------------------------
  // The bus traffic of one register write
  // ---------------------------------------------------------------------------

  /** The write of one bus state to the 3-wire word. */
  function WireAccess(b: Bus): Access {
    Access(NAME, WIRE_ADDR, PackWire(Wire(b)))
  }

  /** The writes of a sequence of bus states, in order. */
  function Accesses(f: seq<Bus>): (r: seq<Access>)
    ensures |r| == |f| && forall k | 0 <= k < |f| :: r[k] == WireAccess(f[k])
  {
    seq(|f|, (k: int) requires 0 <= k < |f| => WireAccess(f[k]))
  }

  lemma AccessesAppend(f: seq<Bus>, g: seq<Bus>)
    ensures Accesses(f + g) == Accesses(f) + Accesses(g)
  {
    assert Accesses(f + g) == Accesses(f) + Accesses(g);
  }

  /** Writes logged so far, then the writes of g. */
  lemma AccessesExtend(log: seq<Access>, f: seq<Bus>, g: seq<Bus>)
    ensures log + Accesses(f) + Accesses(g) == log + Accesses(f + g)
  {
    AccessesAppend(f, g);
  }

  /** Two single appends are one append of both. */
  lemma AppendPair<T>(s: seq<T>, x: T, y: T)
    ensures s + [x] + [y] == s + [x, y]
  {
  }

  /** The two bus states of `send_3wire_bit`: the clock low, then high, the bit on the data line. */
  function BitFrames(cs: Lanes, bit: bool): seq<Bus> {
    [Bus(cs, false, bit), Bus(cs, true, bit)]
  }

  /** `send_3wire_bit` for each bit in turn. */
  function Clocked(cs: Lanes, bits: seq<bool>): (f: seq<Bus>)
    ensures |f| == 2 * |bits|
    decreases |bits|
  {
    if bits == [] then [] else Clocked(cs, bits[..|bits| - 1]) + BitFrames(cs, bits[|bits| - 1])
  }

  lemma ClockedSnoc(cs: Lanes, bits: seq<bool>, b: bool)
    ensures Clocked(cs, bits + [b]) == Clocked(cs, bits) + BitFrames(cs, b)
  {
    assert (bits + [b])[..|bits|] == bits;
  }

  /** Clocking out a + b is clocking out a, then b. */
  lemma {:induction false} ClockedAppend(cs: Lanes, a: seq<bool>, b: seq<bool>)
    ensures Clocked(cs, a + b) == Clocked(cs, a) + Clocked(cs, b)
    decreases |b|
  {
    if b == [] {
      assert a + b == a;
    } else {
      var b', t := b[..|b| - 1], b[|b| - 1];
      assert a + b == (a + b') + [t];
      ClockedSnoc(cs, a + b', t);
      ClockedAppend(cs, a, b');
    }
  }

  /** Bus state k of the clocked bits: the clock low on even states and high on odd ones, `cs` selected. */
  lemma {:induction false} ClockedAt(cs: Lanes, bits: seq<bool>, k: nat)
    requires k < 2 * |bits|
    ensures Clocked(cs, bits)[k] == Bus(cs, k % 2 == 1, bits[k / 2])
    decreases |bits|
  {
    var n := |bits|;
    if k < 2 * (n - 1) {
      ClockedAt(cs, bits[..n - 1], k);
    }
  }

  /** The 24 bits `send_reg` shifts out: the 8 address bits, then the 16 data bits, each most significant first. */
  function WordBits(addr: nat, word: nat): (bits: seq<bool>)
    ensures |bits| == 24
  {
    MsbBits(addr, 8) + MsbBits(word, 16)
  }

  /** The bus states of `send_reg`: idle, the 24 bits clocked out to `cs`, idle. */
  function WordFrames(cs: Lanes, addr: nat, word: nat): (f: seq<Bus>)
    ensures |f| == 50
  {
    [IDLE] + Clocked(cs, WordBits(addr, word)) + [IDLE]
  }

  /** The bus states of `send_reg(reg)`. */
  function RegFrames(cs: Lanes, reg: Hmcad1511.Register): (f: seq<Bus>)
    requires Hmcad1511.Valid(reg)
    ensures |f| == 50
  {
    WordFrames(cs, Hmcad1511.Address(reg), Hmcad1511.Word(reg))
  }

  /**
   * Between its two idle states `send_reg` keeps `cs` selected and toggles the clock, low on
   * every odd state and high on every even one.
   */
  lemma WordFramesSelect(cs: Lanes, addr: nat, word: nat, k: nat)
    requires 0 < k < 49
    ensures WordFrames(cs, addr, word)[0] == IDLE && WordFrames(cs, addr, word)[49] == IDLE
    ensures WordFrames(cs, addr, word)[k].cs == cs && WordFrames(cs, addr, word)[k].sclk == (k % 2 == 0)
  {
    ClockedAt(cs, WordBits(addr, word), k - 1);
  }

  /** The bits a receiver latches on the rising edges of the clock, in order. */
  function Latched(f: seq<Bus>): seq<bool>
    decreases |f|
  {
    if |f| < 2 then []
    else Latched(f[..|f| - 1]) + (if !f[|f| - 2].sclk && f[|f| - 1].sclk then [f[|f| - 1].sdata] else [])
  }

  /** The prefix of p + q as long as p is p. */
  lemma PrefixOfAppend<T>(p: seq<T>, q: seq<T>)
    ensures (p + q)[..|p|] == p
  {
  }

  /** A state with the clock low adds no latched bit; the next with the clock high latches its data. */
  lemma LatchedPair(p: seq<Bus>, cs: Lanes, b: bool)
    requires |p| > 0 && p[|p| - 1].sclk
    ensures Latched(p + BitFrames(cs, b)) == Latched(p) + [b]
  {
    var lo, hi := Bus(cs, false, b), Bus(cs, true, b);
    PrefixOfAppend(p + [lo], [hi]);
    assert p + BitFrames(cs, b) == (p + [lo]) + [hi];
    PrefixOfAppend(p, [lo]);
  }

  /** One more bit clocked out after the idle state is latched after the earlier ones. */
  lemma LatchedIdleStep(cs: Lanes, s: seq<bool>, b: bool)
    requires Latched([IDLE] + Clocked(cs, s)) == s && ([IDLE] + Clocked(cs, s))[2 * |s|].sclk
    ensures Latched([IDLE] + Clocked(cs, s + [b])) == s + [b]
    ensures ([IDLE] + Clocked(cs, s + [b]))[2 * |s + [b]|].sclk
  {
    var p := [IDLE] + Clocked(cs, s);
    ClockedSnoc(cs, s, b);
    AppendAssoc([IDLE], Clocked(cs, s), BitFrames(cs, b));
    LatchedPair(p, cs, b);
    assert (p + BitFrames(cs, b))[|p| + 1] == Bus(cs, true, b);
  }

  /** After the idle state, each clocked bit is latched once, on its rising edge. */
  lemma {:induction false} LatchedAfterIdle(cs: Lanes, bits: seq<bool>)
    ensures Latched([IDLE] + Clocked(cs, bits)) == bits
    ensures ([IDLE] + Clocked(cs, bits))[2 * |bits|].sclk
    decreases |bits|
  {
    if bits != [] {
      var s, b := bits[..|bits| - 1], bits[|bits| - 1];
      LatchedAfterIdle(cs, s);
      LatchedIdleStep(cs, s, b);
      TakeDrop(bits, |bits| - 1);
      assert bits[|bits| - 1..] == [b];
    }
  }

  /**
   * The chip selected by `cs` latches exactly the 8 address bits and then the 16 data bits,
   * most significant first: the address and the word that were sent.
   */
  lemma LatchedWord(cs: Lanes, addr: nat, word: nat)
    requires addr < 256 && word < 0x1_0000
    ensures var l := Latched(WordFrames(cs, addr, word));
      l == WordBits(addr, word) && MsbValue(l[..8]) == addr && MsbValue(l[8..]) == word
  {
    var p := [IDLE] + Clocked(cs, WordBits(addr, word));
    LatchedAfterIdle(cs, WordBits(addr, word));
    PrefixOfAppend(p, [IDLE]);
    var l := Latched(WordFrames(cs, addr, word));
    Pow2Table();
    assert l[..8] == MsbBits(addr, 8);
    assert l[8..] == MsbBits(word, 16);
    MsbValueOfBits(addr, 8);
    MsbValueOfBits(word, 16);
  }

  /** So the chip decodes the register `send_reg` was given. */
  lemma LatchedRegister(cs: Lanes, reg: Hmcad1511.Register)
    requires Hmcad1511.Valid(reg)
    ensures var l := Latched(RegFrames(cs, reg));
      |l| == 24 && Hmcad1511.Decode(MsbValue(l[..8]), MsbValue(l[8..])) == Some(reg)
  {
    LatchedWord(cs, Hmcad1511.Address(reg), Hmcad1511.Word(reg));
    Hmcad1511.DecodeWord(reg);
  }

  // ---------------------------------------------------------------------------
  // The power cycle
  // ---------------------------------------------------------------------------

  /** The command `power_cycle` sends first: `SleepPd` with `pd` set. */
  const POWER_DOWN: Hmcad1511.Register := Hmcad1511.DEFAULT_SLEEP_PD.(pd := true)

  /** The sleep register's address, and its power-down and default words. */
  lemma SleepWords()
    ensures Hmcad1511.Valid(POWER_DOWN) && Hmcad1511.Valid(Hmcad1511.DEFAULT_SLEEP_PD)
    ensures Hmcad1511.Address(POWER_DOWN) == 0x0F && Hmcad1511.Word(POWER_DOWN) == 0x0200
    ensures Hmcad1511.Address(Hmcad1511.DEFAULT_SLEEP_PD) == 0x0F && Hmcad1511.Word(Hmcad1511.DEFAULT_SLEEP_PD) == 0
  {
    Hmcad1511.SleepPdPowerDownWord();
    Hmcad1511.SleepPdDefaultWord();
  }

  /** The board's eight ADC chips, one per chip-select lane. */
  const CHIPS: nat := 8

  /** The power-up commands to chips 0 .. n - 1: the default sleep word to each alone, in order. */
  function PowerUpFrames(n: nat): (f: seq<Bus>)
    requires n <= 8
    ensures |f| == 50 * n
  {
    if n == 0 then [] else PowerUpFrames(n - 1) + WordFrames(Chip(n - 1), 0x0F, 0)
  }

  /** A slice inside p of p + q is that slice of p. */
  lemma SliceOfAppend<T>(p: seq<T>, q: seq<T>, lo: nat, hi: nat)
    requires lo <= hi <= |p|
    ensures (p + q)[lo..hi] == p[lo..hi]
  {
  }

  /** A slice inside q of p + q is the matching slice of q. */
  lemma SliceAfter<T>(p: seq<T>, q: seq<T>, lo: nat, hi: nat)
    requires |p| <= lo <= hi <= |p| + |q|
    ensures (p + q)[lo..hi] == q[lo - |p|..hi - |p|]
  {
  }

  /** The i-th power-up command goes to chip i alone. */
  lemma {:induction false} PowerUpAt(n: nat, i: nat)
    requires i < n <= 8
    ensures PowerUpFrames(n)[50 * i..50 * i + 50] == WordFrames(Chip(i), 0x0F, 0)
  {
    var p := PowerUpFrames(n - 1);
    var q := WordFrames(Chip(n - 1), 0x0F, 0);
    if i < n - 1 {
      PowerUpAt(n - 1, i);
      SliceOfAppend(p, q, 50 * i, 50 * i + 50);
    } else {
      assert (p + q)[|p|..] == q;
    }
  }

  /** All the bus states of `power_cycle` from `cs`: power down through `cs`, then power up chips 0 to 7. */
  function PowerCycleFrames(cs: Lanes): (f: seq<Bus>)
    ensures |f| == 450
  {
    WordFrames(cs, 0x0F, 0x0200) + PowerUpFrames(CHIPS)
  }

  /** `power_cycle` first sends the power-down word 0x0200 to the sleep register 0x0F through `cs`. */
  lemma PowerCycleFirst(cs: Lanes)
    ensures PowerCycleFrames(cs)[..50] == RegFrames(cs, POWER_DOWN)
    ensures var l := Latched(PowerCycleFrames(cs)[..50]);
      |l| == 24 && MsbValue(l[..8]) == 0x0F && MsbValue(l[8..]) == 0x0200
  {
    SleepWords();
    PrefixOfAppend(WordFrames(cs, 0x0F, 0x0200), PowerUpFrames(CHIPS));
    LatchedWord(cs, 0x0F, 0x0200);
  }

  /**
   * Then it sends the default sleep word to chip i, for i = 0 .. 7, each alone: the (i + 1)-th
   * block of 50 bus states is that command.
   */
  lemma PowerCycleSlice(cs: Lanes, i: nat)
    requires i < 8
    ensures PowerCycleFrames(cs)[50 * (i + 1)..50 * (i + 2)] == WordFrames(Chip(i), 0x0F, 0)
  {
    PowerUpAt(8, i);
    SliceAfter(WordFrames(cs, 0x0F, 0x0200), PowerUpFrames(CHIPS), 50 * (i + 1), 50 * (i + 2));
  }

  /** So chip i latches the default word 0 for the sleep register 0x0F. */
  lemma PowerCycleUp(cs: Lanes, i: nat)
    requires i < 8
    ensures var l := Latched(PowerCycleFrames(cs)[50 * (i + 1)..50 * (i + 2)]);
      |l| == 24 && MsbValue(l[..8]) == 0x0F && MsbValue(l[8..]) == 0
  {
    SleepWords();
    PowerCycleSlice(cs, i);
    LatchedWord(Chip(i), 0x0F, 0);
  }

  /** Appending nothing. */
  lemma AppendNil<T>(s: seq<T>)
    ensures s + [] == s
  {
  }

  /** The writes of the power-up loop so far, then the power-up command to chip i. */
  lemma PowerUpStep(log: seq<Access>, i: nat)
    requires i < 8
    ensures log + Accesses(PowerUpFrames(i)) + Accesses(WordFrames(Chip(i), 0x0F, 0)) == log + Accesses(PowerUpFrames(i + 1))
  {
    AccessesExtend(log, PowerUpFrames(i), WordFrames(Chip(i), 0x0F, 0));
  }

  // ---------------------------------------------------------------------------
  // Reading the words
  // ---------------------------------------------------------------------------

  /** `read_addr` of `Adc3Wire`: the 4 bytes at offset 0, unpacked. */
  function ReadWire(memory: map<nat, byte>, registers: map<bytes, Core.Register>): (r: Result<Adc3Wire, Adc16Error>)
    ensures var b := ReadSpec(memory, registers, NAME, WIRE_ADDR, 4);
      (b.Ok? <==> r.Ok?) && (b.Ok? ==> r.value == UnpackWire(b.value)) && (b.Err? ==> r == Err(Adc16Error.Transport(b.error)))
  {
    var b := ReadSpec(memory, registers, NAME, WIRE_ADDR, 4);
    if b.Err? then Err(Adc16Error.Transport(b.error)) else Ok(UnpackWire(b.value))
  }

  /** `read_addr` of `AdcControl`: the 4 bytes at offset 4, unpacked; the demux code 3 is `Unpack`. */
  function ReadControl(memory: map<nat, byte>, registers: map<bytes, Core.Register>): (r: Result<AdcControl, Adc16Error>)
    ensures var b := ReadSpec(memory, registers, NAME, CONTROL_ADDR, 4);
      (b.Err? ==> r == Err(Adc16Error.Transport(b.error))) &&
      (b.Ok? ==> (UnpackControl(b.value).None? ==> r == Err(BadControl)) &&
                 (UnpackControl(b.value).Some? ==> r == Ok(UnpackControl(b.value).value)))
  {
    var b := ReadSpec(memory, registers, NAME, CONTROL_ADDR, 4);
    if b.Err? then Err(Adc16Error.Transport(b.error))
    else match UnpackControl(b.value)
      case None => Err(BadControl)
      case Some(c) => Ok(c)
  }

  /** The register holds both words: every write of `write_addr` to it succeeds. */
  predicate Reachable(registers: map<bytes, Core.Register>) {
    NAME in registers && CONTROL_ADDR + 4 <= registers[NAME].length
  }

  /** The 3-wire word is writable exactly when the register is present and at least 4 bytes long. */
  predicate WireReachable(registers: map<bytes, Core.Register>) {
    NAME in registers && WIRE_ADDR + 4 <= registers[NAME].length
  }

  /** A write of the same length to the same place as an earlier one replaces it. */
  lemma WriteOverWrite(memory: map<nat, byte>, registers: map<bytes, Core.Register>, device: bytes, offset: nat,
                       x: bytes, y: bytes)
    requires WriteSpec(memory, registers, device, offset, x).Ok? && |x| == |y|
    ensures WriteSpec(WriteSpec(memory, registers, device, offset, x).value, registers, device, offset, y)
      == WriteSpec(memory, registers, device, offset, y)
  {
    var m1 := WriteSpec(memory, registers, device, offset, x).value;
    var a := WriteSpec(m1, registers, device, offset, y).value;
    var b := WriteSpec(memory, registers, device, offset, y).value;
    assert forall k :: k in a <==> k in b;
    assert a == b;
  }

  /** The write of one bus state: it succeeds exactly when the 3-wire word is there. */
  function Drive(memory: map<nat, byte>, registers: map<bytes, Core.Register>, b: Bus): (r: Result<map<nat, byte>, MockError>)
    ensures r.Ok? <==> WireReachable(registers)
  {
    WriteSpec(memory, registers, NAME, WIRE_ADDR, PackWire(Wire(b)))
  }

  /** Driving the bus twice leaves it as the second write alone would. */
  lemma DriveTwice(memory: map<nat, byte>, registers: map<bytes, Core.Register>, a: Bus, b: Bus)
    requires WireReachable(registers)
    ensures Drive(Drive(memory, registers, a).value, registers, b) == Drive(memory, registers, b)
  {
    WriteOverWrite(memory, registers, NAME, WIRE_ADDR, PackWire(Wire(a)), PackWire(Wire(b)));
  }

  /** One `send_3wire_bit` more: its two writes join the log, and the bus is left at its second state. */
  lemma BitStep(m0: map<nat, byte>, registers: map<bytes, Core.Register>, log: seq<Access>, cs: Lanes,
                sent: seq<bool>, last: Bus, bit: bool)
    requires WireReachable(registers)
    ensures Drive(Drive(m0, registers, last).value, registers, Bus(cs, true, bit)) == Drive(m0, registers, Bus(cs, true, bit))
    ensures log + Accesses(Clocked(cs, sent)) + [WireAccess(Bus(cs, false, bit)), WireAccess(Bus(cs, true, bit))]
      == log + Accesses(Clocked(cs, sent + [bit]))
  {
    DriveTwice(m0, registers, last, Bus(cs, true, bit));
    AccessesExtend(log, Clocked(cs, sent), BitFrames(cs, bit));
    assert Accesses(BitFrames(cs, bit)) == [WireAccess(Bus(cs, false, bit)), WireAccess(Bus(cs, true, bit))];
    ClockedSnoc(cs, sent, bit);
  }

  /** The whole of a sequence is its longest prefix. */
  lemma PrefixAll<T>(s: seq<T>)
    ensures s[..|s|] == s
  {
  }

  /** A prefix one element longer. */
  lemma TakeSnoc<T>(s: seq<T>, i: nat)
    requires i < |s|
    ensures s[..i + 1] == s[..i] + [s[i]]
  {
  }

  /** Five pieces joined left to right, regrouped. */
  lemma Regroup<T>(l: seq<T>, p: seq<T>, a: seq<T>, b: seq<T>, q: seq<T>)
    ensures l + p + a + b + q == l + (p + (a + b) + q)
  {
  }

  /** The write of the idle state. */
  lemma IdleAccess()
    ensures Accesses([IDLE]) == [WireAccess(IDLE)]
  {
  }

  /** The idle state, two runs of clocked bits and the idle state again, written one after the other. */
  lemma FramesSent(log: seq<Access>, cs: Lanes, a: seq<bool>, b: seq<bool>)
    ensures log + [WireAccess(IDLE)] + Accesses(Clocked(cs, a)) + Accesses(Clocked(cs, b)) + [WireAccess(IDLE)]
      == log + Accesses([IDLE] + Clocked(cs, a + b) + [IDLE])
  {
    var x, y := Clocked(cs, a), Clocked(cs, b);
    ClockedAppend(cs, a, b);
    IdleAccess();
    AccessesAppend([IDLE] + (x + y), [IDLE]);
    AccessesAppend([IDLE], x + y);
    AccessesAppend(x, y);
    Regroup(log, [WireAccess(IDLE)], Accesses(x), Accesses(y), [WireAccess(IDLE)]);
  }

  /** After `supports_demux`'s write succeeds, a transport that keeps every bit reads the probe back. */
  lemma ProbeReadsBack(memory: map<nat, byte>, registers: map<bytes, Core.Register>)
    requires WriteSpec(memory, registers, NAME, CONTROL_ADDR, PackControl(DEMUX_PROBE)).Ok?
    ensures ReadControl(WriteSpec(memory, registers, NAME, CONTROL_ADDR, PackControl(DEMUX_PROBE)).value, registers)
      == Ok(DEMUX_PROBE)
  {
    WriteThenRead(memory, registers, NAME, CONTROL_ADDR, PackControl(DEMUX_PROBE));
    UnpackPackControl(DEMUX_PROBE);
  }

  /** After `set_demux`'s write, the control reads back with the new mode and every other field as it was. */
  lemma SetDemuxReadsBack(memory: map<nat, byte>, registers: map<bytes, Core.Register>, ctl: AdcControl, mode: DemuxMode)
    requires ValidControl(ctl)
    requires WriteSpec(memory, registers, NAME, CONTROL_ADDR, PackControl(ctl.(demuxMode := mode))).Ok?
    ensures var m := WriteSpec(memory, registers, NAME, CONTROL_ADDR, PackControl(ctl.(demuxMode := mode))).value;
      var c := ReadControl(m, registers);
      c.Ok? && c.value.demuxMode == mode && c.value.(demuxMode := ctl.demuxMode) == ctl
  {
    WriteThenRead(memory, registers, NAME, CONTROL_ADDR, PackControl(ctl.(demuxMode := mode)));
    UnpackPackControl(ctl.(demuxMode := mode));
  }

  // ---------------------------------------------------------------------------
  // The transport lock
  // ---------------------------------------------------------------------------

  /**
   * One step of a thread that shares the transport behind a `std::sync::Mutex`: take the lock,
   * drop the guard, or make a transport write while it is held.
   */
  datatype LockStep = Lock | Unlock | Put(a: Access)

  /**
   * How a thread's steps end: each one done, or halted at a `lock` of the mutex the thread
   * itself holds; with the writes made before either.
   */
  datatype Run = Returned(writes: seq<Access>) | Halted(writes: seq<Access>)

  /** The writes w made before the run r. */
  function After(w: seq<Access>, r: Run): (q: Run)
    ensures q.Returned? == r.Returned? && q.writes == w + r.writes
  {
    if r.Returned? then Returned(w + r.writes) else Halted(w + r.writes)
  }

  /**
   * The steps run from the lock state `held`. A std `Mutex` is not reentrant: a `lock` by the
   * thread that holds the mutex never returns.
   */
  function Execute(steps: seq<LockStep>, held: bool): (r: Run)
    ensures |r.writes| <= |steps|
    ensures steps == [] ==> r == Returned([])
    decreases |steps|
  {
    if steps == [] then Returned([])
    else match steps[0]
      case Lock => if held then Halted([]) else Execute(steps[1..], true)
      case Unlock => Execute(steps[1..], false)
      case Put(a) => After([a], Execute(steps[1..], held))
  }

  /** Writes, each made under the lock already held. */
  function Puts(w: seq<Access>): (s: seq<LockStep>)
    ensures |s| == |w| && forall k | 0 <= k < |w| :: s[k] == Put(w[k])
  {
    seq(|w|, (k: int) requires 0 <= k < |w| => Put(w[k]))
  }

  /** Writes made under a held lock come before whatever the steps after them do. */
  lemma {:induction false} ExecutePuts(w: seq<Access>, rest: seq<LockStep>, held: bool)
    ensures Execute(Puts(w) + rest, held) == After(w, Execute(rest, held))
    decreases |w|
  {
    var s := Puts(w) + rest;
    if w == [] {
      assert s == rest;
    } else {
      assert s[0] == Put(w[0]);
      assert s[1..] == Puts(w[1..]) + rest;
      ExecutePuts(w[1..], rest, held);
      assert [w[0]] + w[1..] == w;
    }
  }

  /** A thread that takes the lock, writes once and locks again halts there, after that write. */
  lemma HaltsAtRelock(a: Access, t: seq<LockStep>)
    requires t != [] && t[0] == Lock
    ensures Execute([Lock, Put(a)] + t, false) == Halted([a])
  {
    var s := [Lock, Put(a)] + t;
    assert s[1..] == [Put(a)] + t;
    assert s[1..][1..] == t;
    assert Execute(t, true) == Halted([]);
    assert Execute(s[1..], true) == After([a], Halted([]));
  }

  /** `send_3wire_bit` as written: it takes the transport lock itself around its two writes. */
  function BitSteps(cs: Lanes, bit: bool): (s: seq<LockStep>)
    ensures |s| == 4 && s[0] == Lock
  {
    [Lock] + Puts(Accesses(BitFrames(cs, bit))) + [Unlock]
  }

  /** `send_3wire_bit` for each bit in turn, as written. */
  function LockedBits(cs: Lanes, bits: seq<bool>): (s: seq<LockStep>)
    ensures |s| == 4 * |bits|
    ensures bits != [] ==> s[0] == Lock
    decreases |bits|
  {
    if bits == [] then [] else BitSteps(cs, bits[0]) + LockedBits(cs, bits[1..])
  }

  /**
   * `send_reg` as written: the guard it takes before its first write is held across every
   * `send_3wire_bit`.
   */
  function SendRegSteps(cs: Lanes, addr: nat, word: nat): seq<LockStep> {
    [Lock, Put(WireAccess(IDLE))] + LockedBits(cs, WordBits(addr, word)) + [Put(WireAccess(IDLE)), Unlock]
  }

  /**
   * So `send_reg` never returns: it makes its first idle write and then halts at the first
   * bit's `lock` of the mutex it still holds. `reset`, `power_cycle` and every other caller
   * halt with it.
   */
  lemma SendRegHalts(cs: Lanes, addr: nat, word: nat)
    ensures Execute(SendRegSteps(cs, addr, word), false) == Halted([WireAccess(IDLE)])
  {
    var t := LockedBits(cs, WordBits(addr, word)) + [Put(WireAccess(IDLE)), Unlock];
    assert SendRegSteps(cs, addr, word) == [Lock, Put(WireAccess(IDLE))] + t;
    HaltsAtRelock(WireAccess(IDLE), t);
  }

  /** `send_reg` with its bits sent under the one guard it already holds. */
  function SendRegOneLock(cs: Lanes, addr: nat, word: nat): seq<LockStep> {
    [Lock] + Puts(Accesses(WordFrames(cs, addr, word))) + [Unlock]
  }

  /** That returns, having made the writes `SendWord` makes. */
  lemma SendRegOneLockReturns(cs: Lanes, addr: nat, word: nat)
    ensures Execute(SendRegOneLock(cs, addr, word), false) == Returned(Accesses(WordFrames(cs, addr, word)))
  {
    var w := Accesses(WordFrames(cs, addr, word));
    var s := SendRegOneLock(cs, addr, word);
    assert s[1..] == Puts(w) + [Unlock];
    ExecutePuts(w, [Unlock], true);
    assert [Unlock][1..] == [];
  }

  /** The probe write of `supports_demux`, under its own guard. */
  function SupportsDemuxSteps(): seq<LockStep> {
    [Lock, Put(Access(NAME, CONTROL_ADDR, PackControl(DEMUX_PROBE))), Unlock]
  }

  /**
   * `get_demux` as written: it takes the guard and then calls `supports_demux`, which locks
   * again, so it halts before any write.
   */
  lemma GetDemuxHalts()
    ensures Execute([Lock] + SupportsDemuxSteps() + [Unlock], false) == Halted([])
  {
    var s := [Lock] + SupportsDemuxSteps() + [Unlock];
    assert s[1..][0] == Lock;
  }

  /**
   * `set_demux` calls `supports_demux` before it takes the guard, so its two writes are made
   * and it returns.
   */
  lemma SetDemuxReturns(update: bytes)
    ensures var probe := Access(NAME, CONTROL_ADDR, PackControl(DEMUX_PROBE));
      var put := Access(NAME, CONTROL_ADDR, update);
      Execute(SupportsDemuxSteps() + [Lock, Put(put), Unlock], false) == Returned([probe, put])
  {
    var probe := Access(NAME, CONTROL_ADDR, PackControl(DEMUX_PROBE));
    var put := Access(NAME, CONTROL_ADDR, update);
    var s := SupportsDemuxSteps() + [Lock, Put(put), Unlock];
    assert s == [Lock] + Puts([probe]) + [Unlock, Lock] + Puts([put]) + [Unlock];
    var second := [Lock] + Puts([put]) + [Unlock];
    ExecutePuts([put], [Unlock], true);
    assert [Unlock][1..] == [];
    assert second[1..] == Puts([put]) + [Unlock];
    assert Execute(second, false) == Returned([put]);
    var first := Puts([probe]) + [Unlock] + second;
    assert first == Puts([probe]) + ([Unlock] + second);
    ExecutePuts([probe], [Unlock] + second, true);
    assert ([Unlock] + second)[1..] == second;
    assert s[1..] == first;
  }


  // ---------------------------------------------------------------------------
  // The controller
  // ---------------------------------------------------------------------------

  /** `Adc16Controller`: the transport it drives and the current chip select. */
  class Adc16Controller {
    const transport: Mock
    var cs: Lanes

    /** `new`: no chip selected. */
    constructor(transport: Mock)
      ensures this.transport == transport && cs == NO_LANES
    {
      this.transport := transport;
      cs := NO_LANES;
    }

    /** `supported_chips`: the 4-bit chip count of the 3-wire word. */
    method SupportedChips() returns (r: Result<nat, Adc16Error>)
      ensures var w := ReadWire(transport.memory, transport.registers);
        (w.Ok? ==> r == Ok(w.value.supportedChips)) && (w.Err? ==> r == Err(w.error))
      ensures r.Ok? ==> r.value < 16
    {
      var b := transport.ReadNBytes(NAME, WIRE_ADDR, 4);
      if b.Err? {
        return Err(Adc16Error.Transport(b.error));
      }
      var word := UnpackWire(b.value);
      return Ok(word.supportedChips);
    }

    /** `revision`: the 2-bit revision of the 3-wire word. */
    method Revision() returns (r: Result<nat, Adc16Error>)
      ensures var w := ReadWire(transport.memory, transport.registers);
        (w.Ok? ==> r == Ok(w.value.revision)) && (w.Err? ==> r == Err(w.error))
      ensures r.Ok? ==> r.value < 4
    {
      var b := transport.ReadNBytes(NAME, WIRE_ADDR, 4);
      if b.Err? {
        return Err(Adc16Error.Transport(b.error));
      }
      var word := UnpackWire(b.value);
      return Ok(word.revision);
    }

    /** `locked`: the line-lock bits decide; the 2-bit field never reaches the `unreachable!()` arm. */
    method Locked() returns (r: Result<bool, Adc16Error>)
      ensures var w := ReadWire(transport.memory, transport.registers);
        (w.Ok? ==> r == Ok(LockedWord(w.value))) && (w.Err? ==> r == Err(w.error))
      ensures r.Ok? ==> var w := ReadWire(transport.memory, transport.registers).value;
        r.value <==> w.lineLock == 3 || (w.lineLock == 1 && w.supportedChips <= 4)
    {
      var b := transport.ReadNBytes(NAME, WIRE_ADDR, 4);
      if b.Err? {
        return Err(Adc16Error.Transport(b.error));
      }
      var word := UnpackWire(b.value);
      var ll, chips := word.lineLock, word.supportedChips;
      var locked: bool;
      if ll == 0 || ll == 2 {
        locked := false;
      } else if ll == 1 {
        locked := chips <= 4;
      } else {
        assert ll == 3;
        locked := true;
      }
      return Ok(locked);
    }

    /** `chip_select`: the chip select of the bits sent from now on. */
    method ChipSelect(c: Lanes)
      modifies this
      ensures cs == c
    {
      cs := c;
    }

    /** `send_3wire_bit`: the clock low, then high, with the bit on the data line and `cs` selected. */
    method Send3WireBit(bit: bool) returns (r: Result<(), Adc16Error>)
      modifies transport
      ensures transport.registers == old(transport.registers)
      ensures var lo, hi := Bus(cs, false, bit), Bus(cs, true, bit);
        if !WireReachable(transport.registers) then
          r == Err(Adc16Error.Transport(Drive(old(transport.memory), transport.registers, lo).error)) &&
          transport.memory == old(transport.memory) && transport.writes == old(transport.writes) + [WireAccess(lo)]
        else
          r == Ok(()) && transport.writes == old(transport.writes) + [WireAccess(lo), WireAccess(hi)] &&
          transport.memory == Drive(old(transport.memory), transport.registers, hi).value
    {
      var lo := Bus(cs, false, bit);
      var w := transport.WriteBytes(NAME, WIRE_ADDR, PackWire(Wire(lo)));
      if w.Err? {
        return Err(Adc16Error.Transport(w.error));
      }
      var hi := Bus(cs, true, bit);
      w := transport.WriteBytes(NAME, WIRE_ADDR, PackWire(Wire(hi)));
      // The second write has the place and length of the first, so its `?` never fails.
      assert w.Ok?;
      AppendPair(old(transport.writes), WireAccess(lo), WireAccess(hi));
      DriveTwice(old(transport.memory), transport.registers, lo, hi);
      return Ok(());
    }

    /**
     * The shift loop of `send_reg`: each of `bits` in turn by `send_3wire_bit`, once the first
     * write has reached the 3-wire word (so that none of these writes fails). The bus is left
     * with the clock high and the last bit on the data line.
     */
    method SendBits(ghost m0: map<nat, byte>, ghost prev: Bus, bits: seq<bool>)
      requires WireReachable(transport.registers) && |bits| > 0
      requires transport.memory == Drive(m0, transport.registers, prev).value
      modifies transport
      ensures transport.registers == old(transport.registers)
      ensures transport.writes == old(transport.writes) + Accesses(Clocked(cs, bits))
      ensures transport.memory == Drive(m0, transport.registers, Bus(cs, true, bits[|bits| - 1])).value
    {
      ghost var w0 := transport.writes;
      ghost var last := prev;
      var i := 0;
      while i < |bits|
        invariant 0 <= i <= |bits|
        invariant transport.registers == old(transport.registers)
        invariant transport.writes == w0 + Accesses(Clocked(cs, bits[..i]))
        invariant transport.memory == Drive(m0, transport.registers, last).value
        invariant i > 0 ==> last == Bus(cs, true, bits[i - 1])
      {
        var b := Send3WireBit(bits[i]);
        // Every write goes where the first one did, so none fails.
        assert b.Ok?;
        BitStep(m0, transport.registers, w0, cs, bits[..i], last, bits[i]);
        TakeSnoc(bits, i);
        last := Bus(cs, true, bits[i]);
        i := i + 1;
      }
      PrefixAll(bits);
    }

    /**
     * `send_reg` once the register is packed: idle, the 8 address bits and then the 16 bits of
     * the word, most significant first, clocked to the chips of `cs`, then idle again. Only the
     * first write can fail; the 3-wire word is left idle.
     */
    method SendWord(addr: nat, word: nat) returns (r: Result<(), Adc16Error>)
      modifies transport
      ensures transport.registers == old(transport.registers)
      ensures !WireReachable(transport.registers) ==>
        r == Err(Adc16Error.Transport(Drive(old(transport.memory), transport.registers, IDLE).error)) &&
        transport.memory == old(transport.memory) && transport.writes == old(transport.writes) + Accesses([IDLE])
      ensures WireReachable(transport.registers) ==>
        r == Ok(()) && transport.writes == old(transport.writes) + Accesses(WordFrames(cs, addr, word)) &&
        transport.memory == Drive(old(transport.memory), transport.registers, IDLE).value
    {
      var w := transport.WriteBytes(NAME, WIRE_ADDR, PackWire(Wire(IDLE)));
      assert Accesses([IDLE]) == [WireAccess(IDLE)];
      if w.Err? {
        return Err(Adc16Error.Transport(w.error));
      }
      ghost var m0, w0 := old(transport.memory), old(transport.writes);
      var addrBits, wordBits := MsbBits(addr, 8), MsbBits(word, 16);
      SendBits(m0, IDLE, addrBits);
      SendBits(m0, Bus(cs, true, addrBits[|addrBits| - 1]), wordBits);
      w := transport.WriteBytes(NAME, WIRE_ADDR, PackWire(Wire(IDLE)));
      assert w.Ok?;
      DriveTwice(m0, transport.registers, Bus(cs, true, wordBits[|wordBits| - 1]), IDLE);
      FramesSent(w0, cs, addrBits, wordBits);
      return Ok(());
    }

    /**
     * `send_reg`: the register's address and its packed word, read as a big-endian number,
     * sent over the 3-wire bus to the chips of `cs`.
     */
    method SendReg(reg: Hmcad1511.Register) returns (r: Result<(), Adc16Error>)
      requires Hmcad1511.Valid(reg)
      modifies transport
      ensures transport.registers == old(transport.registers)
      ensures !WireReachable(transport.registers) ==>
        r == Err(Adc16Error.Transport(Drive(old(transport.memory), transport.registers, IDLE).error)) &&
        transport.memory == old(transport.memory) && transport.writes == old(transport.writes) + Accesses([IDLE])
      ensures WireReachable(transport.registers) ==>
        r == Ok(()) && transport.writes == old(transport.writes) + Accesses(RegFrames(cs, reg)) &&
        transport.memory == Drive(old(transport.memory), transport.registers, IDLE).value
    {
      var addr := Hmcad1511.Address(reg);
      var packed := Hmcad1511.Packed(reg);
      Hmcad1511.PackedWord(reg);
      r := SendWord(addr, FromBe(packed));
    }

    /** `read_addr` of `AdcControl`: the control's 4 bytes, unpacked. */
    method ReadCtl() returns (r: Result<AdcControl, Adc16Error>)
      ensures r == ReadControl(transport.memory, transport.registers)
    {
      var b := transport.ReadNBytes(NAME, CONTROL_ADDR, 4);
      if b.Err? {
        return Err(Adc16Error.Transport(b.error));
      }
      var c := UnpackControl(b.value);
      if c.None? {
        return Err(BadControl);
      }
      return Ok(c.value);
    }

    /** `supports_demux`: write the probe, read the control back; support is a bit that did not stick. */
    method SupportsDemux() returns (r: Result<bool, Adc16Error>)
      modifies transport
      ensures transport.registers == old(transport.registers)
      ensures transport.writes == old(transport.writes) + [Access(NAME, CONTROL_ADDR, PackControl(DEMUX_PROBE))]
      ensures var w := WriteSpec(old(transport.memory), transport.registers, NAME, CONTROL_ADDR, PackControl(DEMUX_PROBE));
        (w.Err? ==> r == Err(Adc16Error.Transport(w.error)) && transport.memory == old(transport.memory)) &&
        (w.Ok? ==> (transport.memory == w.value &&
          var c := ReadControl(w.value, transport.registers);
          (c.Ok? ==> r == Ok(!c.value.demuxWriteEnable)) && (c.Err? ==> r == Err(c.error))))
    {
      var w := transport.WriteBytes(NAME, CONTROL_ADDR, PackControl(DEMUX_PROBE));
      if w.Err? {
        return Err(Adc16Error.Transport(w.error));
      }
      var test := ReadCtl();
      if test.Err? {
        return Err(test.error);
      }
      return Ok(!test.value.demuxWriteEnable);
    }

    /**
     * `set_demux`: when `supports_demux` says so, rewrite the control with `mode` as its demux
     * mode and every other field as read; otherwise fail with `Unsupported`.
     */
    method SetDemux(mode: DemuxMode) returns (r: Result<(), Adc16Error>)
      modifies transport
      ensures transport.registers == old(transport.registers)
      ensures var probe := Access(NAME, CONTROL_ADDR, PackControl(DEMUX_PROBE));
        var w := WriteSpec(old(transport.memory), transport.registers, NAME, CONTROL_ADDR, PackControl(DEMUX_PROBE));
        if w.Err? then
          r == Err(Adc16Error.Transport(w.error)) && transport.memory == old(transport.memory) &&
          transport.writes == old(transport.writes) + [probe]
        else
          var c := ReadControl(w.value, transport.registers);
          if c.Err? then r == Err(c.error) && transport.memory == w.value && transport.writes == old(transport.writes) + [probe]
          else if c.value.demuxWriteEnable then
            r == Err(Unsupported) && transport.memory == w.value && transport.writes == old(transport.writes) + [probe]
          else
            var update := PackControl(c.value.(demuxMode := mode));
            var w2 := WriteSpec(w.value, transport.registers, NAME, CONTROL_ADDR, update);
            w2.Ok? && r == Ok(()) && transport.memory == w2.value &&
            transport.writes == old(transport.writes) + [probe, Access(NAME, CONTROL_ADDR, update)]
    {
      var supported := SupportsDemux();
      if supported.Err? {
        return Err(supported.error);
      }
      if !supported.value {
        return Err(Unsupported);
      }
      var ctl := ReadCtl();
      // `supports_demux` has just read the same control, so this read's `?` never fails.
      assert ctl.Ok?;
      var update := ctl.value.(demuxMode := mode);
      ghost var probe := Access(NAME, CONTROL_ADDR, PackControl(DEMUX_PROBE));
      var w := transport.WriteBytes(NAME, CONTROL_ADDR, PackControl(update));
      // Nor does the write's, to the same 4 bytes.
      assert w.Ok?;
      AppendPair(old(transport.writes), probe, Access(NAME, CONTROL_ADDR, PackControl(update)));
      return Ok(());
    }

    /**
     * `get_demux`, with the one lock it needs: the control's demux mode when `supports_demux`
     * finds support, `None` otherwise. On the mock, which keeps every bit, the probe sticks
     * (`ProbeReadsBack`), so the answer there is `None`.
     */
    method GetDemux() returns (r: Result<Option<DemuxMode>, Adc16Error>)
      modifies transport
      ensures transport.registers == old(transport.registers)
      ensures transport.writes == old(transport.writes) + [Access(NAME, CONTROL_ADDR, PackControl(DEMUX_PROBE))]
      ensures var w := WriteSpec(old(transport.memory), transport.registers, NAME, CONTROL_ADDR, PackControl(DEMUX_PROBE));
        (w.Err? ==> r == Err(Adc16Error.Transport(w.error)) && transport.memory == old(transport.memory)) &&
        (w.Ok? ==> (transport.memory == w.value &&
          var c := ReadControl(w.value, transport.registers);
          (c.Err? ==> r == Err(c.error)) &&
          (c.Ok? && c.value.demuxWriteEnable ==> r == Ok(None)) &&
          (c.Ok? && !c.value.demuxWriteEnable ==> r == Ok(Some(c.value.demuxMode)))))
    {
      var supported := SupportsDemux();
      if supported.Err? {
        return Err(supported.error);
      }
      if !supported.value {
        return Ok(None);
      }
      var ctl := ReadCtl();
      // `supports_demux` has just read the same control, so this read's `?` never fails.
      assert ctl.Ok?;
      return Ok(Some(ctl.value.demuxMode));
    }

    /** `reset`: `send_reg` of the reset register with `reset` set. */
    method Reset() returns (r: Result<(), Adc16Error>)
      modifies transport
      ensures transport.registers == old(transport.registers)
      ensures !WireReachable(transport.registers) ==>
        r == Err(Adc16Error.Transport(Drive(old(transport.memory), transport.registers, IDLE).error)) &&
        transport.memory == old(transport.memory) && transport.writes == old(transport.writes) + Accesses([IDLE])
      ensures WireReachable(transport.registers) ==>
        r == Ok(()) && transport.writes == old(transport.writes) + Accesses(WordFrames(cs, 0x00, 1)) &&
        transport.memory == Drive(old(transport.memory), transport.registers, IDLE).value
    {
      r := SendReg(Hmcad1511.Reset(true));
      Hmcad1511.ResetWord();
    }

    /** `send_reg` of `SleepPd { pd: true, ..Default::default() }`: the word 0x0200 to register 0x0F. */
    method PowerDown() returns (r: Result<(), Adc16Error>)
      modifies transport
      ensures transport.registers == old(transport.registers)
      ensures !WireReachable(transport.registers) ==>
        r == Err(Adc16Error.Transport(Drive(old(transport.memory), transport.registers, IDLE).error)) &&
        transport.memory == old(transport.memory) && transport.writes == old(transport.writes) + Accesses([IDLE])
      ensures WireReachable(transport.registers) ==>
        r == Ok(()) && transport.writes == old(transport.writes) + Accesses(WordFrames(cs, 0x0F, 0x0200)) &&
        transport.memory == Drive(old(transport.memory), transport.registers, IDLE).value
    {
      Hmcad1511.SleepPdPowerDownWord();
      r := SendReg(POWER_DOWN);
    }

    /** `send_reg` of `SleepPd::default()`: the word 0 to register 0x0F. */
    method PowerUp() returns (r: Result<(), Adc16Error>)
      modifies transport
      ensures transport.registers == old(transport.registers)
      ensures !WireReachable(transport.registers) ==>
        r == Err(Adc16Error.Transport(Drive(old(transport.memory), transport.registers, IDLE).error)) &&
        transport.memory == old(transport.memory) && transport.writes == old(transport.writes) + Accesses([IDLE])
      ensures WireReachable(transport.registers) ==>
        r == Ok(()) && transport.writes == old(transport.writes) + Accesses(WordFrames(cs, 0x0F, 0)) &&
        transport.memory == Drive(old(transport.memory), transport.registers, IDLE).value
    {
      Hmcad1511.SleepPdDefaultWord();
      r := SendReg(Hmcad1511.DEFAULT_SLEEP_PD);
    }

    /**
     * `power_cycle`: power down the chips of `cs`, power up chips 0 to 7 one at a time, and
     * restore `cs`.
     */
    method PowerCycle() returns (r: Result<(), Adc16Error>)
      modifies this, transport
      ensures cs == old(cs) && transport.registers == old(transport.registers)
      ensures !WireReachable(transport.registers) ==>
        r == Err(Adc16Error.Transport(Drive(old(transport.memory), transport.registers, IDLE).error)) &&
        transport.memory == old(transport.memory) && transport.writes == old(transport.writes) + Accesses([IDLE])
      ensures WireReachable(transport.registers) ==>
        r == Ok(()) && transport.writes == old(transport.writes) + Accesses(PowerCycleFrames(old(cs))) &&
        transport.memory == Drive(old(transport.memory), transport.registers, IDLE).value
    {
      r := PowerDown();
      if r.Err? {
        return;
      }
      var oldCs := cs;
      PowerUpChips(old(transport.memory));
      AccessesExtend(old(transport.writes), WordFrames(oldCs, 0x0F, 0x0200), PowerUpFrames(CHIPS));
      cs := oldCs;
    }

    /**
     * The loop of `power_cycle`: `send_reg` of the default sleep register to chip 0, 1, .. 7
     * in turn. The power-down command before it reached the register, so none of these fails.
     */
    method PowerUpChips(ghost m0: map<nat, byte>)
      requires WireReachable(transport.registers)
      requires transport.memory == Drive(m0, transport.registers, IDLE).value
      modifies this, transport
      ensures transport.registers == old(transport.registers) && cs == Chip(7)
      ensures transport.writes == old(transport.writes) + Accesses(PowerUpFrames(CHIPS))
      ensures transport.memory == Drive(m0, transport.registers, IDLE).value
    {
      ghost var w0 := old(transport.writes);
      AppendNil(w0);
      for i := 0 to 8
        invariant transport.registers == old(transport.registers) && (i > 0 ==> cs == Chip(i - 1))
        invariant transport.writes == w0 + Accesses(PowerUpFrames(i))
        invariant transport.memory == Drive(m0, transport.registers, IDLE).value
      {
        cs := Chip(i);
        var r := PowerUp();
        assert r.Ok?;
        DriveTwice(m0, transport.registers, IDLE, IDLE);
        PowerUpStep(w0, i);
      }
    }
  }
}
