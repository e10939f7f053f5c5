// The older FPG fragment of src/yellow_blocks/mod.rs: a `shebang` and `uploadbin` line
// parser and a `register` parser that inserts each register line into the caller's device
// map. It shares the nom combinators of the live grammar (module Fpg) except for the number
// parser, which is nom's `number::complete::hex_u32`.
module FpgLegacy {
  import opened Wrappers
  import opened Bytes
  import Fpg

  /** "#!/bin/kcpfg": this fragment's shebang, one letter shorter than the live one. */
  const KCPFG: bytes := [35, 33, 47, 98, 105, 110, 47, 107, 99, 112, 102, 103]

  /** `FpgDevice`: every field optional, since a register line knows no kind. */
  datatype LegacyDevice = LegacyDevice(kind: Option<bytes>, addr: Option<nat>, size: Option<nat>, metadata: map<bytes, bytes>)

  /** What `register` returns: a nom error, the panic of `from_utf8(name).unwrap()`, or the rest. */
  datatype Outcome = NomError | Utf8Panic | Done(rest: bytes)

  /** `shebang`: `terminated(tag("#!/bin/kcpfg"), line_ending)`. */
  function Shebang(s: bytes): (r: Option<bytes>)
    ensures r.Some? <==> (|s| > |KCPFG| && s[..|KCPFG|] == KCPFG && Fpg.LineEnding(s[|KCPFG|..]).Some?)
    ensures r.Some? ==> s == KCPFG + ([Fpg.LF] + r.value) || s == KCPFG + ([Fpg.CR, Fpg.LF] + r.value)
  {
    var a :- Fpg.Tag(KCPFG, s);
    var b :- Fpg.LineEnding(a);
    assert a == [Fpg.LF] + b || a == [Fpg.CR, Fpg.LF] + b;
    Some(b)
  }

  /** `uploadbin` is the live grammar's: `?uploadbin` and a line ending. */
  lemma UploadbinOnto(k: bytes)
    ensures Fpg.TagLine(Fpg.UPLOADBIN, Fpg.UPLOADBIN + ([Fpg.LF] + k)) == Some(k)
    ensures Fpg.TagLine(Fpg.UPLOADBIN, [Fpg.LF] + k).None?
  {
    Fpg.TagLineOnto(Fpg.UPLOADBIN, k);
  }

  lemma ShebangOnto(k: bytes)
    ensures Shebang(KCPFG + ([Fpg.LF] + k)) == Some(k)
  {
    Fpg.TagOnto(KCPFG, [Fpg.LF] + k);
  }

  /** A file with the live shebang "#!/bin/kcpfpg" is refused: its twelfth byte is 'p', not 'g'. */
  lemma LiveShebangRejected(k: bytes)
    ensures Shebang(Fpg.SHEBANG + k).None?
  {
    var s := Fpg.SHEBANG + k;
    assert s[..|KCPFG|][11] != KCPFG[11];
  }

  // ---------------------------------------------------------------------------
  // nom's `hex_u32`
  // ---------------------------------------------------------------------------

  /** k hex digits have a value below 16^k. */
  lemma {:induction false} HexValueBound(d: bytes)
    requires forall i | 0 <= i < |d| :: IsHexDigit(d[i])
    ensures HexValue(d) < Pow2(4 * |d|)
  {
    if d != [] {
      HexValueBound(d[..|d| - 1]);
      Pow2Add(4 * (|d| - 1), 4);
      assert Pow2(4) == 16;
    }
  }

  lemma {:induction false} Pow2Monotone(a: nat, b: nat)
    requires a <= b
    ensures Pow2(a) <= Pow2(b)
  {
    Pow2Add(a, b - a);
  }

  /**
   * `hex_u32`: at least one hex digit; of a longer run only the first 8 are read, and the
   * rest of the run is left in the input.
   */
  function HexU32Prefix(s: bytes): (r: Option<Fpg.Parsed<nat>>)
    ensures r.Some? <==> |s| > 0 && IsHexDigit(s[0])
    ensures r.Some? ==> Fpg.EndsWith(s, r.value.rest) && 1 <= |s| - |r.value.rest| <= 8
    ensures r.Some? ==> r.value.value < Pow2(32)
    ensures r.Some? && |s| - |r.value.rest| < 8 ==> r.value.rest == [] || !IsHexDigit(r.value.rest[0])
  {
    var j := Fpg.HexEnd(s, 0);
    if j == 0 then None
    else
      var n := if j <= 8 then j else 8;
      HexValueBound(s[..n]);
      Pow2Monotone(4 * n, 32);
      Some(Fpg.Parsed(HexValue(s[..n]), s[n..]))
  }

  /** `hex_u32` on a run of at most eight digits reads all of it. */
  lemma HexU32Onto(d: bytes, k: bytes)
    requires 1 <= |d| <= 8 && (forall i | 0 <= i < |d| :: IsHexDigit(d[i])) && (k == [] || !IsHexDigit(k[0]))
    ensures HexU32Prefix(d + k) == Some(Fpg.Parsed(HexValue(d), k))
  {
    Fpg.HexEndOnto(d, k, 0);
    assert (d + k)[..|d|] == d && (d + k)[|d|..] == k;
  }

  lemma {:induction false} HexEndAtLeast(s: bytes, i: nat, m: nat)
    requires i <= m <= |s| && forall j | i <= j < m :: IsHexDigit(s[j])
    ensures Fpg.HexEnd(s, i) >= m
    decreases m - i
  {
    if i < m {
      HexEndAtLeast(s, i + 1, m);
    }
  }

  /** `hex_u32` on a run of more than eight digits stops after the eighth. */
  lemma HexU32Long(d: bytes, k: bytes)
    requires |d| > 8 && (forall i | 0 <= i < |d| :: IsHexDigit(d[i]))
    ensures HexU32Prefix(d + k) == Some(Fpg.Parsed(HexValue(d[..8]), d[8..] + k))
  {
    HexEndAtLeast(d + k, 0, |d|);
    assert (d + k)[..8] == d[..8] && (d + k)[8..] == d[8..] + k;
  }

  /** A u32 in `{:x}` has at most eight digits. */
  lemma {:induction false} LowerHexDigits(n: nat, k: nat)
    requires k >= 1 && n < Pow2(4 * k)
    ensures |LowerHex(n)| <= k
  {
    if n >= 16 {
      Pow2Add(4 * (k - 1), 4);
      assert Pow2(4) == 16;
      if k == 1 {
        assert false;
      }
      LowerHexDigits(n / 16, k - 1);
    }
  }

  // ---------------------------------------------------------------------------
  // `register`
  // ---------------------------------------------------------------------------

  /** `preceded(tuple((space1, tag("0x"))), hex_u32)`. */
  function HexField(s: bytes): (r: Option<Fpg.Parsed<nat>>)
    ensures r.Some? ==> |s| > 0 && Fpg.IsSpace(s[0])
    ensures r.Some? ==> Fpg.EndsWith(s, r.value.rest) && |r.value.rest| < |s| && r.value.value < Pow2(32)
  {
    var a :- Fpg.Space1(s);
    var b :- Fpg.Tag(Fpg.HEX_PREFIX, a);
    var n :- HexU32Prefix(b);
    assert Fpg.EndsWith(a, b);
    Fpg.EndsWithTrans(s, a, b);
    Fpg.EndsWithTrans(s, b, n.rest);
    Some(n)
  }

  /**
   * `preceded(space1, take_till(is_space))`: the run after the separating whitespace, which is
   * empty only at the end of the input.
   */
  function NameField(s: bytes): (r: Option<Fpg.Parsed<bytes>>)
    ensures r.Some? ==> Fpg.EndsWith(s, r.value.rest) && |r.value.rest| < |s|
    ensures r.Some? ==> Fpg.NoSpaces(r.value.value) && (r.value.rest == [] || Fpg.IsSpace(r.value.rest[0]))
    ensures r.Some? && r.value.value == [] ==> r.value.rest == []
  {
    var t :- Fpg.Space1(s);
    var j := Fpg.TokenEnd(t, 0);
    Fpg.EndsWithTrans(s, t, t[j..]);
    Some(Fpg.Parsed(t[..j], t[j..]))
  }

  lemma NameFieldOnto(x: bytes, k: bytes)
    requires |x| > 0 && Fpg.NoSpaces(x) && (k == [] || Fpg.IsSpace(k[0]))
    ensures NameField(Fpg.FieldOnto(x, k)) == Some(Fpg.Parsed(x, k))
  {
    Fpg.Space1Onto(x + k);
    Fpg.TokenEndOnto(x, k, 0);
    assert (x + k)[..|x|] == x && (x + k)[|x|..] == k;
  }

  /**
   * The parsing half of `register`: `?register`, a name after whitespace, two "0x" numbers
   * after whitespace, and a line ending. The name is a non-empty run without spaces or tabs.
   */
  function RegisterP(s: bytes): (r: Option<Fpg.Parsed<Fpg.RegisterLine>>)
    ensures r.Some? ==> Fpg.EndsWith(s, r.value.rest) && |r.value.rest| < |s|
    ensures r.Some? ==> |r.value.value.name| > 0 && Fpg.NoSpaces(r.value.value.name)
    ensures r.Some? ==> r.value.value.addr < Pow2(32) && r.value.value.size < Pow2(32)
  {
    var a :- Fpg.Tag(Fpg.REGISTER, s);
    var name :- NameField(a);
    var addr :- HexField(name.rest);
    var size :- HexField(addr.rest);
    var rest :- Fpg.LineEnding(size.rest);
    assert Fpg.EndsWith(s, a);
    Fpg.EndsWithTrans(s, a, name.rest);
    Fpg.EndsWithTrans(s, name.rest, addr.rest);
    Fpg.EndsWithTrans(s, addr.rest, size.rest);
    Fpg.EndsWithTrans(s, size.rest, rest);
    Some(Fpg.Parsed(Fpg.RegisterLine(name.value, addr.value, size.value), rest))
  }

  /** The device a register line creates: no kind, its address and size, no metadata. */
  function NewDevice(l: Fpg.RegisterLine): (d: LegacyDevice)
    ensures d.kind.None? && d.metadata == map[]
    ensures d.addr == Some(l.addr) && d.size == Some(l.size)
  {
    LegacyDevice(None, Some(l.addr), Some(l.size), map[])
  }

  /** A register line in the live writer's form reads back under this parser too. */
  lemma RegisterOntoParses(l: Fpg.RegisterLine, k: bytes)
    requires |l.name| > 0 && Fpg.NoSpaces(l.name) && l.addr < Pow2(32) && l.size < Pow2(32)
    ensures RegisterP(Fpg.RegisterOnto(l, k)) == Some(Fpg.Parsed(l, k))
  {
    var size := Fpg.HexOnto(l.size, [Fpg.LF] + k);
    var addr := Fpg.HexOnto(l.addr, size);
    Fpg.TagOnto(Fpg.REGISTER, Fpg.FieldOnto(l.name, addr));
    NameFieldOnto(l.name, addr);
    HexFieldOnto(l.addr, size);
    HexFieldOnto(l.size, [Fpg.LF] + k);
  }

  lemma HexFieldOnto(n: nat, k: bytes)
    requires n < Pow2(32) && (k == [] || !IsHexDigit(k[0]))
    ensures HexField(Fpg.HexOnto(n, k)) == Some(Fpg.Parsed(n, k))
  {
    var d := LowerHex(n);
    LowerHexValue(n);
    Fpg.U32Limit();
    assert Pow2(4 * 8) == Pow2(32);
    LowerHexDigits(n, 8);
    Fpg.Space1Onto(Fpg.HEX_PREFIX + (d + k));
    Fpg.TagOnto(Fpg.HEX_PREFIX, d + k);
    HexU32Onto(d, k);
  }

  /**
   * An address with a ninth digit is no register: `hex_u32` leaves the ninth digit, where the
   * whitespace before the size must be.
   */
  lemma LongAddressRejected(name: bytes, d: bytes, k: bytes)
    requires |name| > 0 && Fpg.NoSpaces(name)
    requires |d| > 8 && (forall i | 0 <= i < |d| :: IsHexDigit(d[i]))
    ensures RegisterP(Fpg.REGISTER + Fpg.FieldOnto(name, [Fpg.TAB] + (Fpg.HEX_PREFIX + (d + k)))).None?
  {
    var run := Fpg.HEX_PREFIX + (d + k);
    var t := [Fpg.TAB] + run;
    Fpg.TagOnto(Fpg.REGISTER, Fpg.FieldOnto(name, t));
    NameFieldOnto(name, t);
    LongHexField(d, k);
  }

  lemma LongHexField(d: bytes, k: bytes)
    requires |d| > 8 && (forall i | 0 <= i < |d| :: IsHexDigit(d[i]))
    ensures HexField([Fpg.TAB] + (Fpg.HEX_PREFIX + (d + k))) == Some(Fpg.Parsed(HexValue(d[..8]), d[8..] + k))
    ensures HexField(d[8..] + k).None?
  {
    Fpg.Space1Onto(Fpg.HEX_PREFIX + (d + k));
    Fpg.TagOnto(Fpg.HEX_PREFIX, d + k);
    HexU32Long(d, k);
    HexDigitNoField(d[8..] + k);
  }

  /** Input that starts with a hex digit rather than a tab holds no hex field. */
  lemma HexDigitNoField(s: bytes)
    requires |s| > 0 && IsHexDigit(s[0])
    ensures HexField(s).None?
  {
  }

  // ---------------------------------------------------------------------------
  // The device map
  // ---------------------------------------------------------------------------

  /** The caller's `&mut FpgDevices`. */
  class DeviceTable {
    var devices: map<bytes, LegacyDevice>

    /** `HashMap::new()`. */
    constructor()
      ensures devices == map[]
    {
      devices := map[];
    }

    /**
     * `register`: on a register line whose name is UTF-8, the device of that name becomes
     * `NewDevice` of the line (replacing any earlier one) and the input after the line ending
     * is returned. A parse failure leaves the map as it was; so does the name's UTF-8 panic,
     * which happens after parsing and before the insertion.
     */
    method Register(input: bytes) returns (r: Outcome)
      modifies this
      ensures RegisterP(input).None? ==> r == NomError && devices == old(devices)
      ensures RegisterP(input).Some? && !ValidUtf8(RegisterP(input).value.value.name) ==>
        r == Utf8Panic && devices == old(devices)
      ensures RegisterP(input).Some? && ValidUtf8(RegisterP(input).value.value.name) ==>
        var p := RegisterP(input).value;
        r == Done(p.rest) && devices == old(devices)[p.value.name := NewDevice(p.value)]
    {
      var p := RegisterP(input);
      if p.None? {
        return NomError;
      }
      var line := p.value.value;
      if !ValidUtf8(line.name) {
        return Utf8Panic;
      }
      devices := devices[line.name := NewDevice(line)];
      return Done(p.value.rest);
    }
  }
}
