// Bytes, big-endian integers, hexadecimal and decimal text, and UTF-8 well-formedness.
// Rust `String`/`&str` values are modelled by their UTF-8 byte sequences; `from_utf8`
// becomes the check `ValidUtf8`.
module Bytes {
  import opened Wrappers

  type byte = b: int | 0 <= b < 256
  type bytes = seq<byte>

  predicate IsAscii(s: bytes) {
    forall i | 0 <= i < |s| :: s[i] < 128
  }

  // ---------------------------------------------------------------------------
  // Powers and big-endian integers (`to_be_bytes` / `from_be_bytes`)
  // ---------------------------------------------------------------------------

  function Pow2(k: nat): (r: nat)
    ensures r >= 1
  {
    if k == 0 then 1 else 2 * Pow2(k - 1)
  }

  /** 256^w: one more than the largest value of a w-byte unsigned integer. */
  function Pow256(w: nat): (r: nat)
    ensures r >= 1
  {
    if w == 0 then 1 else 256 * Pow256(w - 1)
  }

  lemma {:induction false} Pow2Add(a: nat, b: nat)
    ensures Pow2(a + b) == Pow2(a) * Pow2(b)
  {
    if a > 0 {
      Pow2Add(a - 1, b);
    }
  }

  lemma {:induction false} Pow256IsPow2(w: nat)
    ensures Pow256(w) == Pow2(8 * w)
  {
    if w > 0 {
      Pow256IsPow2(w - 1);
      Pow2Add(8, 8 * (w - 1));
      assert 8 * w == 8 + 8 * (w - 1);
    }
  }

  /** The value of a big-endian byte string (`from_be_bytes` on an unsigned type). */
  function FromBe(s: bytes): (r: nat)
    ensures r < Pow256(|s|)
  {
    if s == [] then 0 else FromBe(s[..|s| - 1]) * 256 + s[|s| - 1]
  }

  /** The w-byte big-endian encoding of x (`to_be_bytes` on an unsigned type). */
  function BeBytes(x: nat, w: nat): (r: bytes)
    requires x < Pow256(w)
    ensures |r| == w
  {
    if w == 0 then [] else BeBytes(x / 256, w - 1) + [x % 256]
  }

  /** One more low byte b after the high part h. */
  lemma BeBytesSnoc(x: nat, h: nat, b: nat, w: nat)
    requires x == h * 256 + b && b < 256 && h < Pow256(w)
    ensures x < Pow256(w + 1) && BeBytes(x, w + 1) == BeBytes(h, w) + [b]
  {
    assert x / 256 == h && x % 256 == b;
  }

  lemma {:induction false} FromBeBeBytes(x: nat, w: nat)
    requires x < Pow256(w)
    ensures FromBe(BeBytes(x, w)) == x
  {
    if w > 0 {
      var s := BeBytes(x, w);
      assert s[..w - 1] == BeBytes(x / 256, w - 1);
      FromBeBeBytes(x / 256, w - 1);
    }
  }

  lemma {:induction false} BeBytesFromBe(s: bytes)
    ensures BeBytes(FromBe(s), |s|) == s
  {
    if s != [] {
      var n := |s|;
      var init := s[..n - 1];
      var x := FromBe(s);
      BeBytesSnoc(x, FromBe(init), s[n - 1], n - 1);
      BeBytesFromBe(init);
      assert s == init + [s[n - 1]];
    }
  }

  /** The value of 4 big-endian bytes, written out. */
  lemma FromBe4(b: bytes)
    requires |b| == 4
    ensures FromBe(b) == (b[0] as int) * 0x100_0000 + (b[1] as int) * 0x1_0000 + (b[2] as int) * 0x100 + b[3] as int
  {
    assert b[..3][..2] == b[..2] && b[..2][..1] == b[..1] && b[..1][..0] == [];
    assert FromBe(b[..1]) == b[0] as int;
    assert FromBe(b[..2]) == FromBe(b[..1]) * 256 + b[1] as int;
    assert FromBe(b[..3]) == FromBe(b[..2]) * 256 + b[2] as int;
    assert b[..4] == b;
  }

  /** Big-endian encoding is injective on values of one width. */
  lemma BeBytesInjective(x: nat, y: nat, w: nat)
    requires x < Pow256(w) && y < Pow256(w)
    requires BeBytes(x, w) == BeBytes(y, w)
    ensures x == y
  {
    FromBeBeBytes(x, w);
    FromBeBeBytes(y, w);
  }

  /** Half of 256^w: the bound of a signed w-byte integer. */
  function Half(w: nat): (h: int)
    ensures w > 0 ==> Pow256(w) == 2 * h
    ensures 0 <= h
  {
    if w == 0 then 0 else 128 * Pow256(w - 1)
  }

  /** Two's complement: the unsigned bit pattern of a signed w-byte value. */
  function SignedToRaw(v: int, w: nat): (r: nat)
    requires -Half(w) <= v < Half(w)
    ensures r < Pow256(w)
    ensures v >= 0 ==> r == v
    ensures v < 0 ==> r >= Half(w)
  {
    if v < 0 then v + Pow256(w) else v
  }

  /** Two's complement: the signed value of a w-byte unsigned bit pattern. */
  function RawToSigned(u: nat, w: nat): (v: int)
    requires u < Pow256(w)
    ensures w > 0 ==> -Half(w) <= v < Half(w)
  {
    if w > 0 && u >= Half(w) then u - Pow256(w) else u
  }

  lemma SignedRoundTrip(v: int, w: nat)
    requires w > 0
    requires -Half(w) <= v < Half(w)
    ensures RawToSigned(SignedToRaw(v, w), w) == v
  {
    assert Pow256(w) == 256 * Pow256(w - 1);
  }

  // ---------------------------------------------------------------------------
  // Hexadecimal text
  // ---------------------------------------------------------------------------

  predicate IsHexDigit(b: byte) {
    ('0' as int <= b <= '9' as int) || ('a' as int <= b <= 'f' as int) || ('A' as int <= b <= 'F' as int)
  }

  predicate IsLowerHexDigit(b: byte) {
    IsHexDigit(b) && !('A' as int <= b <= 'F' as int)
  }

  function HexDigitValue(b: byte): (d: nat)
    requires IsHexDigit(b)
    ensures d < 16
  {
    if b <= '9' as int then b - '0' as int
    else if b <= 'F' as int then b - 'A' as int + 10
    else b - 'a' as int + 10
  }

  /** The lowercase hexadecimal digit for d. */
  function LowerHexDigit(d: nat): (b: byte)
    requires d < 16
    ensures IsLowerHexDigit(b) && HexDigitValue(b) == d
  {
    if d < 10 then '0' as int + d else 'a' as int + d - 10
  }

  /** The value of a string of hex digits (either case), most significant first. */
  function HexValue(s: bytes): nat
    requires forall i | 0 <= i < |s| :: IsHexDigit(s[i])
  {
    if s == [] then 0 else HexValue(s[..|s| - 1]) * 16 + HexDigitValue(s[|s| - 1])
  }

  /** Rust's `format!("{:x}", n)`: lowercase hexadecimal, no prefix, no leading zeros. */
  function LowerHex(n: nat): (r: bytes)
    ensures |r| >= 1
  {
    if n < 16 then [LowerHexDigit(n)] else LowerHex(n / 16) + [LowerHexDigit(n % 16)]
  }

  /** `{:x}` writes lowercase hex digits, with no leading zero unless the value is 0. */
  lemma {:induction false} LowerHexWellFormed(n: nat)
    ensures forall i | 0 <= i < |LowerHex(n)| :: IsHexDigit(LowerHex(n)[i]) && IsLowerHexDigit(LowerHex(n)[i])
    ensures n > 0 ==> LowerHex(n)[0] != '0' as int
  {
    if n >= 16 {
      LowerHexWellFormed(n / 16);
      LowerHexLength(n / 16);
    }
  }

  /** `{:x}` is read back by the hex value of its digits. */
  lemma {:induction false} LowerHexValue(n: nat)
    ensures forall i | 0 <= i < |LowerHex(n)| :: IsHexDigit(LowerHex(n)[i])
    ensures HexValue(LowerHex(n)) == n
  {
    LowerHexWellFormed(n);
    if n >= 16 {
      LowerHexValue(n / 16);
      var r := LowerHex(n);
      assert r[..|r| - 1] == LowerHex(n / 16);
    }
  }

  lemma LowerHexInjective(m: nat, n: nat)
    requires LowerHex(m) == LowerHex(n)
    ensures m == n
  {
    LowerHexValue(m);
    LowerHexValue(n);
  }

  /** `{:x}` of a value below 16 is one digit, otherwise at least two. */
  lemma {:induction false} LowerHexLength(n: nat)
    ensures (|LowerHex(n)| == 1) == (n < 16)
    ensures n < 256 ==> |LowerHex(n)| <= 2
  {
    if n >= 16 {
      LowerHexLength(n / 16);
    }
  }

  /**
   * `u32::from_str_radix(s, 16)` applied to a non-empty run of hex digits (the only
   * way the FPG parsers call it): the value, unless it does not fit in a u32.
   */
  function HexU32(s: bytes): (r: Option<nat>)
    requires |s| > 0 && forall i | 0 <= i < |s| :: IsHexDigit(s[i])
    ensures r.Some? <==> HexValue(s) < Pow2(32)
    ensures r.Some? ==> r.value == HexValue(s)
  {
    if HexValue(s) < Pow2(32) then Some(HexValue(s)) else None
  }

  // ---------------------------------------------------------------------------
  // Decimal text (`str::parse::<usize>()` / `::<u32>()`)
  // ---------------------------------------------------------------------------

  predicate IsDecDigit(b: byte) {
    '0' as int <= b <= '9' as int
  }

  function DecValue(s: bytes): nat
    requires forall i | 0 <= i < |s| :: IsDecDigit(s[i])
  {
    if s == [] then 0
    else
      assert IsDecDigit(s[|s| - 1]);
      DecValue(s[..|s| - 1]) * 10 + (s[|s| - 1] as int - '0' as int)
  }

  /**
   * Rust's `FromStr` for an unsigned integer type whose largest value is `max`:
   * an optional '+', then one or more decimal digits whose value is at most `max`.
   */
  function ParseUnsigned(s: bytes, max: nat): (r: Option<nat>)
    ensures r.Some? ==> r.value <= max
    ensures r.Some? ==> exists k | 0 <= k <= 1 :: k < |s| && HasDecValue(s[k..], r.value)
  {
    var digits := if |s| > 0 && s[0] == '+' as int then s[1..] else s;
    if digits != [] && (forall i | 0 <= i < |digits| :: IsDecDigit(digits[i])) && DecValue(digits) <= max
    then
      var k := if |s| > 0 && s[0] == '+' as int then 1 else 0;
      assert s[k..] == digits && HasDecValue(s[k..], DecValue(digits));
      Some(DecValue(digits))
    else None
  }

  predicate HasDecValue(s: bytes, v: nat) {
    (forall i | 0 <= i < |s| :: IsDecDigit(s[i])) && DecValue(s) == v
  }

  const USIZE_MAX: nat := 0xFFFF_FFFF_FFFF_FFFF
  const U32_MAX: nat := 0xFFFF_FFFF

  /** `to_string()` of a natural number, the reference for parsing. */
  function DecimalText(n: nat): (r: bytes)
    ensures |r| >= 1
    ensures forall i | 0 <= i < |r| :: IsDecDigit(r[i])
    ensures DecValue(r) == n
  {
    if n < 10 then ['0' as int + n]
    else
      var r := DecimalText(n / 10) + ['0' as int + n % 10];
      assert r[..|r| - 1] == DecimalText(n / 10);
      r
  }

  lemma ParseDecimalText(n: nat, max: nat)
    requires n <= max
    ensures ParseUnsigned(DecimalText(n), max) == Some(n)
  {
  }

  // ---------------------------------------------------------------------------
  // Searching
  // ---------------------------------------------------------------------------

  /** `iter().position(|&c| c == b)`: the index of the first `b`. */
  function IndexOf(s: bytes, b: byte): (r: Option<nat>)
    ensures r.Some? ==> r.value < |s| && s[r.value] == b && b !in s[..r.value]
    ensures r.None? <==> b !in s
  {
    if s == [] then None
    else if s[0] == b then Some(0)
    else
      var t := IndexOf(s[1..], b);
      if t.None? then None
      else
        assert s[..t.value + 1] == [s[0]] + s[1..][..t.value];
        Some(t.value + 1)
  }

  /** A sequence is its first k elements followed by the rest. */
  lemma TakeDrop<T>(s: seq<T>, k: nat)
    requires k <= |s|
    ensures s[..k] + s[k..] == s
  {
  }

  lemma AppendAssoc<T>(x: seq<T>, y: seq<T>, z: seq<T>)
    ensures x + (y + z) == x + y + z
  {
  }

  /** The prefix up to lo followed by the slice lo .. hi is the prefix up to hi. */
  lemma PrefixExtend<T>(s: seq<T>, lo: nat, hi: nat)
    requires lo <= hi <= |s|
    ensures s[..lo] + s[lo..hi] == s[..hi]
  {
  }

  /** A prefix of a prefix. */
  lemma PrefixOfPrefix<T>(s: seq<T>, hi: nat, n: nat)
    requires n <= hi <= |s|
    ensures s[..hi][..n] == s[..n]
  {
  }

  /** The first |a| elements of a + b are a. */
  lemma AppendTake<T>(a: seq<T>, b: seq<T>)
    ensures (a + b)[..|a|] == a
  {
  }

  /** A slice of a + b past a is a slice of b. */
  lemma AppendSlice<T>(a: seq<T>, b: seq<T>, lo: nat, hi: nat)
    requires lo <= hi <= |b|
    ensures (a + b)[|a| + lo..|a| + hi] == b[lo..hi]
  {
  }

  /** A slice of a + b past a, with its positions given in both sequences. */
  lemma AppendSliceAt<T>(a: seq<T>, b: seq<T>, k: nat, lo: nat, hi: nat, blo: nat, bhi: nat)
    requires k == |a| && lo == k + blo && hi == k + bhi && blo <= bhi <= |b|
    ensures (a + b)[lo..hi] == b[blo..bhi]
  {
  }

  /** A slice inside the left operand of a concatenation. */
  lemma AppendSliceLeft<T>(a: seq<T>, b: seq<T>, lo: nat, hi: nat)
    requires lo <= hi <= |a|
    ensures (a + b)[lo..hi] == a[lo..hi]
  {
  }

  /** A slice of a prefix is a slice of the whole. */
  lemma SliceOfPrefix<T>(s: seq<T>, k: nat, lo: nat, hi: nat)
    requires lo <= hi <= k <= |s|
    ensures s[..k][lo..hi] == s[lo..hi]
  {
  }

  /** A slice of a suffix is a shifted slice of the whole. */
  lemma SliceOfSuffix<T>(s: seq<T>, k: nat, lo: nat, hi: nat)
    requires lo <= hi && k + hi <= |s|
    ensures s[k..][lo..hi] == s[k + lo..k + hi]
  {
  }

  lemma Concat5(a: bytes, b: bytes, c: bytes, d: bytes, e: bytes)
    ensures a + (b + c + (d + e)) == a + b + c + d + e
  {
    assert b + c + (d + e) == b + c + d + e;
  }

  /** The first occurrence is determined by any position that holds `b` with no `b` before it. */
  lemma IndexOfAt(s: bytes, b: byte, k: nat)
    requires k < |s| && s[k] == b && b !in s[..k]
    ensures IndexOf(s, b) == Some(k)
  {
    assert b in s;
  }

  predicate OccursAt(s: bytes, pat: bytes, i: nat) {
    i + |pat| <= |s| && s[i..i + |pat|] == pat
  }

  /** `str::find(pat)`: the byte index of the first occurrence of `pat`. */
  function Find(s: bytes, pat: bytes): (r: Option<nat>)
    ensures r.Some? ==> r.value + |pat| <= |s|
  {
    FindFrom(s, pat, 0)
  }

  function FindFrom(s: bytes, pat: bytes, from: nat): (r: Option<nat>)
    requires from <= |s| + 1
    ensures r.Some? ==> from <= r.value && r.value + |pat| <= |s|
    decreases |s| + 1 - from
  {
    if from + |pat| > |s| then None
    else if s[from..from + |pat|] == pat then Some(from)
    else FindFrom(s, pat, from + 1)
  }

  lemma {:induction false} FindFromCharacterised(s: bytes, pat: bytes, from: nat)
    requires from <= |s| + 1
    ensures var r := FindFrom(s, pat, from);
      (r.Some? ==> from <= r.value && OccursAt(s, pat, r.value) && forall j | from <= j < r.value :: !OccursAt(s, pat, j)) &&
      (r.None? ==> forall j | from <= j <= |s| :: !OccursAt(s, pat, j))
    decreases |s| + 1 - from
  {
    if from + |pat| <= |s| && s[from..from + |pat|] != pat {
      FindFromCharacterised(s, pat, from + 1);
    }
  }

  /** `find` gives the first occurrence, and `None` exactly when there is none. */
  lemma FindCharacterised(s: bytes, pat: bytes)
    ensures Find(s, pat).Some? ==>
      OccursAt(s, pat, Find(s, pat).value) && forall j | 0 <= j < Find(s, pat).value :: !OccursAt(s, pat, j)
    ensures Find(s, pat).None? ==> forall j | 0 <= j <= |s| :: !OccursAt(s, pat, j)
  {
    FindFromCharacterised(s, pat, 0);
  }

  /** The first occurrence is what `find` returns. */
  lemma FindIs(s: bytes, pat: bytes, k: nat)
    requires OccursAt(s, pat, k) && forall j | 0 <= j < k :: !OccursAt(s, pat, j)
    ensures Find(s, pat) == Some(k)
  {
    FindCharacterised(s, pat);
  }

  /** No occurrence at all: `find` returns `None`. */
  lemma FindNone(s: bytes, pat: bytes)
    requires forall j | 0 <= j <= |s| :: !OccursAt(s, pat, j)
    ensures Find(s, pat) == None
  {
    FindCharacterised(s, pat);
  }

  /** `str::to_ascii_lowercase`: ASCII capitals become lowercase, every other byte is kept. */
  function AsciiLower(s: bytes): (r: bytes)
    ensures |r| == |s|
    ensures forall i | 0 <= i < |s| :: r[i] == (if 'A' as int <= s[i] <= 'Z' as int then s[i] + 32 else s[i])
  {
    seq(|s|, i requires 0 <= i < |s| => if 'A' as int <= s[i] <= 'Z' as int then s[i] + 32 else s[i])
  }

  /** `str::replace(from, to)` for one-byte patterns. */
  function ReplaceByte(s: bytes, from: byte, to: byte): (r: bytes)
    ensures |r| == |s|
    ensures forall i | 0 <= i < |s| :: r[i] == (if s[i] == from then to else s[i])
  {
    seq(|s|, i requires 0 <= i < |s| => if s[i] == from then to else s[i])
  }

  // ---------------------------------------------------------------------------
  // UTF-8 (RFC 3629 well-formed sequences, as accepted by `str::from_utf8`)
  // ---------------------------------------------------------------------------

  predicate InRange(b: byte, lo: int, hi: int) { lo <= b <= hi }

  /**
   * The length of the well-formed UTF-8 sequence that starts at `s[i]` and ends by `hi`, or 0 if
   * there is none.
   */
  function Utf8SeqLen(s: bytes, i: nat, hi: nat): (n: nat)
    requires i <= hi <= |s|
    ensures n <= hi - i && n <= 4
    ensures i < hi && s[i] < 0x80 ==> n == 1
  {
    if i == hi then 0
    else if s[i] < 0x80 then 1
    else if hi - i >= 2 && InRange(s[i], 0xC2, 0xDF) && InRange(s[i + 1], 0x80, 0xBF) then 2
    else if hi - i >= 3 && (
      (s[i] == 0xE0 && InRange(s[i + 1], 0xA0, 0xBF)) ||
      ((InRange(s[i], 0xE1, 0xEC) || InRange(s[i], 0xEE, 0xEF)) && InRange(s[i + 1], 0x80, 0xBF)) ||
      (s[i] == 0xED && InRange(s[i + 1], 0x80, 0x9F)))
      && InRange(s[i + 2], 0x80, 0xBF) then 3
    else if hi - i >= 4 && (
      (s[i] == 0xF0 && InRange(s[i + 1], 0x90, 0xBF)) ||
      (InRange(s[i], 0xF1, 0xF3) && InRange(s[i + 1], 0x80, 0xBF)) ||
      (s[i] == 0xF4 && InRange(s[i + 1], 0x80, 0x8F)))
      && InRange(s[i + 2], 0x80, 0xBF) && InRange(s[i + 3], 0x80, 0xBF) then 4
    else 0
  }

  /** `s[i..hi]` is a sequence of well-formed UTF-8 characters. */
  predicate Utf8In(s: bytes, i: nat, hi: nat)
    requires i <= hi <= |s|
    decreases hi - i
  {
    i == hi || (Utf8SeqLen(s, i, hi) > 0 && Utf8In(s, i + Utf8SeqLen(s, i, hi), hi))
  }

  /** `str::from_utf8(s).is_ok()`. */
  predicate ValidUtf8(s: bytes) {
    Utf8In(s, 0, |s|)
  }

  lemma {:induction false} AsciiIn(s: bytes, i: nat)
    requires IsAscii(s) && i <= |s|
    ensures Utf8In(s, i, |s|)
    decreases |s| - i
  {
    if i < |s| {
      AsciiIn(s, i + 1);
    }
  }

  lemma AsciiIsUtf8(s: bytes)
    requires IsAscii(s)
    ensures ValidUtf8(s)
  {
    AsciiIn(s, 0);
  }

  /** A sequence that ends by `m` ends the same way within any longer range. */
  lemma Utf8SeqLenExtend(s: bytes, i: nat, m: nat, hi: nat)
    requires i <= m <= hi <= |s| && Utf8SeqLen(s, i, m) > 0
    ensures Utf8SeqLen(s, i, hi) == Utf8SeqLen(s, i, m)
  {
  }

  /** Cutting a range after its first sequence keeps that sequence. */
  lemma Utf8SeqLenShrink(s: bytes, i: nat, m: nat, hi: nat)
    requires i <= m <= hi <= |s| && Utf8SeqLen(s, i, hi) > 0 && i + Utf8SeqLen(s, i, hi) <= m
    ensures Utf8SeqLen(s, i, m) == Utf8SeqLen(s, i, hi)
  {
  }

  /** Two ranges holding the same bytes agree on their first sequence. */
  lemma Utf8SeqLenSame(s: bytes, i: nat, hi: nat, t: bytes, j: nat)
    requires i <= hi <= |s| && j + (hi - i) <= |t|
    requires s[i..hi] == t[j..j + (hi - i)]
    ensures Utf8SeqLen(s, i, hi) == Utf8SeqLen(t, j, j + (hi - i))
  {
    if i < hi {
      assert s[i] == s[i..hi][0] == t[j];
      assert hi - i >= 2 ==> s[i + 1] == s[i..hi][1] == t[j + 1];
      assert hi - i >= 3 ==> s[i + 2] == s[i..hi][2] == t[j + 2];
      assert hi - i >= 4 ==> s[i + 3] == s[i..hi][3] == t[j + 3];
    }
  }

  /** Well-formedness of a range depends only on the bytes in it. */
  lemma {:induction false} Utf8InSame(s: bytes, i: nat, hi: nat, t: bytes, j: nat)
    requires i <= hi <= |s| && j + (hi - i) <= |t|
    requires s[i..hi] == t[j..j + (hi - i)]
    ensures Utf8In(s, i, hi) <==> Utf8In(t, j, j + (hi - i))
    decreases hi - i
  {
    if i < hi {
      Utf8SeqLenSame(s, i, hi, t, j);
      var n := Utf8SeqLen(s, i, hi);
      if n > 0 {
        assert s[i + n..hi] == s[i..hi][n..];
        assert t[j + n..j + (hi - i)] == t[j..j + (hi - i)][n..];
        Utf8InSame(s, i + n, hi, t, j + n);
      }
    }
  }

  /** The range form and the slice form of well-formedness agree. */
  lemma Utf8InSlice(s: bytes, i: nat, hi: nat)
    requires i <= hi <= |s|
    ensures Utf8In(s, i, hi) <==> ValidUtf8(s[i..hi])
  {
    Utf8InSame(s, i, hi, s[i..hi], 0);
  }

  /** Two adjacent well-formed ranges make one. */
  lemma {:induction false} Utf8InJoin(s: bytes, i: nat, m: nat, hi: nat)
    requires i <= m <= hi <= |s| && Utf8In(s, i, m) && Utf8In(s, m, hi)
    ensures Utf8In(s, i, hi)
    decreases m - i
  {
    if i < m {
      Utf8SeqLenExtend(s, i, m, hi);
      Utf8InJoin(s, i + Utf8SeqLen(s, i, m), m, hi);
    }
  }

  lemma Utf8Concat(s: bytes, t: bytes)
    requires ValidUtf8(s) && ValidUtf8(t)
    ensures ValidUtf8(s + t)
  {
    var u := s + t;
    assert s[0..|s|] == s == u[0..|s|];
    assert t[0..|t|] == t == u[|s|..|s| + |t|];
    Utf8InSame(s, 0, |s|, u, 0);
    Utf8InSame(t, 0, |t|, u, |s|);
    Utf8InJoin(u, 0, |s|, |u|);
  }

  /** A continuation byte 10xxxxxx never starts a character. */
  predicate IsContinuation(b: byte) { 0x80 <= b < 0xC0 }

  /** `str::is_char_boundary(i)`: slicing a `&str` at i panics unless this holds. */
  predicate IsCharBoundary(s: bytes, i: nat) {
    i == 0 || i == |s| || (i < |s| && !IsContinuation(s[i]))
  }

  /** The bytes after the first of a sequence are continuation bytes. */
  lemma Utf8SeqLenContinuations(s: bytes, i: nat, hi: nat)
    requires i <= hi <= |s|
    ensures forall j | i < j < i + Utf8SeqLen(s, i, hi) :: IsContinuation(s[j])
  {
  }

  /** A well-formed range cut where no continuation byte follows is well-formed. */
  lemma {:induction false} Utf8InCut(s: bytes, i: nat, n: nat, hi: nat)
    requires i <= n <= hi <= |s| && Utf8In(s, i, hi)
    requires n == hi || !IsContinuation(s[n])
    ensures Utf8In(s, i, n)
    decreases hi - i
  {
    if i < n {
      var k := Utf8SeqLen(s, i, hi);
      Utf8SeqLenContinuations(s, i, hi);
      assert i + k <= n;
      Utf8SeqLenShrink(s, i, n, hi);
      Utf8InCut(s, i + k, n, hi);
    }
  }

  /** The bytes before a character boundary of a well-formed string are well-formed. */
  lemma Utf8Prefix(s: bytes, n: nat)
    requires ValidUtf8(s) && n <= |s| && IsCharBoundary(s, n)
    ensures ValidUtf8(s[..n])
  {
    if n > 0 {
      Utf8InCut(s, 0, n, |s|);
      Utf8InSlice(s, 0, n);
    }
  }
}
