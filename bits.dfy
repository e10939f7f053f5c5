// Bit fields of an unsigned word, numbered from the least significant bit (the `lsb0`
// numbering of the `packed_struct` layouts the yellow blocks declare), and the packing of a
// register layout (a list of disjoint fields) into a word and back.
module Bits {
  import opened Bytes

  /** The powers of two the register widths use. */
  lemma Pow2Table()
    ensures Pow2(1) == 2 && Pow2(2) == 4 && Pow2(3) == 8 && Pow2(4) == 16
    ensures Pow2(5) == 32 && Pow2(6) == 64 && Pow2(7) == 128 && Pow2(8) == 256
    ensures Pow2(16) == 0x1_0000 && Pow2(32) == 0x1_0000_0000
  {
    Pow2Add(8, 8);
    Pow2Add(16, 16);
  }

  /** The powers of two up to a byte. */
  lemma Pow2Byte()
    ensures Pow2(1) == 2 && Pow2(2) == 4 && Pow2(3) == 8 && Pow2(4) == 16
    ensures Pow2(5) == 32 && Pow2(6) == 64 && Pow2(7) == 128 && Pow2(8) == 256
  {
  }

  /** The width of a 16-bit register word. */
  lemma Pow2Sixteen()
    ensures Pow2(16) == 0x1_0000
  {
    assert Pow2(8) == 256;
    Pow2Add(8, 8);
  }

  /** The bit positions of the 32-bit words whose fields are written out as sums. */
  lemma Pow2Positions()
    ensures Pow2(8) == 0x100 && Pow2(9) == 0x200 && Pow2(16) == 0x1_0000
    ensures Pow2(20) == 0x10_0000 && Pow2(24) == 0x100_0000 && Pow2(26) == 0x400_0000
  {
    Pow2Table();
    Pow2Add(16, 4);
    Pow2Add(16, 8);
    Pow2Add(24, 2);
    Pow2Add(8, 1);
  }

  /** A flag as a bit value. */
  function Flag(b: bool): (r: nat)
    ensures r < 2 && (r == 1 <==> b)
  {
    if b then 1 else 0
  }

  /** The `width` bits of x from bit `lo` up. */
  function Field(x: nat, lo: nat, width: nat): (r: nat)
    ensures r < Pow2(width)
  {
    (x / Pow2(lo)) % Pow2(width)
  }

  /** Bit k of x. */
  predicate TestBit(x: nat, k: nat) {
    Field(x, k, 1) == 1
  }

  // ---------------------------------------------------------------------------
  // Division by powers of two
  // ---------------------------------------------------------------------------

  lemma MulAtLeast(d: int, k: int)
    requires d > 0 && k >= 1
    ensures d * k >= d
  {
  }

  lemma Distrib(d: int, a: int, b: int)
    ensures d * (a - b) == d * a - d * b
  {
  }

  /** Euclidean division has one quotient and one remainder. */
  lemma DivModUnique(x: int, d: int, q: int, r: int)
    requires d > 0 && 0 <= r < d && x == d * q + r
    ensures x / d == q && x % d == r
  {
    var q', r' := x / d, x % d;
    assert x == d * q' + r';
    if q' > q {
      MulAtLeast(d, q' - q);
      Distrib(d, q', q);
    } else if q' < q {
      MulAtLeast(d, q - q');
      Distrib(d, q, q');
    }
  }

  /** Shifting right by k + 1 is halving, then shifting right by k. */
  lemma DivHalf(x: nat, k: nat)
    ensures x / Pow2(k + 1) == (x / 2) / Pow2(k)
  {
    var p := Pow2(k);
    var q, r := (x / 2) / p, (x / 2) % p;
    assert x / 2 == p * q + r;
    assert x == (2 * p) * q + (2 * r + x % 2);
    DivModUnique(x, 2 * p, q, 2 * r + x % 2);
  }

  /** Bit k + 1 of x is bit k of x / 2. */
  lemma TestBitHalf(x: nat, k: nat)
    ensures TestBit(x, k + 1) == TestBit(x / 2, k)
  {
    DivHalf(x, k);
  }

  // ---------------------------------------------------------------------------
  // Bit strings, least significant bit first
  // ---------------------------------------------------------------------------

  /** The value of a bit string whose element k is bit k. */
  function BitsValue(bits: seq<bool>): (x: nat)
    ensures x < Pow2(|bits|)
  {
    if bits == [] then 0 else Flag(bits[0]) + 2 * BitsValue(bits[1..])
  }

  /** The binary digits of a byte: f0 is bit 0, f7 bit 7. */
  lemma ByteDigits(x: nat, f0: nat, f1: nat, f2: nat, f3: nat, f4: nat, f5: nat, f6: nat, f7: nat)
    requires f0 < 2 && f1 < 2 && f2 < 2 && f3 < 2 && f4 < 2 && f5 < 2 && f6 < 2 && f7 < 2
    requires x == f0 + 2 * f1 + 4 * f2 + 8 * f3 + 16 * f4 + 32 * f5 + 64 * f6 + 128 * f7
    ensures x % 2 == f0 && x / 2 % 2 == f1 && x / 4 % 2 == f2 && x / 8 % 2 == f3
    ensures x / 16 % 2 == f4 && x / 32 % 2 == f5 && x / 64 % 2 == f6 && x / 128 % 2 == f7
  {
    DigitAt(x, 1, f1 + 2 * f2 + 4 * f3 + 8 * f4 + 16 * f5 + 32 * f6 + 64 * f7, 0, f0);
    DigitAt(x, 2, f2 + 2 * f3 + 4 * f4 + 8 * f5 + 16 * f6 + 32 * f7, f0, f1);
    DigitAt(x, 4, f3 + 2 * f4 + 4 * f5 + 8 * f6 + 16 * f7, f0 + 2 * f1, f2);
    DigitAt(x, 8, f4 + 2 * f5 + 4 * f6 + 8 * f7, f0 + 2 * f1 + 4 * f2, f3);
    DigitAt(x, 16, f5 + 2 * f6 + 4 * f7, f0 + 2 * f1 + 4 * f2 + 8 * f3, f4);
    DigitAt(x, 32, f6 + 2 * f7, f0 + 2 * f1 + 4 * f2 + 8 * f3 + 16 * f4, f5);
    DigitAt(x, 64, f7, f0 + 2 * f1 + 4 * f2 + 8 * f3 + 16 * f4 + 32 * f5, f6);
    DigitAt(x, 128, 0, f0 + 2 * f1 + 4 * f2 + 8 * f3 + 16 * f4 + 32 * f5 + 64 * f6, f7);
  }

  /** The digit f of x = (f + 2 * rest) * p + low, with low below p, is x / p % 2. */
  lemma DigitAt(x: nat, p: nat, rest: nat, low: nat, f: nat)
    requires p > 0 && f < 2 && low < p && x == (f + 2 * rest) * p + low
    ensures x / p % 2 == f
  {
    DivModUnique(x, p, f + 2 * rest, low);
    DivModUnique(f + 2 * rest, 2, rest, f);
  }

  /** The n low bits of x, bit 0 first. */
  function BitsOf(x: nat, n: nat): (bits: seq<bool>)
    ensures |bits| == n
  {
    seq(n, (k: int) requires 0 <= k => TestBit(x, k))
  }

  /** A value of n bits is the value of its n low bits. */
  lemma {:induction false} ValueOfBits(x: nat, n: nat)
    requires x < Pow2(n)
    ensures BitsValue(BitsOf(x, n)) == x
  {
    if n > 0 {
      var b := BitsOf(x, n);
      assert b[0] == (x % 2 == 1);
      forall k | 0 <= k < n - 1
        ensures b[1..][k] == BitsOf(x / 2, n - 1)[k]
      {
        TestBitHalf(x, k);
      }
      assert b[1..] == BitsOf(x / 2, n - 1);
      ValueOfBits(x / 2, n - 1);
    }
  }

  /** Adding a bit below a doubled value: the remainder modulo 2p keeps the bit. */
  lemma ModDouble(f: nat, y: nat, p: nat)
    requires f < 2 && p > 0
    ensures (f + 2 * y) % (2 * p) == f + 2 * (y % p)
  {
    var q := y / p;
    assert y == p * q + y % p;
    assert f + 2 * y == (2 * p) * q + (f + 2 * (y % p));
    DivModUnique(f + 2 * y, 2 * p, q, f + 2 * (y % p));
  }

  /** The w low bits of a bit string's value are the value of its first w bits. */
  lemma {:induction false} LowBits(bits: seq<bool>, w: nat)
    requires w <= |bits|
    ensures BitsValue(bits) % Pow2(w) == BitsValue(bits[..w])
  {
    if w > 0 {
      LowBits(bits[1..], w - 1);
      assert bits[..w][1..] == bits[1..][..w - 1];
      assert BitsValue(bits[..w]) == Flag(bits[0]) + 2 * BitsValue(bits[1..][..w - 1]);
      ModDouble(Flag(bits[0]), BitsValue(bits[1..]), Pow2(w - 1));
    }
  }

  /** A field of a bit string's value is the value of the matching slice. */
  lemma {:induction false} FieldOfValue(bits: seq<bool>, lo: nat, w: nat)
    requires lo + w <= |bits|
    ensures Field(BitsValue(bits), lo, w) == BitsValue(bits[lo..lo + w])
  {
    if lo == 0 {
      LowBits(bits, w);
      assert bits[0..w] == bits[..w];
    } else {
      var x := BitsValue(bits);
      assert x / 2 == BitsValue(bits[1..]);
      DivHalf(x, lo - 1);
      FieldOfValue(bits[1..], lo - 1, w);
      assert bits[1..][lo - 1..lo - 1 + w] == bits[lo..lo + w];
    }
  }

  /** Bit k of a bit string's value is element k. */
  lemma TestBitOfValue(bits: seq<bool>, k: nat)
    requires k < |bits|
    ensures TestBit(BitsValue(bits), k) == bits[k]
  {
    FieldOfValue(bits, k, 1);
    assert bits[k..k + 1] == [bits[k]];
  }

  /** The bits of a bit string's value are the bit string. */
  lemma BitsOfValue(bits: seq<bool>)
    ensures BitsOf(BitsValue(bits), |bits|) == bits
  {
    forall k | 0 <= k < |bits|
      ensures BitsOf(BitsValue(bits), |bits|)[k] == bits[k]
    {
      TestBitOfValue(bits, k);
    }
  }

  // ---------------------------------------------------------------------------
  // Bit strings, most significant bit first
  // ---------------------------------------------------------------------------

  /** The string read backwards. */
  function Reverse(bits: seq<bool>): (r: seq<bool>)
    ensures |r| == |bits|
  {
    seq(|bits|, (k: int) requires 0 <= k < |bits| => bits[|bits| - 1 - k])
  }

  /**
   * The value a shift register holds after shifting in `bits` one at a time (each new bit
   * entering at the bottom): the bit string read most significant bit first.
   */
  function MsbValue(bits: seq<bool>): (x: nat)
    decreases |bits|
  {
    if bits == [] then 0 else 2 * MsbValue(bits[..|bits| - 1]) + Flag(bits[|bits| - 1])
  }

  /** Bits n - 1 down to 0 of x: `(x >> i) & 1` for i from n - 1 down to 0. */
  function MsbBits(x: nat, n: nat): (bits: seq<bool>)
    ensures |bits| == n
  {
    seq(n, (j: int) requires 0 <= j < n => TestBit(x, n - 1 - j))
  }

  lemma {:induction false} MsbValueReverse(bits: seq<bool>)
    ensures MsbValue(bits) == BitsValue(Reverse(bits))
    decreases |bits|
  {
    if bits != [] {
      var n := |bits|;
      var init := bits[..n - 1];
      MsbValueReverse(init);
      assert Reverse(bits)[1..] == Reverse(init);
    }
  }

  /** Shifting in only clear bits leaves the shift register at zero. */
  lemma {:induction false} MsbValueClear(bits: seq<bool>)
    requires forall k | 0 <= k < |bits| :: !bits[k]
    ensures MsbValue(bits) == 0
    decreases |bits|
  {
    if bits != [] {
      MsbValueClear(bits[..|bits| - 1]);
    }
  }

  /** Shifting in the bits of x from bit n - 1 down gives x back. */
  lemma MsbValueOfBits(x: nat, n: nat)
    requires x < Pow2(n)
    ensures MsbValue(MsbBits(x, n)) == x
  {
    MsbValueReverse(MsbBits(x, n));
    assert Reverse(MsbBits(x, n)) == BitsOf(x, n);
    ValueOfBits(x, n);
  }

  /** A bit string read most significant bit first comes back from its value. */
  lemma MsbBitsOfValue(bits: seq<bool>)
    ensures MsbValue(bits) < Pow2(|bits|)
    ensures MsbBits(MsbValue(bits), |bits|) == bits
  {
    var r := Reverse(bits);
    MsbValueReverse(bits);
    forall j | 0 <= j < |bits|
      ensures MsbBits(MsbValue(bits), |bits|)[j] == bits[j]
    {
      TestBitOfValue(r, |bits| - 1 - j);
    }
  }

  // ---------------------------------------------------------------------------
  // Register layouts
  // ---------------------------------------------------------------------------

  /** A field of a packed register: `width` bits from bit `lo` up. */
  datatype FieldSpec = FieldSpec(lo: nat, width: nat)

  /** The fields of a register, in declaration order. */
  type Layout = seq<FieldSpec>

  /** Two fields share no bit. */
  predicate Apart(f: FieldSpec, g: FieldSpec) {
    f.lo + f.width <= g.lo || g.lo + g.width <= f.lo
  }

  /** Every field lies within bits 0 .. n - 1. */
  predicate Within(l: Layout, n: nat) {
    forall k | 0 <= k < |l| :: l[k].lo + l[k].width <= n
  }

  /** No two fields overlap. */
  predicate Disjoint(l: Layout) {
    forall j, k | 0 <= j < k < |l| :: Apart(l[j], l[k])
  }

  /** A well-formed layout of an n-bit register. */
  predicate WellFormed(l: Layout, n: nat) {
    Within(l, n) && Disjoint(l)
  }

  /** One value per field, each fitting its field's width. */
  predicate Fits(l: Layout, vals: seq<nat>) {
    |vals| == |l| && forall k | 0 <= k < |l| :: vals[k] < Pow2(l[k].width)
  }

  /** Bit i belongs to no field. */
  predicate Unused(l: Layout, i: nat) {
    forall k | 0 <= k < |l| :: Apart(FieldSpec(i, 1), l[k])
  }

  /** The n-bit word x with field f replaced by the low bits of v. */
  function Place(n: nat, x: nat, f: FieldSpec, v: nat): (r: nat)
    requires f.lo + f.width <= n
    ensures r < Pow2(n)
  {
    var b := BitsOf(x, n);
    BitsValue(b[..f.lo] + BitsOf(v, f.width) + b[f.lo + f.width..])
  }

  /** The placed field reads back as the value placed. */
  lemma PlaceHere(n: nat, x: nat, f: FieldSpec, v: nat)
    requires f.lo + f.width <= n && v < Pow2(f.width)
    ensures Field(Place(n, x, f, v), f.lo, f.width) == v
  {
    var b := BitsOf(x, n);
    var s := b[..f.lo] + BitsOf(v, f.width) + b[f.lo + f.width..];
    FieldOfValue(s, f.lo, f.width);
    assert s[f.lo..f.lo + f.width] == BitsOf(v, f.width);
    ValueOfBits(v, f.width);
  }

  /** Splicing m into b at lo leaves every slice of b that misses lo .. lo + |m| - 1 alone. */
  lemma SpliceKeeps(b: seq<bool>, m: seq<bool>, lo: nat, glo: nat, gw: nat)
    requires lo + |m| <= |b| && glo + gw <= |b| && (lo + |m| <= glo || glo + gw <= lo)
    ensures (b[..lo] + m + b[lo + |m|..])[glo..glo + gw] == b[glo..glo + gw]
  {
    var head, tail := b[..lo] + m, b[lo + |m|..];
    if glo + gw <= lo {
      AppendSliceLeft(head, tail, glo, glo + gw);
      AppendSliceLeft(b[..lo], m, glo, glo + gw);
      SliceOfPrefix(b, lo, glo, glo + gw);
    } else {
      var k := lo + |m|;
      AppendSlice(head, tail, glo - k, glo - k + gw);
      SliceOfSuffix(b, k, glo - k, glo - k + gw);
    }
  }

  /** Splicing m into b at lo leaves the value of every field that misses it alone. */
  lemma SpliceFieldKeeps(b: seq<bool>, m: seq<bool>, lo: nat, glo: nat, gw: nat)
    requires lo + |m| <= |b| && glo + gw <= |b| && (lo + |m| <= glo || glo + gw <= lo)
    ensures Field(BitsValue(b[..lo] + m + b[lo + |m|..]), glo, gw) == Field(BitsValue(b), glo, gw)
  {
    var s := b[..lo] + m + b[lo + |m|..];
    FieldOfValue(s, glo, gw);
    SpliceKeeps(b, m, lo, glo, gw);
    FieldOfValue(b, glo, gw);
  }

  /** Every field apart from the placed one keeps its bits. */
  lemma PlaceElsewhere(n: nat, x: nat, f: FieldSpec, g: FieldSpec, v: nat)
    requires f.lo + f.width <= n && g.lo + g.width <= n && x < Pow2(n) && Apart(f, g)
    ensures Field(Place(n, x, f, v), g.lo, g.width) == Field(x, g.lo, g.width)
  {
    var b, m := BitsOf(x, n), BitsOf(v, f.width);
    assert Place(n, x, f, v) == BitsValue(b[..f.lo] + m + b[f.lo + |m|..]);
    SpliceFieldKeeps(b, m, f.lo, g.lo, g.width);
    ValueOfBits(x, n);
  }

  /** `pack`: the fields' values placed into a word that starts clear. */
  function Pack(n: nat, l: Layout, vals: seq<nat>): (x: nat)
    requires Within(l, n) && |vals| == |l|
    ensures x < Pow2(n)
    decreases |l|
  {
    if l == [] then 0 else Place(n, Pack(n, l[1..], vals[1..]), l[0], vals[0])
  }

  /** `unpack`: each field's bits of the word. */
  function Unpack(l: Layout, x: nat): (vals: seq<nat>)
    ensures |vals| == |l|
  {
    seq(|l|, (k: int) requires 0 <= k < |l| => Field(x, l[k].lo, l[k].width))
  }

  /** Every unpacked field value fits its field. */
  lemma UnpackFits(l: Layout, x: nat)
    ensures Fits(l, Unpack(l, x))
  {
  }

  /** Each field of a packed word holds its value. */
  lemma {:induction false} PackFields(n: nat, l: Layout, vals: seq<nat>)
    requires WellFormed(l, n) && Fits(l, vals)
    ensures forall k | 0 <= k < |l| :: Field(Pack(n, l, vals), l[k].lo, l[k].width) == vals[k]
    decreases |l|
  {
    if l != [] {
      var rest := Pack(n, l[1..], vals[1..]);
      assert WellFormed(l[1..], n) && Fits(l[1..], vals[1..]);
      PackFields(n, l[1..], vals[1..]);
      PlaceHere(n, rest, l[0], vals[0]);
      forall k | 1 <= k < |l|
        ensures Field(Pack(n, l, vals), l[k].lo, l[k].width) == vals[k]
      {
        assert l[1..][k - 1] == l[k];
        PlaceElsewhere(n, rest, l[0], l[k], vals[0]);
      }
    }
  }

  /** Unpacking a packed word gives the values back. */
  lemma UnpackOfPack(n: nat, l: Layout, vals: seq<nat>)
    requires WellFormed(l, n) && Fits(l, vals)
    ensures Unpack(l, Pack(n, l, vals)) == vals
  {
    PackFields(n, l, vals);
  }

  /** A bit outside every field of a packed word is clear. */
  lemma {:induction false} PackUnused(n: nat, l: Layout, vals: seq<nat>, i: nat)
    requires Within(l, n) && |vals| == |l| && i < n && Unused(l, i)
    ensures !TestBit(Pack(n, l, vals), i)
    decreases |l|
  {
    if l != [] {
      var rest := Pack(n, l[1..], vals[1..]);
      PackUnused(n, l[1..], vals[1..], i);
      PlaceElsewhere(n, rest, l[0], FieldSpec(i, 1), vals[0]);
    }
  }

  /** Field f shares no bit with any field of l. */
  predicate ApartFromAll(f: FieldSpec, l: Layout) {
    forall k | 0 <= k < |l| :: Apart(f, l[k])
  }

  /** `WellFormed`, field by field: a form Dafny can evaluate on a literal layout. */
  predicate CheckLayout(l: Layout, n: nat)
    decreases |l|
  {
    l == [] || (l[0].lo + l[0].width <= n && ApartFromAll(l[0], l[1..]) && CheckLayout(l[1..], n))
  }

  lemma {:induction false} CheckLayoutSound(l: Layout, n: nat)
    requires CheckLayout(l, n)
    ensures WellFormed(l, n)
    decreases |l|
  {
    if l != [] {
      CheckLayoutSound(l[1..], n);
      forall j, k | 0 <= j < k < |l|
        ensures Apart(l[j], l[k])
      {
        if j > 0 {
          assert l[1..][j - 1] == l[j] && l[1..][k - 1] == l[k];
        } else {
          assert l[1..][k - 1] == l[k];
        }
      }
      forall k | 0 <= k < |l|
        ensures l[k].lo + l[k].width <= n
      {
        if k > 0 {
          assert l[1..][k - 1] == l[k];
        }
      }
    }
  }

  /** A word of n bits is determined by its bits. */
  lemma WordFromBits(x: nat, n: nat, bits: seq<bool>)
    requires x < Pow2(n) && |bits| == n
    requires forall k | 0 <= k < n :: TestBit(x, k) == bits[k]
    ensures x == BitsValue(bits)
  {
    ValueOfBits(x, n);
    assert BitsOf(x, n) == bits;
  }

  /** Bit j of a field is bit lo + j of the word. */
  lemma TestBitOfField(x: nat, n: nat, lo: nat, w: nat, j: nat)
    requires x < Pow2(n) && lo + w <= n && j < w
    ensures TestBit(Field(x, lo, w), j) == TestBit(x, lo + j)
  {
    var b := BitsOf(x, n);
    ValueOfBits(x, n);
    FieldOfValue(b, lo, w);
    TestBitOfValue(b[lo..lo + w], j);
    TestBitOfValue(b, lo + j);
  }

  /** Two n-bit words with the same fields under a layout and the same bits outside them are equal. */
  lemma FieldsDetermineWord(n: nat, l: Layout, x: nat, y: nat)
    requires Within(l, n) && x < Pow2(n) && y < Pow2(n)
    requires Unpack(l, x) == Unpack(l, y)
    requires forall i | 0 <= i < n && Unused(l, i) :: TestBit(x, i) == TestBit(y, i)
    ensures x == y
  {
    forall i | 0 <= i < n
      ensures TestBit(x, i) == TestBit(y, i)
    {
      if !Unused(l, i) {
        var k :| 0 <= k < |l| && !Apart(FieldSpec(i, 1), l[k]);
        assert Unpack(l, x)[k] == Unpack(l, y)[k];
        TestBitOfField(x, n, l[k].lo, l[k].width, i - l[k].lo);
        TestBitOfField(y, n, l[k].lo, l[k].width, i - l[k].lo);
      }
    }
    WordFromBits(x, n, BitsOf(y, n));
    ValueOfBits(y, n);
  }

  /** A word that is hi, then v in w bits, then lo bits below 2^lo holds v in its field of width w at lo. */
  lemma FieldOfSum(x: nat, hi: nat, v: nat, low: nat, lo: nat, w: nat, p: nat, q: nat)
    requires p == Pow2(lo) && q == Pow2(w)
    requires v < q && low < p && x == (hi * q + v) * p + low
    ensures Field(x, lo, w) == v
  {
    var m := hi * q + v;
    assert x == p * m + low;
    DivModUnique(x, p, m, low);
    assert m == q * hi + v;
    DivModUnique(m, q, hi, v);
  }

  /** A word below 2^k has no bit set at k or above. */
  lemma TestBitAbove(x: nat, k: nat, i: nat)
    requires x < Pow2(k) && k <= i
    ensures !TestBit(x, i)
  {
    Pow2Add(k, i - k);
    MulAtLeast(Pow2(k), Pow2(i - k));
    DivModUnique(x, Pow2(i), 0, x);
  }
}
