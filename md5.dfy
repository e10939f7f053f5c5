// `FpgaDesign::md5_string` of casper_utils/src/design_sources/mod.rs: the text form of a
// design's 16-byte MD5 digest, built by formatting every byte with `{:x}` and concatenating.
module Md5 {
  import opened Bytes

  /** `md5().iter().map(|&v| format!("{v:x}")).collect()`: no zero padding per byte. */
  function Md5String(md5: bytes): bytes
  {
    if md5 == [] then [] else Md5String(md5[..|md5| - 1]) + LowerHex(md5[|md5| - 1])
  }

  /** Every byte contributes one or two lowercase hex digits. */
  lemma {:induction false} Md5StringLength(md5: bytes)
    ensures |md5| <= |Md5String(md5)| <= 2 * |md5|
    ensures forall i | 0 <= i < |Md5String(md5)| :: IsLowerHexDigit(Md5String(md5)[i])
  {
    if md5 != [] {
      Md5StringLength(md5[..|md5| - 1]);
      LowerHexLength(md5[|md5| - 1]);
    }
  }

  /** For the 16 bytes of a digest, the text has between 16 and 32 digits. */
  lemma DigestStringLength(md5: bytes)
    requires |md5| == 16
    ensures 16 <= |Md5String(md5)| <= 32
  {
    Md5StringLength(md5);
  }

  /** Formatting distributes over concatenation of the digest bytes. */
  lemma {:induction false} Md5StringConcat(a: bytes, b: bytes)
    ensures Md5String(a + b) == Md5String(a) + Md5String(b)
  {
    if b == [] {
      assert a + b == a;
    } else {
      assert (a + b)[..|a + b| - 1] == a + b[..|b| - 1];
      Md5StringConcat(a, b[..|b| - 1]);
    }
  }

  /** A digest byte below 0x10 gives a single digit, e.g. 0x0f gives "f". */
  lemma SmallByteOneDigit(b: byte)
    requires b < 16
    ensures Md5String([b]) == [LowerHexDigit(b)]
  {
    assert [b][..0] == [];
  }

  /** Fourteen zero bytes. */
  const ZEROS: bytes := [0, 0, 0, 0, 0, 0, 0, 0, 0, 0, 0, 0, 0, 0]

  lemma PairStrings()
    ensures Md5String([0x01, 0x23]) == [49, 50, 51]
    ensures Md5String([0x12, 0x03]) == [49, 50, 51]
  {
    assert [0x01, 0x23][..1] == [0x01];
    assert [0x12, 0x03][..1] == [0x12];
    SmallByteOneDigit(0x01);
    SmallByteOneDigit(0x03);
    assert LowerHex(0x23) == [50, 51];
    assert LowerHex(0x12) == [49, 50];
  }

  /**
   * Two different 16-byte digests, 01 23 00 .. 00 and 12 03 00 .. 00, have the same
   * `md5_string`, "123" followed by fourteen "0": the text does not identify the digest.
   */
  lemma Md5StringCollision()
    ensures |[0x01, 0x23] + ZEROS| == 16 && |[0x12, 0x03] + ZEROS| == 16
    ensures [0x01, 0x23] + ZEROS != [0x12, 0x03] + ZEROS
    ensures Md5String([0x01, 0x23] + ZEROS) == Md5String([0x12, 0x03] + ZEROS)
  {
    assert ([0x01, 0x23] + ZEROS)[0] != ([0x12, 0x03] + ZEROS)[0];
    PairStrings();
    Md5StringConcat([0x01, 0x23], ZEROS);
    Md5StringConcat([0x12, 0x03], ZEROS);
  }

  /** The two lowercase digits of `{:02x}`. */
  function Hex2(b: byte): (r: bytes)
    ensures |r| == 2 && IsLowerHexDigit(r[0]) && IsLowerHexDigit(r[1])
    ensures HexDigitValue(r[0]) * 16 + HexDigitValue(r[1]) == b
  {
    [LowerHexDigit(b / 16), LowerHexDigit(b % 16)]
  }

  /** The conventional digest text, `format!("{v:02x}")` per byte: two digits per byte. */
  function Md5Hex(md5: bytes): (r: bytes)
    ensures |r| == 2 * |md5|
    ensures forall i | 0 <= i < |md5| :: r[2 * i..2 * i + 2] == Hex2(md5[i])
  {
    if md5 == [] then []
    else
      var r := Md5Hex(md5[..|md5| - 1]) + Hex2(md5[|md5| - 1]);
      assert forall i | 0 <= i < |md5| - 1 :: r[2 * i..2 * i + 2] == Md5Hex(md5[..|md5| - 1])[2 * i..2 * i + 2];
      r
  }

  /** Reading the two digits at position 2i back gives byte i: so two digests with the same text are equal. */
  lemma Md5HexInjective(a: bytes, b: bytes)
    requires Md5Hex(a) == Md5Hex(b)
    ensures a == b
  {
    assert |a| == |b|;
    forall i | 0 <= i < |a|
      ensures a[i] == b[i]
    {
      assert Hex2(a[i]) == Md5Hex(a)[2 * i..2 * i + 2];
      assert Hex2(b[i]) == Md5Hex(b)[2 * i..2 * i + 2];
    }
  }

  /** Where every byte is at least 0x10 the two texts agree. */
  lemma {:induction false} Md5HexAgrees(md5: bytes)
    requires forall i | 0 <= i < |md5| :: md5[i] >= 16
    ensures Md5Hex(md5) == Md5String(md5)
  {
    if md5 != [] {
      var b := md5[|md5| - 1];
      Md5HexAgrees(md5[..|md5| - 1]);
      assert LowerHex(b) == LowerHex(b / 16) + [LowerHexDigit(b % 16)];
      assert LowerHex(b / 16) == [LowerHexDigit(b / 16)];
    }
  }
}
