// The big-endian integer serialisation of casperfpga/src/transport/mod.rs (`Serialize` and
// `Deserialize` for the built-in integer types) and of the older src/transport/mod.rs
// (`read_<int>` and `write_<int>` over `read`, with its length check).
module Serde {
  import opened Wrappers
  import opened Bytes

  /** The integer types given an instance by `ser_num!`/`deser_num!`. */
  datatype IntType = U8 | U16 | U32 | U64 | U128 | I8 | I16 | I32 | I64 | I128

  /** `core::mem::size_of`: the byte width and so the length of the `Chunk` array. */
  function Width(t: IntType): (w: nat)
    ensures 1 <= w <= 16
  {
    match t
    case U8 | I8 => 1
    case U16 | I16 => 2
    case U32 | I32 => 4
    case U64 | I64 => 8
    case U128 | I128 => 16
  }

  predicate Signed(t: IntType) {
    t.I8? || t.I16? || t.I32? || t.I64? || t.I128?
  }

  /** The values of type t. */
  predicate InRange(t: IntType, x: int) {
    if Signed(t) then -Half(Width(t)) <= x < Half(Width(t)) else 0 <= x < Pow256(Width(t))
  }

  /** `serialize`, which is `to_be_bytes`: two's complement for the signed types. */
  function Serialize(t: IntType, x: int): (chunk: bytes)
    requires InRange(t, x)
    ensures |chunk| == Width(t)
  {
    BeBytes(if Signed(t) then SignedToRaw(x, Width(t)) else x, Width(t))
  }

  /** `deserialize`, which is `from_be_bytes`: it accepts every chunk of the right width. */
  function Deserialize(t: IntType, chunk: bytes): (x: int)
    requires |chunk| == Width(t)
    ensures InRange(t, x)
  {
    if Signed(t) then RawToSigned(FromBe(chunk), Width(t)) else FromBe(chunk)
  }

  lemma RawRoundTrip(u: nat, w: nat)
    requires w > 0 && u < Pow256(w)
    ensures SignedToRaw(RawToSigned(u, w), w) == u
  {
  }

  /** `deserialize(serialize(x)) == x` for every integer type. */
  lemma DeserializeSerialize(t: IntType, x: int)
    requires InRange(t, x)
    ensures Deserialize(t, Serialize(t, x)) == x
  {
    var w := Width(t);
    if Signed(t) {
      FromBeBeBytes(SignedToRaw(x, w), w);
      SignedRoundTrip(x, w);
    } else {
      FromBeBeBytes(x, w);
    }
  }

  /** `serialize(deserialize(c)) == c`: every chunk is the encoding of exactly one value. */
  lemma SerializeDeserialize(t: IntType, chunk: bytes)
    requires |chunk| == Width(t)
    ensures Serialize(t, Deserialize(t, chunk)) == chunk
  {
    var w := Width(t);
    BeBytesFromBe(chunk);
    if Signed(t) {
      RawRoundTrip(FromBe(chunk), w);
    }
  }

  /** Most significant byte first: 0xDEAD_BEEF as a u32 is DE AD BE EF, and -42 as an i8 is D6. */
  lemma SerializeVectors()
    ensures Serialize(U32, 0xDEAD_BEEF) == [0xDE, 0xAD, 0xBE, 0xEF]
    ensures Serialize(I8, -42) == [0xD6]
  {
    assert Pow256(4) == 0x1_0000_0000;
  }

  // ---------------------------------------------------------------------------
  // The older crate's transport defaults (src/transport/mod.rs)
  // ---------------------------------------------------------------------------

  /** What the older `read::<N>` reports beyond the transport's own errors. */
  datatype ReadError<E> = Transport(cause: E) | SizeMismatch(asked: nat, received: nat)

  /**
   * `read::<N>`: the `read_vec` reply for N bytes, accepted only if it holds exactly N bytes
   * (the `try_into` of a slice into `[u8; N]`).
   */
  function ReadArray<E>(reply: Result<bytes, E>, n: nat): (r: Result<bytes, ReadError<E>>)
    ensures r.Ok? <==> reply.Ok? && |reply.value| == n
    ensures r.Ok? ==> r.value == reply.value
    ensures reply.Err? ==> r == Err(Transport(reply.error))
    ensures reply.Ok? && |reply.value| != n ==> r == Err(SizeMismatch(n, |reply.value|))
  {
    match reply
    case Err(e) => Err(Transport(e))
    case Ok(b) => if |b| == n then Ok(b) else Err(SizeMismatch(n, |b|))
  }

  /** `read_<int>`: `from_be_bytes` of `read::<size_of::<int>()>`. */
  function ReadNum<E>(t: IntType, reply: Result<bytes, E>): (r: Result<int, ReadError<E>>)
    ensures r.Ok? <==> reply.Ok? && |reply.value| == Width(t)
    ensures r.Ok? ==> InRange(t, r.value) && Serialize(t, r.value) == reply.value
  {
    var chunk :- ReadArray(reply, Width(t));
    SerializeDeserialize(t, chunk);
    Ok(Deserialize(t, chunk))
  }

  /** `write_<int>` hands `to_be_bytes` to `write`; over a `read_vec` that returns what was written, `read_<int>` gives the number back. */
  lemma WriteNumReadNum<E>(t: IntType, x: int)
    requires InRange(t, x)
    ensures ReadNum<E>(t, Ok(Serialize(t, x))) == Ok(x)
  {
    DeserializeSerialize(t, x);
  }
}
