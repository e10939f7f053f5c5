// The BRAM yellow block of casperfpga/src/yellow_blocks/bram.rs: `size` words of N bytes,
// read and written whole as big-endian words at offset 0, or one word at a time. A word of the
// fixed-point type is its raw N-byte pattern, as an integer type of the same width and
// signedness.
module Bram {
  import opened Wrappers
  import opened Bytes
  import opened Serde
  import opened MockTransport

  /** `bram::Error`, plus `Panic` for the shift `1 << addr_width` overflowing a 64-bit `usize`. */
  datatype BramError = Transport(cause: MockError) | OutOfBounds | BadSize | BadAddrWidth | Panic

  /** A `Bram`: its name, its size in words, and the word type. */
  datatype BramBlock = BramBlock(name: bytes, size: nat, word: IntType)

  /** `from_fpg`: the size is `1 << addr_width`. */
  function FromFpg(name: bytes, addrWidth: bytes, word: IntType): (r: Result<BramBlock, BramError>)
    ensures r.Ok? <==> ParseUnsigned(addrWidth, USIZE_MAX).Some? && ParseUnsigned(addrWidth, USIZE_MAX).value < 64
    ensures r.Ok? ==> r.value == BramBlock(name, Pow2(ParseUnsigned(addrWidth, USIZE_MAX).value), word)
    ensures ParseUnsigned(addrWidth, USIZE_MAX).None? ==> r == Err(BadAddrWidth)
  {
    match ParseUnsigned(addrWidth, USIZE_MAX)
    case None => Err(BadAddrWidth)
    case Some(w) => if w < 64 then Ok(BramBlock(name, Pow2(w), word)) else Err(Panic)
  }

  /** `flat_map(to_be_bytes)`: the words laid out one after another. */
  function Flatten(t: IntType, data: seq<int>): bytes
    requires forall i | 0 <= i < |data| :: Serde.InRange(t, data[i])
  {
    if data == [] then [] else Serialize(t, data[0]) + Flatten(t, data[1..])
  }

  /**
   * `chunks(N).map(from_be_bytes)`: the words of consecutive N-byte chunks. `read` only ever
   * chunks `size * N` bytes, so there is no short final chunk for `try_into` to reject.
   */
  function Words(t: IntType, v: bytes): (r: seq<int>)
    ensures forall i | 0 <= i < |r| :: Serde.InRange(t, r[i])
    decreases |v|
  {
    var w := Width(t);
    if |v| < w then [] else [Deserialize(t, v[..w])] + Words(t, v[w..])
  }

  /** Word-sized steps: word i ends where word i + 1 starts, inside n words when i < n. */
  lemma WidthMul(t: IntType, n: nat, i: nat)
    ensures 0 <= i * Width(t) && i * Width(t) + Width(t) == (i + 1) * Width(t)
    ensures i < n ==> (i + 1) * Width(t) <= n * Width(t)
  {
    match t
    case U8 | I8 =>
    case U16 | I16 =>
    case U32 | I32 =>
    case U64 | I64 =>
    case U128 | I128 =>
  }

  /** Byte lengths of whole words determine the number of words. */
  lemma WidthCancel(t: IntType, a: nat, b: nat)
    ensures a * Width(t) == b * Width(t) ==> a == b
  {
    match t
    case U8 | I8 =>
    case U16 | I16 =>
    case U32 | I32 =>
    case U64 | I64 =>
    case U128 | I128 =>
  }

  /** n words take n * N bytes. */
  lemma {:induction false} FlattenLength(t: IntType, data: seq<int>)
    requires forall i | 0 <= i < |data| :: Serde.InRange(t, data[i])
    ensures |Flatten(t, data)| == |data| * Width(t)
    decreases |data|
  {
    if data != [] {
      FlattenLength(t, data[1..]);
      WidthMul(t, |data|, |data| - 1);
    }
  }

  /** n * N bytes give n words. */
  lemma {:induction false} WordsLength(t: IntType, v: bytes, n: nat)
    requires |v| == n * Width(t)
    ensures |Words(t, v)| == n
    decreases n
  {
    if n > 0 {
      WidthMul(t, n, n - 1);
      WordsLength(t, v[Width(t)..], n - 1);
    }
  }

  /** Word i of the layout, at byte offset `lo == i * N`, is the encoding of word i. */
  lemma {:induction false} FlattenAt(t: IntType, data: seq<int>, i: nat, lo: nat)
    requires forall j | 0 <= j < |data| :: Serde.InRange(t, data[j])
    requires i < |data| && lo == i * Width(t)
    ensures lo + Width(t) <= |Flatten(t, data)|
    ensures Flatten(t, data)[lo..lo + Width(t)] == Serialize(t, data[i])
    decreases i
  {
    assert lo + Width(t) <= |Flatten(t, data)| by {
      FlattenLength(t, data);
      WidthMul(t, |data|, i);
    }
    if i == 0 {
      AppendTake(Serialize(t, data[0]), Flatten(t, data[1..]));
    } else {
      var pre := lo - Width(t);
      assert Width(t) <= lo && pre == (i - 1) * Width(t) by {
        WidthMul(t, |data|, i - 1);
      }
      FlattenAt(t, data[1..], i - 1, pre);
      assert data[1..][i - 1] == data[i];
      FlattenShift(t, data, pre, lo, data[i]);
    }
  }

  /** A word at offset pre in the layout of the words after the first is at offset pre + N in the whole layout. */
  lemma FlattenShift(t: IntType, data: seq<int>, pre: nat, lo: nat, x: int)
    requires forall j | 0 <= j < |data| :: Serde.InRange(t, data[j])
    requires data != [] && lo == Width(t) + pre && Serde.InRange(t, x)
    requires var rest := Flatten(t, data[1..]);
      pre + Width(t) <= |rest| && rest[pre..pre + Width(t)] == Serialize(t, x)
    ensures lo + Width(t) <= |Flatten(t, data)|
    ensures Flatten(t, data)[lo..lo + Width(t)] == Serialize(t, x)
  {
    var w := Width(t);
    AppendSliceAt(Serialize(t, data[0]), Flatten(t, data[1..]), w, lo, lo + w, pre, pre + w);
  }

  /** Laying words out and chunking them back gives the same words. */
  lemma {:induction false} WordsFlatten(t: IntType, data: seq<int>)
    requires forall i | 0 <= i < |data| :: Serde.InRange(t, data[i])
    ensures Words(t, Flatten(t, data)) == data
    decreases |data|
  {
    if data != [] {
      var head := Serialize(t, data[0]);
      var rest := Flatten(t, data[1..]);
      assert Flatten(t, data) == head + rest;
      WordsCons(t, head, rest);
      DeserializeSerialize(t, data[0]);
      WordsFlatten(t, data[1..]);
      assert data == [data[0]] + data[1..];
    }
  }

  /** Laying out a word and then the rest. */
  lemma FlattenCons(t: IntType, x: int, data: seq<int>)
    requires Serde.InRange(t, x) && forall i | 0 <= i < |data| :: Serde.InRange(t, data[i])
    ensures Flatten(t, [x] + data) == Serialize(t, x) + Flatten(t, data)
  {
    assert ([x] + data)[1..] == data;
  }

  /** Chunking one word off the front. */
  lemma WordsCons(t: IntType, head: bytes, tail: bytes)
    requires |head| == Width(t)
    ensures Words(t, head + tail) == [Deserialize(t, head)] + Words(t, tail)
  {
    var v := head + tail;
    assert v[..Width(t)] == head && v[Width(t)..] == tail;
  }

  /** One word chunked off the front and laid out again. */
  lemma FlattenWordsStep(t: IntType, head: bytes, tail: bytes)
    requires |head| == Width(t) && Flatten(t, Words(t, tail)) == tail
    ensures Flatten(t, Words(t, head + tail)) == head + tail
  {
    WordsCons(t, head, tail);
    FlattenCons(t, Deserialize(t, head), Words(t, tail));
    SerializeDeserialize(t, head);
  }

  /** Chunking n * N bytes into words and laying them out again gives the same bytes. */
  lemma {:induction false} FlattenWords(t: IntType, v: bytes, n: nat)
    requires |v| == n * Width(t)
    ensures Flatten(t, Words(t, v)) == v
    decreases n
  {
    if n == 0 {
      assert v == [];
    } else {
      assert |v[Width(t)..]| == (n - 1) * Width(t) by {
        WidthMul(t, n, n - 1);
      }
      FlattenWords(t, v[Width(t)..], n - 1);
      FlattenWordsStep(t, v[..Width(t)], v[Width(t)..]);
      TakeDrop(v, Width(t));
    }
  }

  /** `read_addr` as written: bounds-check the word index, then read a word at byte offset `addr`. */
  method ReadAddr(b: BramBlock, transport: Mock, addr: nat) returns (r: Result<int, BramError>)
    ensures addr >= b.size ==> r == Err(BramError.OutOfBounds)
    ensures addr < b.size ==> var v := ReadSpec(transport.memory, transport.registers, b.name, addr, Width(b.word));
      (v.Ok? ==> r == Ok(Deserialize(b.word, v.value))) && (v.Err? ==> r == Err(BramError.Transport(v.error)))
  {
    if addr >= b.size {
      return Err(BramError.OutOfBounds);
    }
    var v := transport.Read(b.word, b.name, addr);
    if v.Err? {
      return Err(BramError.Transport(v.error));
    }
    return Ok(v.value);
  }

  /** `read_addr` reading word `addr` at byte offset `addr * N`. */
  method ReadWord(b: BramBlock, transport: Mock, addr: nat) returns (r: Result<int, BramError>)
    ensures addr >= b.size ==> r == Err(BramError.OutOfBounds)
    ensures addr < b.size ==> var v := ReadSpec(transport.memory, transport.registers, b.name, addr * Width(b.word), Width(b.word));
      (v.Ok? ==> r == Ok(Deserialize(b.word, v.value))) && (v.Err? ==> r == Err(BramError.Transport(v.error)))
  {
    if addr >= b.size {
      return Err(BramError.OutOfBounds);
    }
    var v := transport.Read(b.word, b.name, addr * Width(b.word));
    if v.Err? {
      return Err(BramError.Transport(v.error));
    }
    return Ok(v.value);
  }

  /** `read`: all `size * N` bytes from offset 0, as `size` words in order. */
  method Read(b: BramBlock, transport: Mock) returns (r: Result<seq<int>, BramError>)
    ensures var v := ReadSpec(transport.memory, transport.registers, b.name, 0, b.size * Width(b.word));
      (v.Ok? ==> r == Ok(Words(b.word, v.value)) && |r.value| == b.size) &&
      (v.Err? ==> r == Err(BramError.Transport(v.error)))
  {
    var v := transport.ReadNBytes(b.name, 0, b.size * Width(b.word));
    if v.Err? {
      return Err(BramError.Transport(v.error));
    }
    WordsLength(b.word, v.value, b.size);
    return Ok(Words(b.word, v.value));
  }

  /** `write`: lay the words out; refuse with `BadSize`, writing nothing, unless that is `size * N` bytes. */
  method Write(b: BramBlock, transport: Mock, data: seq<int>) returns (r: Result<(), BramError>)
    requires forall i | 0 <= i < |data| :: Serde.InRange(b.word, data[i])
    modifies transport
    ensures |data| != b.size ==> r == Err(BadSize) && unchanged(transport)
    ensures |data| == b.size ==>
      var w := WriteSpec(old(transport.memory), transport.registers, b.name, 0, Flatten(b.word, data));
      transport.registers == old(transport.registers) &&
      transport.writes == old(transport.writes) + [Access(b.name, 0, Flatten(b.word, data))] &&
      (w.Ok? ==> r == Ok(()) && transport.memory == w.value) &&
      (w.Err? ==> r == Err(BramError.Transport(w.error)) && transport.memory == old(transport.memory))
  {
    var v := Flatten(b.word, data);
    FlattenLength(b.word, data);
    WidthCancel(b.word, |data|, b.size);
    if |v| != b.size * Width(b.word) {
      return Err(BadSize);
    }
    var w := transport.WriteBytes(b.name, 0, v);
    if w.Err? {
      return Err(BramError.Transport(w.error));
    }
    return Ok(());
  }

  /** `write_addr`: no bounds check; one word at byte offset `addr`. */
  method WriteAddr(b: BramBlock, transport: Mock, addr: nat, x: int) returns (r: Result<(), BramError>)
    requires Serde.InRange(b.word, x)
    modifies transport
    ensures var w := WriteSpec(old(transport.memory), transport.registers, b.name, addr, Serialize(b.word, x));
      transport.registers == old(transport.registers) &&
      transport.writes == old(transport.writes) + [Access(b.name, addr, Serialize(b.word, x))] &&
      (w.Ok? ==> r == Ok(()) && transport.memory == w.value) &&
      (w.Err? ==> r == Err(BramError.Transport(w.error)) && transport.memory == old(transport.memory))
  {
    var w := transport.Write(b.word, b.name, addr, x);
    if w.Err? {
      return Err(BramError.Transport(w.error));
    }
    return Ok(());
  }

  // ---------------------------------------------------------------------------
  // Reading back
  // ---------------------------------------------------------------------------

  /** `write` then `read` returns the written words. */
  lemma WriteThenReadAll(memory: map<nat, byte>, registers: map<bytes, Core.Register>, b: BramBlock, data: seq<int>)
    requires forall i | 0 <= i < |data| :: Serde.InRange(b.word, data[i])
    requires |data| == b.size
    requires WriteSpec(memory, registers, b.name, 0, Flatten(b.word, data)).Ok?
    ensures var m := WriteSpec(memory, registers, b.name, 0, Flatten(b.word, data)).value;
      var v := ReadSpec(m, registers, b.name, 0, b.size * Width(b.word));
      v.Ok? && Words(b.word, v.value) == data
  {
    FlattenLength(b.word, data);
    WriteThenRead(memory, registers, b.name, 0, Flatten(b.word, data));
    WordsFlatten(b.word, data);
  }

  /** A chunk of what was written at offset 0 reads back as that chunk. */
  lemma ReadChunk(memory: map<nat, byte>, registers: map<bytes, Core.Register>, name: bytes, v: bytes,
                  lo: nat, w: nat, chunk: bytes)
    requires WriteSpec(memory, registers, name, 0, v).Ok?
    requires lo + w <= |v| && v[lo..lo + w] == chunk
    ensures ReadSpec(WriteSpec(memory, registers, name, 0, v).value, registers, name, lo, w) == Ok(chunk)
  {
    ReadWithinWrite(memory, registers, name, 0, v, lo, w);
  }

  /** After `write`, word i read at byte offset `i * N` is `data[i]`. */
  lemma WriteThenReadWord(memory: map<nat, byte>, registers: map<bytes, Core.Register>, b: BramBlock, data: seq<int>, i: nat)
    requires forall j | 0 <= j < |data| :: Serde.InRange(b.word, data[j])
    requires i < |data|
    requires WriteSpec(memory, registers, b.name, 0, Flatten(b.word, data)).Ok?
    ensures var m := WriteSpec(memory, registers, b.name, 0, Flatten(b.word, data)).value;
      var v := ReadSpec(m, registers, b.name, i * Width(b.word), Width(b.word));
      v.Ok? && Deserialize(b.word, v.value) == data[i]
  {
    var lo := i * Width(b.word);
    assert 0 <= lo by {
      WidthMul(b.word, |data|, i);
    }
    ReadFlattenedAt(memory, registers, b.name, b.word, data, i, lo);
  }

  /** Word i of a written layout, read at its byte offset lo, is `data[i]`. */
  lemma ReadFlattenedAt(memory: map<nat, byte>, registers: map<bytes, Core.Register>, name: bytes, t: IntType,
                        data: seq<int>, i: nat, lo: nat)
    requires forall j | 0 <= j < |data| :: Serde.InRange(t, data[j])
    requires i < |data| && lo == i * Width(t)
    requires WriteSpec(memory, registers, name, 0, Flatten(t, data)).Ok?
    ensures var r := ReadSpec(WriteSpec(memory, registers, name, 0, Flatten(t, data)).value, registers, name, lo, Width(t));
      r.Ok? && Deserialize(t, r.value) == data[i]
  {
    FlattenAt(t, data, i, lo);
    ReadSerialized(memory, registers, name, t, Flatten(t, data), lo, data[i]);
  }

  /** The serialization of x written at lo reads back as x. */
  lemma ReadSerialized(memory: map<nat, byte>, registers: map<bytes, Core.Register>, name: bytes, t: IntType,
                       v: bytes, lo: nat, x: int)
    requires Serde.InRange(t, x) && WriteSpec(memory, registers, name, 0, v).Ok?
    requires lo + Width(t) <= |v| && v[lo..lo + Width(t)] == Serialize(t, x)
    ensures var r := ReadSpec(WriteSpec(memory, registers, name, 0, v).value, registers, name, lo, Width(t));
      r.Ok? && Deserialize(t, r.value) == x
  {
    ReadChunk(memory, registers, name, v, lo, Width(t), Serialize(t, x));
    DeserializeSerialize(t, x);
  }

  /** "bram" */
  const BRAM: bytes := [98, 114, 97, 109]

  /** Two `u32` words laid out: 0x01020304, 0x05060708 are the bytes 1 to 8 in order. */
  lemma TwoWordLayout()
    ensures Serde.InRange(U32, 0x01020304) && Serde.InRange(U32, 0x05060708)
    ensures Flatten(U32, TWO_WORDS) == [1, 2, 3, 4, 5, 6, 7, 8]
  {
    var data := TWO_WORDS;
    assert Pow256(4) == 0x1_0000_0000;
    assert Serialize(U32, 0x01020304) == [1, 2, 3, 4];
    assert Serialize(U32, 0x05060708) == [5, 6, 7, 8];
    assert data[1..] == [0x05060708];
    assert data[1..][1..] == [];
  }

  /** The bytes 2, 3, 4, 5 as a `u32`. */
  lemma StraddlingWord()
    ensures Deserialize(U32, [2, 3, 4, 5]) == 0x02030405
  {
    assert [2, 3, 4, 5][..3] == [2, 3, 4] && [2, 3, 4][..2] == [2, 3] && [2, 3][..1] == [2] && [2][..0] == [];
  }

  /** A two-word `u32` BRAM named "bram", mapped at address 0. */
  const TWO_WORD_BRAM: BramBlock := BramBlock(BRAM, 2, U32)
  const TWO_WORD_REGISTERS: map<bytes, Core.Register> := map[BRAM := Core.Register(0, 8)]
  /** The words 0x01020304 and 0x05060708. */
  const TWO_WORDS: seq<int> := [0x01020304, 0x05060708]

  /**
   * The word index as a byte offset: a two-word `u32` BRAM written with 0x01020304, 0x05060708
   * reads 0x02030405 at `read_addr(1)`, straddling both words, not 0x05060708, whatever the
   * memory held before.
   */
  lemma ReadAddrStraddles(memory: map<nat, byte>)
    ensures 1 < TWO_WORD_BRAM.size && |TWO_WORDS| == TWO_WORD_BRAM.size
    ensures forall i | 0 <= i < |TWO_WORDS| :: Serde.InRange(U32, TWO_WORDS[i])
    ensures WriteSpec(memory, TWO_WORD_REGISTERS, BRAM, 0, Flatten(U32, TWO_WORDS)).Ok?
    ensures ReadSpec(WriteSpec(memory, TWO_WORD_REGISTERS, BRAM, 0, Flatten(U32, TWO_WORDS)).value,
      TWO_WORD_REGISTERS, BRAM, 1, 4) == Ok([0x02, 0x03, 0x04, 0x05])
    ensures Deserialize(U32, [0x02, 0x03, 0x04, 0x05]) == 0x02030405 != TWO_WORDS[1]
  {
    TwoWordLayout();
    StraddlingWord();
    var v: bytes := [1, 2, 3, 4, 5, 6, 7, 8];
    assert v[1..5] == [2, 3, 4, 5];
    ReadChunk(memory, TWO_WORD_REGISTERS, BRAM, v, 1, 4, [2, 3, 4, 5]);
  }
}
