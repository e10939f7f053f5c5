// The `Mock` transport of casperfpga/src/transport/mock.rs: a sparse byte memory filled with
// zeros for every register it is given, read and written through the register table. The
// older src/transport/mock.rs is the same structure with the same loops; its
// `read_bytes::<N>` is `ReadNBytes` with n = N.
module MockTransport {
  import opened Wrappers
  import opened Bytes
  import opened Serde
  import opened Core

  /**
   * The mock's failures: "Device not found", "Out of bounds indexing", "Attempting to write to
   * a nonexistent address", and the panic of the `usize` subtraction `length - offset` when
   * `offset > length` (a debug build's "attempt to subtract with overflow").
   */
  datatype MockError = DeviceNotFound | OutOfBounds | NonexistentAddress | Underflow

  predicate Covers(r: Register, a: nat) {
    r.addr <= a < r.addr + r.length
  }

  /** Some register of the table holds address a. */
  ghost predicate Mapped(registers: map<bytes, Register>, a: nat) {
    exists name | name in registers :: Covers(registers[name], a)
  }

  /** The addresses of one register. */
  function Range(r: Register): set<nat> {
    set a: nat | r.addr <= a < r.addr + r.length && Covers(r, a)
  }

  function Covered(registers: map<bytes, Register>): set<nat> {
    set name, a | name in registers && a in Range(registers[name]) :: a
  }

  /** The memory `new` builds: a zero at every address of every register, and nothing else. */
  function ZeroFilled(registers: map<bytes, Register>): (m: map<nat, byte>)
    ensures forall a: nat :: a in m <==> Mapped(registers, a)
    ensures forall a | a in m :: m[a] == 0
  {
    CoveredIsMapped(registers);
    map a | a in Covered(registers) :: 0
  }

  lemma CoveredIsMapped(registers: map<bytes, Register>)
    ensures forall a: nat :: a in Covered(registers) <==> Mapped(registers, a)
  {
    forall a: nat | Mapped(registers, a)
      ensures a in Covered(registers)
    {
      var name :| name in registers && Covers(registers[name], a);
      assert a in Range(registers[name]);
    }
  }

  /** The addresses start .. start + n - 1 are all in memory. */
  predicate Present(memory: map<nat, byte>, start: nat, n: nat) {
    forall a: nat | start <= a < start + n :: a in memory
  }

  /** The n bytes from address start on. */
  function Slice(memory: map<nat, byte>, start: nat, n: nat): (r: bytes)
    requires Present(memory, start, n)
    ensures |r| == n && forall k | 0 <= k < n :: r[k] == memory[start + k]
  {
    if n == 0 then [] else Slice(memory, start, n - 1) + [memory[start + (n - 1)]]
  }

  /** What `read_n_bytes(device, offset, n)` returns. */
  function ReadSpec(memory: map<nat, byte>, registers: map<bytes, Register>, device: bytes, offset: nat, n: nat)
    : (r: Result<bytes, MockError>)
    ensures r.Ok? <==> device in registers && Present(memory, registers[device].addr + offset, n)
    ensures r.Ok? ==> |r.value| == n
    ensures r.Ok? ==> forall k | 0 <= k < n :: r.value[k] == memory[registers[device].addr + offset + k]
    ensures r.Err? ==> r.error == (if device in registers then OutOfBounds else DeviceNotFound)
  {
    if device !in registers then Err(DeviceNotFound)
    else if !Present(memory, registers[device].addr + offset, n) then Err(OutOfBounds)
    else Ok(Slice(memory, registers[device].addr + offset, n))
  }

  /** Memory with the bytes of `data` stored at base on. */
  function Overwrite(memory: map<nat, byte>, base: nat, data: bytes): (r: map<nat, byte>)
    ensures forall a :: a in r <==> a in memory || base <= a < base + |data|
    ensures forall a | a in r && base <= a < base + |data| :: r[a] == data[a - base]
    ensures forall a | a in r && !(base <= a < base + |data|) :: r[a] == memory[a]
  {
    if data == [] then memory
    else Overwrite(memory, base, data[..|data| - 1])[base + (|data| - 1) := data[|data| - 1]]
  }

  /**
   * What `write_bytes(device, offset, data)` does to memory: it fails unless the device exists
   * and `data` fits between `offset` and the device's length; otherwise it stores `data` at
   * `addr + offset` and changes no other address.
   */
  function WriteSpec(memory: map<nat, byte>, registers: map<bytes, Register>, device: bytes, offset: nat, data: bytes)
    : (r: Result<map<nat, byte>, MockError>)
    ensures r.Ok? <==> device in registers && offset + |data| <= registers[device].length
    ensures r.Ok? ==> r.value == Overwrite(memory, registers[device].addr + offset, data)
    ensures device !in registers ==> r == Err(DeviceNotFound)
    ensures device in registers && offset > registers[device].length ==> r == Err(Underflow)
    ensures device in registers && offset <= registers[device].length < offset + |data| ==> r == Err(NonexistentAddress)
  {
    if device !in registers then Err(DeviceNotFound)
    else
      var dev := registers[device];
      if offset > dev.length then Err(Underflow)
      else if dev.length - offset < |data| then Err(NonexistentAddress)
      else Ok(Overwrite(memory, dev.addr + offset, data))
  }

  /** One more byte of `data` stored. */
  lemma OverwriteStep(memory: map<nat, byte>, base: nat, data: bytes, i: nat)
    requires i < |data|
    ensures Overwrite(memory, base, data[..i + 1]) == Overwrite(memory, base, data[..i])[base + i := data[i]]
  {
    assert data[..i + 1][..i] == data[..i];
  }

  /** The loop of `write_bytes`: insert byte i of `data` at `base + i`, for each i in turn. */
  method Store(memory: map<nat, byte>, base: nat, data: bytes) returns (m: map<nat, byte>)
    ensures m == Overwrite(memory, base, data)
  {
    m := memory;
    var i := 0;
    while i < |data|
      invariant 0 <= i <= |data|
      invariant m == Overwrite(memory, base, data[..i])
    {
      OverwriteStep(memory, base, data, i);
      m := m[base + i := data[i]];
      i := i + 1;
    }
    assert data[..|data|] == data;
  }

  /** The inner loop of `new`: a zero at every address of one register. */
  method ZeroRange(memory: map<nat, byte>, r: Register) returns (m: map<nat, byte>)
    ensures forall a: nat :: a in m <==> a in memory || Covers(r, a)
    ensures forall a | a in m :: m[a] == if a in memory && !Covers(r, a) then memory[a] else 0
  {
    m := memory;
    var i := 0;
    while i < r.length
      invariant 0 <= i <= r.length
      invariant forall a: nat :: a in m <==> a in memory || r.addr <= a < r.addr + i
      invariant forall a | a in m :: m[a] == if a in memory && !(r.addr <= a < r.addr + i) then memory[a] else 0
    {
      m := m[r.addr + i := 0];
      i := i + 1;
    }
  }

  /** The zero-filled memory of the registers named in `done`. */
  ghost predicate Filled(memory: map<nat, byte>, registers: map<bytes, Register>, done: set<bytes>) {
    (forall a: nat :: a in memory <==> exists name | name in done && name in registers :: Covers(registers[name], a)) &&
    (forall a | a in memory :: memory[a] == 0)
  }

  lemma FilledAll(memory: map<nat, byte>, registers: map<bytes, Register>)
    requires Filled(memory, registers, registers.Keys)
    ensures memory == ZeroFilled(registers)
  {
    var z := ZeroFilled(registers);
    assert forall a: nat :: a in memory <==> a in z;
  }

  lemma FilledOne(memory: map<nat, byte>, registers: map<bytes, Register>, done: set<bytes>, name: bytes)
    requires name in registers
    requires forall a: nat :: a in memory <==> (exists n | n in done && n in registers :: Covers(registers[n], a)) || Covers(registers[name], a)
    requires forall a | a in memory :: memory[a] == 0
    ensures Filled(memory, registers, done + {name})
  {
  }

  /** A `Mock`: its memory and its register table. */
  /** One call of `write_bytes`, as the yellow blocks issue them. */
  datatype Access = Access(device: bytes, offset: nat, data: bytes)

  /**
   * A `Mock`: its memory and its register table, and (for the proofs only) the `write_bytes`
   * calls made on it so far, in order.
   */
  class Mock {
    var memory: map<nat, byte>
    var registers: map<bytes, Register>
    ghost var writes: seq<Access>

    /** `Mock::new`: the table as given, and a zero byte at every address of every register. */
    constructor(registers: map<bytes, Register>)
      ensures this.registers == registers
      ensures memory == ZeroFilled(registers)
      ensures writes == []
    {
      var mem: map<nat, byte> := map[];
      var todo := registers.Keys;
      var done: set<bytes> := {};
      while todo != {}
        invariant todo + done == registers.Keys && todo !! done
        invariant Filled(mem, registers, done)
        decreases |todo|
      {
        var name :| name in todo;
        mem := ZeroRange(mem, registers[name]);
        FilledOne(mem, registers, done, name);
        todo := todo - {name};
        done := done + {name};
      }
      FilledAll(mem, registers);
      this.registers := registers;
      memory := mem;
      writes := [];
    }

    /** `is_running`: the mock is always running. */
    method IsRunning() returns (r: Result<bool, MockError>)
      ensures r == Ok(true)
    {
      return Ok(true);
    }

    /** `is_connected`: the default of the transport trait, which asks `is_running`. */
    method IsConnected() returns (r: Result<bool, MockError>)
      ensures r == Ok(true)
    {
      r := IsRunning();
    }

    /** `read_n_bytes`: the n bytes at `offset` of `device`, or the first failure. */
    method ReadNBytes(device: bytes, offset: nat, n: nat) returns (r: Result<bytes, MockError>)
      ensures r == ReadSpec(memory, registers, device, offset, n)
    {
      if device !in registers {
        return Err(DeviceNotFound);
      }
      var dev := registers[device];
      var bytes: bytes := seq(n, _ => 0);
      var i := offset;
      while i < offset + n
        invariant offset <= i <= offset + n && |bytes| == n
        invariant Present(memory, dev.addr + offset, i - offset)
        invariant forall k | 0 <= k < i - offset :: bytes[k] == memory[dev.addr + offset + k]
      {
        if dev.addr + i !in memory {
          return Err(OutOfBounds);
        }
        bytes := bytes[i - offset := memory[dev.addr + i]];
        i := i + 1;
      }
      assert bytes == Slice(memory, dev.addr + offset, n);
      return Ok(bytes);
    }

    /** `write_bytes`: check that `data` fits, then store it byte by byte. */
    method WriteBytes(device: bytes, offset: nat, data: bytes) returns (r: Result<(), MockError>)
      modifies this
      ensures registers == old(registers) && writes == old(writes) + [Access(device, offset, data)]
      ensures var w := WriteSpec(old(memory), registers, device, offset, data);
        (r.Ok? <==> w.Ok?) && (w.Ok? ==> memory == w.value) &&
        (w.Err? ==> r == Err(w.error) && memory == old(memory))
    {
      writes := writes + [Access(device, offset, data)];
      if device !in registers {
        return Err(DeviceNotFound);
      }
      var dev := registers[device];
      if offset > dev.length {
        return Err(Underflow);
      }
      if dev.length - offset < |data| {
        return Err(NonexistentAddress);
      }
      memory := Store(memory, dev.addr + offset, data);
      return Ok(());
    }

    /** `read`: `read_bytes` of the type's width, then `deserialize`. */
    method Read(t: IntType, device: bytes, offset: nat) returns (r: Result<int, MockError>)
      ensures var b := ReadSpec(memory, registers, device, offset, Width(t));
        (b.Ok? ==> r == Ok(Deserialize(t, b.value))) && (b.Err? ==> r == Err(b.error))
    {
      var bytes := ReadNBytes(device, offset, Width(t));
      if bytes.Err? {
        return Err(bytes.error);
      }
      return Ok(Deserialize(t, bytes.value));
    }

    /** `write`: `serialize`, then `write_bytes` at the same device and offset. */
    method Write(t: IntType, device: bytes, offset: nat, x: int) returns (r: Result<(), MockError>)
      requires Serde.InRange(t, x)
      modifies this
      ensures registers == old(registers) && writes == old(writes) + [Access(device, offset, Serialize(t, x))]
      ensures var w := WriteSpec(old(memory), registers, device, offset, Serialize(t, x));
        (r.Ok? <==> w.Ok?) && (w.Ok? ==> memory == w.value) &&
        (w.Err? ==> r == Err(w.error) && memory == old(memory))
    {
      r := WriteBytes(device, offset, Serialize(t, x));
    }

    /** `listdev`: the register table, unchanged. */
    method ListDev() returns (r: map<bytes, Register>)
      ensures r == registers
    {
      return registers;
    }
  }

  // ---------------------------------------------------------------------------
  // Reading back
  // ---------------------------------------------------------------------------

  /** Every byte a fresh mock holds reads as zero. */
  lemma NewReadsZero(registers: map<bytes, Register>, device: bytes, offset: nat, n: nat)
    requires device in registers && offset + n <= registers[device].length
    ensures ReadSpec(ZeroFilled(registers), registers, device, offset, n) == Ok(seq(n, _ => 0))
  {
    var m := ZeroFilled(registers);
    var dev := registers[device];
    forall a: nat | dev.addr + offset <= a < dev.addr + offset + n
      ensures a in m
    {
      assert Covers(dev, a);
    }
    var r := ReadSpec(m, registers, device, offset, n);
    assert r.value == seq(n, _ => 0);
  }

  /** Write then read of the same range returns the written bytes. */
  lemma WriteThenRead(memory: map<nat, byte>, registers: map<bytes, Register>, device: bytes, offset: nat, data: bytes)
    requires WriteSpec(memory, registers, device, offset, data).Ok?
    ensures ReadSpec(WriteSpec(memory, registers, device, offset, data).value, registers, device, offset, |data|) == Ok(data)
  {
    var m := WriteSpec(memory, registers, device, offset, data).value;
    var base := registers[device].addr;
    var r := ReadSpec(m, registers, device, offset, |data|);
    assert r.value == data;
  }

  /** A read inside the range of a write returns the matching part of the written bytes. */
  lemma ReadWithinWrite(memory: map<nat, byte>, registers: map<bytes, Register>, device: bytes, offset: nat, data: bytes,
                        o: nat, n: nat)
    requires WriteSpec(memory, registers, device, offset, data).Ok?
    requires offset <= o && o + n <= offset + |data|
    ensures ReadSpec(WriteSpec(memory, registers, device, offset, data).value, registers, device, o, n)
      == Ok(data[o - offset..o - offset + n])
  {
    var m := WriteSpec(memory, registers, device, offset, data).value;
    var r := ReadSpec(m, registers, device, o, n);
    assert r.value == data[o - offset..o - offset + n];
  }

  /** Write then read of an integer of any type through `write` and `read` returns the integer. */
  lemma WriteThenReadNum(memory: map<nat, byte>, registers: map<bytes, Register>, device: bytes, offset: nat,
                         t: IntType, x: int)
    requires Serde.InRange(t, x)
    requires WriteSpec(memory, registers, device, offset, Serialize(t, x)).Ok?
    ensures var m := WriteSpec(memory, registers, device, offset, Serialize(t, x)).value;
      ReadSpec(m, registers, device, offset, Width(t)) == Ok(Serialize(t, x)) &&
      Deserialize(t, Serialize(t, x)) == x
  {
    WriteThenRead(memory, registers, device, offset, Serialize(t, x));
    DeserializeSerialize(t, x);
  }

  /** Reads of a range the write did not touch see the old bytes. */
  lemma ReadElsewhere(memory: map<nat, byte>, registers: map<bytes, Register>, device: bytes, offset: nat, data: bytes,
                      other: bytes, o: nat, n: nat)
    requires WriteSpec(memory, registers, device, offset, data).Ok? && other in registers
    requires var lo := registers[device].addr + offset; var a := registers[other].addr + o;
      a + n <= lo || lo + |data| <= a
    ensures ReadSpec(WriteSpec(memory, registers, device, offset, data).value, registers, other, o, n) ==
      ReadSpec(memory, registers, other, o, n)
  {
    var m := WriteSpec(memory, registers, device, offset, data).value;
    var a := registers[other].addr;
    assert forall x: nat | a + o <= x < a + o + n :: (x in m <==> x in memory);
    var before := ReadSpec(memory, registers, other, o, n);
    var after := ReadSpec(m, registers, other, o, n);
    if after.Ok? {
      assert after.value == before.value;
    }
  }

  /**
   * The tests `test_rw_<int>`: a fresh mock whose scratchpad at address 0 is exactly as wide
   * as the type accepts the write of any value of it and reads the value back.
   */
  lemma ScratchpadRoundTrip(t: IntType, x: int)
    requires Serde.InRange(t, x)
    ensures var registers := map[SCRATCHPAD := Register(0, Width(t))];
      var w := WriteSpec(ZeroFilled(registers), registers, SCRATCHPAD, 0, Serialize(t, x));
      w.Ok? && ReadSpec(w.value, registers, SCRATCHPAD, 0, Width(t)) == Ok(Serialize(t, x)) &&
      Deserialize(t, Serialize(t, x)) == x
  {
    var registers := map[SCRATCHPAD := Register(0, Width(t))];
    WriteThenReadNum(ZeroFilled(registers), registers, SCRATCHPAD, 0, t, x);
  }

  /** "sys_scratchpad" */
  const SCRATCHPAD: bytes := [115, 121, 115, 95, 115, 99, 114, 97, 116, 99, 104, 112, 97, 100]

  /**
   * The tests `test_read_offset` and `test_write_read_offset`: a 4-byte scratchpad at address 0
   * reads [0, 0] at offset 2; after [7, 8] is written at offset 2 it reads [0, 0, 7, 8]; and a
   * write at offset 5 is the subtraction's underflow.
   */
  lemma ScratchpadVectors()
    ensures var registers := map[SCRATCHPAD := Register(0, 4)];
      var zero := ZeroFilled(registers);
      ReadSpec(zero, registers, SCRATCHPAD, 2, 2) == Ok([0, 0]) &&
      WriteSpec(zero, registers, SCRATCHPAD, 2, [7, 8]).Ok? &&
      ReadSpec(WriteSpec(zero, registers, SCRATCHPAD, 2, [7, 8]).value, registers, SCRATCHPAD, 0, 4) == Ok([0, 0, 7, 8]) &&
      WriteSpec(zero, registers, SCRATCHPAD, 5, [1]) == Err(Underflow)
  {
    var registers := map[SCRATCHPAD := Register(0, 4)];
    var zero := ZeroFilled(registers);
    NewReadsZero(registers, SCRATCHPAD, 2, 2);
    assert seq(2, _ => 0) == [0, 0];
    NewReadsZero(registers, SCRATCHPAD, 0, 4);
    var m := WriteSpec(zero, registers, SCRATCHPAD, 2, [7, 8]).value;
    assert forall a | 0 <= a < 4 :: a in zero && zero[a] == 0 by {
      forall a | 0 <= a < 4
        ensures a in zero
      {
        assert Covers(registers[SCRATCHPAD], a);
      }
    }
    var r := ReadSpec(m, registers, SCRATCHPAD, 0, 4);
    assert r.value == [0, 0, 7, 8];
  }
}
