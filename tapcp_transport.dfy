// The casperfpga `Transport` implementation for TAPCP (casperfpga/src/transport/tapcp.rs): byte
// reads and writes mapped onto the word-addressed `read_device`/`write_device` of the TAPCP
// client, the "not running" classification of `is_running`, and the `listdev` conversion.
module TapcpTransport {
  import opened Wrappers
  import opened Bytes
  import opened Core
  import opened Tapcp
  import TftpPacket
  import TapcpMetadata

  /** The platforms that speak TAPCP. */
  datatype Platform = SNAP | SNAP2

  /** `flash_location`: the byte address of the user flash region. */
  function FlashLocation(p: Platform): (r: nat)
    ensures r < 0x1_0000_0000 && r % 1024 == 0
    ensures p.SNAP? ==> r == 0x0080_0000
    ensures p.SNAP2? ==> r == 0x00C0_0000
  {
    match p
    case SNAP => 0x0080_0000
    case SNAP2 => 0x00C0_0000
  }

  /** `DEFAULT_RETRIES`. */
  const DEFAULT_RETRIES: nat := 7

  /** "sys_clkcounter" */
  const CLKCOUNTER: bytes := [115, 121, 115, 95, 99, 108, 107, 99, 111, 117, 110, 116, 101, 114]

  /**
   * The failures of this transport: those of the TAPCP client, the `todo!()` of an unaligned
   * write, and the panic of a slice past the end of the words that came back.
   */
  datatype TransportError = Client(cause: TapcpError) | Todo | SlicePanic

  /** The `match` of `is_running` on the result of reading one word of `sys_clkcounter`. */
  function Running(reply: Result<bytes, TapcpError>): (r: Result<bool, TransportError>)
    ensures r == Ok(true) <==> reply.Ok?
    ensures r == Ok(false) <==> reply == Err(Tftp(Some(TftpPacket.NotFound)))
    ensures r.Err? ==> reply.Err? && r.error == Client(reply.error)
  {
    match reply
    case Ok(_) => Ok(true)
    case Err(e) => if e == Tftp(Some(TftpPacket.NotFound)) then Ok(false) else Err(Client(e))
  }

  /**
   * `is_running` as its text reads: the error is downcast to `tapcp::tftp::Error`, a type that
   * tapcp/src/lib.rs never declares a module for and that `read_device` never returns, so the
   * downcast finds nothing and every error is passed on.
   */
  function RunningAsWritten(reply: Result<bytes, TapcpError>): (r: Result<bool, TransportError>)
    ensures r.Ok? <==> reply.Ok?
    ensures r.Ok? ==> r.value
    ensures r.Err? ==> r.error == Client(reply.error)
  {
    match reply
    case Ok(_) => Ok(true)
    case Err(e) => Err(Client(e))
  }

  /** So a board with no `sys_clkcounter` fails `is_running` where `Running` says "not running". */
  lemma NotFoundPassedOn()
    ensures var reply: Result<bytes, TapcpError> := Err(Tftp(Some(TftpPacket.NotFound)));
      RunningAsWritten(reply) == Err(Client(Tftp(Some(TftpPacket.NotFound)))) && Running(reply) == Ok(false)
  {
  }

  /** `read_n_bytes`'s word count, `(offset + n) / 4 - offset / 4`. */
  function WordCount(offset: nat, n: nat): nat {
    (offset + n) / 4 - offset / 4
  }

  /** `bytes[start..start + n].to_vec()` of the words read, which panics past their end. */
  function SliceReply(reply: Result<bytes, TapcpError>, start: nat, n: nat): (r: Result<bytes, TransportError>)
    ensures r.Ok? <==> reply.Ok? && start + n <= |reply.value|
    ensures r.Ok? ==> |r.value| == n && forall k | 0 <= k < n :: r.value[k] == reply.value[start + k]
    ensures reply.Err? ==> r == Err(Client(reply.error))
    ensures reply.Ok? && start + n > |reply.value| ==> r == Err(SlicePanic)
  {
    match reply
    case Err(e) => Err(Client(e))
    case Ok(b) => if start + n <= |b| then Ok(b[start..start + n]) else Err(SlicePanic)
  }

  /** `listdev`: the client's `(addr, len)` pairs as `Register`s under the same names. */
  function ListDev(reply: Result<map<bytes, (nat, nat)>, TapcpError>): (r: Result<RegisterMap, TransportError>)
    ensures r.Ok? <==> reply.Ok?
    ensures reply.Err? ==> r == Err(Client(reply.error))
    ensures r.Ok? ==> r.value.Keys == reply.value.Keys
    ensures r.Ok? ==> forall name | name in r.value :: r.value[name] == Register(reply.value[name].0, reply.value[name].1)
  {
    match reply
    case Err(e) => Err(Client(e))
    case Ok(devices) => Ok(map name | name in devices :: Register(devices[name].0, devices[name].1))
  }

  /** A TAPCP connection: the client's endpoint, its retry count and its platform. */
  class TapcpConnection {
    const ep: Endpoint
    const retries: nat
    const platform: Platform

    /** `Tapcp::connect`, once the socket is connected: `DEFAULT_RETRIES` retries. */
    constructor(ep: Endpoint, platform: Platform)
      ensures this.ep == ep && this.platform == platform && retries == DEFAULT_RETRIES
    {
      this.ep := ep;
      this.platform := platform;
      retries := DEFAULT_RETRIES;
    }

    /**
     * `is_running`: read one word of `sys_clkcounter`; a successful read means running, the
     * server's "file not found" means not running, and any other failure is passed on.
     */
    method IsRunning() returns (r: Result<bool, TransportError>)
      modifies ep
      ensures var (reply, after) := DownloadStep(old(ep.State()), DeviceReadName(CLKCOUNTER, 0, 1), retries);
        r == Running(CheckLength(reply, 1)) && ep.State() == after
    {
      var reply := ReadDevice(CLKCOUNTER, 0, 1, ep, retries);
      match reply {
        case Ok(_) =>
          return Ok(true);
        case Err(e) =>
          if e == Tftp(Some(TftpPacket.NotFound)) {
            return Ok(false);
          }
          return Err(Client(e));
      }
    }

    /**
     * `write_bytes` as written: only a word-aligned offset and a whole number of words go
     * through, and they are written at word `offset % 4`, which is word 0.
     */
    method WriteBytes(device: bytes, offset: nat, data: bytes) returns (r: Result<(), TransportError>)
      modifies ep
      ensures offset % 4 == 0 && |data| % 4 == 0 ==>
        var (u, after) := UploadStep(old(ep.State()), DeviceWriteName(device, offset % 4), data, retries);
        ep.State() == after && r == (if u.Ok? then Ok(()) else Err(Client(u.error)))
      ensures !(offset % 4 == 0 && |data| % 4 == 0) ==> r == Err(Todo) && ep.State() == old(ep.State())
    {
      if offset % 4 == 0 && |data| % 4 == 0 {
        var u := WriteDevice(device, offset % 4, data, ep, retries);
        if u.Err? {
          return Err(Client(u.error));
        }
        return Ok(());
      }
      return Err(Todo);
    }

    /** `write_bytes` with the word offset `offset / 4` that `write_device` expects. */
    method WriteBytesAtWord(device: bytes, offset: nat, data: bytes) returns (r: Result<(), TransportError>)
      modifies ep
      ensures offset % 4 == 0 && |data| % 4 == 0 ==>
        var (u, after) := UploadStep(old(ep.State()), DeviceWriteName(device, offset / 4), data, retries);
        ep.State() == after && r == (if u.Ok? then Ok(()) else Err(Client(u.error))) && 4 * (offset / 4) == offset
      ensures !(offset % 4 == 0 && |data| % 4 == 0) ==> r == Err(Todo) && ep.State() == old(ep.State())
    {
      if offset % 4 == 0 && |data| % 4 == 0 {
        var u := WriteDevice(device, offset / 4, data, ep, retries);
        if u.Err? {
          return Err(Client(u.error));
        }
        return Ok(());
      }
      return Err(Todo);
    }

    /**
     * `read_n_bytes` as written: `WordCount(offset, n)` words from word `offset / 4` (all of
     * the device when that count is 0), then the n bytes from `offset % 4`.
     */
    method ReadNBytes(device: bytes, offset: nat, n: nat) returns (r: Result<bytes, TransportError>)
      modifies ep
      ensures var (reply, after) := DownloadStep(old(ep.State()), DeviceReadName(device, offset / 4, WordCount(offset, n)), retries);
        ep.State() == after && r == SliceReply(CheckLength(reply, WordCount(offset, n)), offset % 4, n)
    {
      var firstWord := offset / 4;
      var lastWord := (offset + n) / 4;
      var wordN := lastWord - firstWord;
      var bytes := ReadDevice(device, firstWord, wordN, ep, retries);
      if bytes.Err? {
        return Err(Client(bytes.error));
      }
      var startIdx := offset % 4;
      if startIdx + n > |bytes.value| {
        return Err(SlicePanic);
      }
      return Ok(bytes.value[startIdx..startIdx + n]);
    }

    /**
     * `read_n_bytes` with the word count `WordsSpanned(offset, n)`, which covers the bytes asked
     * for: a reply that passes the length check can no longer make the slice panic.
     */
    method ReadNBytesSpanned(device: bytes, offset: nat, n: nat) returns (r: Result<bytes, TransportError>)
      modifies ep
      ensures n == 0 ==> r == Ok([]) && ep.State() == old(ep.State())
      ensures n > 0 ==>
        var (reply, after) := DownloadStep(old(ep.State()), DeviceReadName(device, offset / 4, WordsSpanned(offset, n)), retries);
        ep.State() == after && r == SliceReply(CheckLength(reply, WordsSpanned(offset, n)), offset % 4, n)
      ensures r.Err? ==> r.error.Client?
    {
      if n == 0 {
        return Ok([]);
      }
      var wordN := WordsSpanned(offset, n);
      var bytes := ReadDevice(device, offset / 4, wordN, ep, retries);
      if bytes.Err? {
        return Err(Client(bytes.error));
      }
      SpannedCovers(offset, n);
      var startIdx := offset % 4;
      return Ok(bytes.value[startIdx..startIdx + n]);
    }

    /** `deprogram`: `progdev(0)`, which always reports success. */
    method Deprogram() returns (r: Result<(), TapcpError>)
      modifies ep
      ensures r == Ok(())
      ensures ep.State() == UploadStep(old(ep.State()), PROGDEV, BeBytes(0, 4), 0).1
    {
      r := Progdev(0, ep);
    }

    /** `metadata`: `get_metadata` at the platform's flash location. */
    method Metadata() returns (r: Result<TapcpMetadata.Metadata, TapcpError>)
      modifies ep
      ensures (r, ep.State()) == GetMetadataSpec(old(ep.State()), FlashLocation(platform), retries)
    {
      r := GetMetadata(ep, FlashLocation(platform), retries);
    }
  }

  // ---------------------------------------------------------------------------
  // word arithmetic
  // ---------------------------------------------------------------------------

  /**
   * When at least one word is fetched, the fetched words reach the last byte asked for exactly
   * when `offset + n` ends on a word boundary.
   */
  lemma WordCountCovers(offset: nat, n: nat)
    requires WordCount(offset, n) > 0
    ensures offset % 4 + n <= 4 * WordCount(offset, n) <==> (offset + n) % 4 == 0
  {
  }

  /** Offset 2 and 3 bytes fetch one word, so even a full reply of 4 bytes makes the slice panic. */
  lemma ShortReadPanics(reply: Result<bytes, TapcpError>)
    requires CheckLength(reply, WordCount(2, 3)).Ok?
    ensures WordCount(2, 3) == 1
    ensures SliceReply(CheckLength(reply, WordCount(2, 3)), 2 % 4, 3) == Err(SlicePanic)
  {
  }

  /** The number of words that bytes `offset .. offset + n - 1` touch. */
  function WordsSpanned(offset: nat, n: nat): (w: nat)
    requires n > 0
    ensures w >= 1
    ensures offset % 4 + n <= 4 * w < offset % 4 + n + 4
  {
    (offset + n + 3) / 4 - offset / 4
  }

  /** A reply of exactly `WordsSpanned(offset, n)` words holds the n bytes from `offset % 4`. */
  lemma SpannedCovers(offset: nat, n: nat)
    requires n > 0
    ensures forall b: bytes | |b| == 4 * WordsSpanned(offset, n) :: offset % 4 + n <= |b|
  {
  }

  /** The aligned writes of `write_bytes` as written all go to word 0: offset 4 does not reach word 1. */
  lemma WritesGoToWordZero(device: bytes, offset: nat)
    requires offset % 4 == 0
    ensures DeviceWriteName(device, offset % 4) == DeviceWriteName(device, 0)
    ensures offset == 4 ==> DeviceWriteName(device, offset % 4) != DeviceWriteName(device, offset / 4)
  {
    DeviceWriteNameInjective(device, 0, device, 1);
  }
}
