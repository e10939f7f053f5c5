// The TAPCP register, flash and metadata operations of tapcp/src/lib.rs, over an endpoint that
// stands for the `tftp_client` crate's `download` and `upload`.
module Tapcp {
  import opened Wrappers
  import opened Bytes
  import opened TapcpMetadata
  import TftpPacket

  /**
   * `tapcp::Error`; `Tftp` wraps any failure the TFTP client reports, with the code of the
   * ERROR packet when the failure is the server's error response.
   */
  datatype TapcpError = Tftp(response: Option<TftpPacket.ErrorCode>) | Incomplete | Utf8 | MissingMetadata

  /** One call into the TFTP client. */
  datatype Request = Download(name: bytes, retries: nat) | Upload(name: bytes, data: bytes, retries: nat)

  /**
   * The remote side as the client sees it: the replies its next downloads get (once they run
   * out, downloads fail), the results of its next uploads (once they run out, uploads succeed),
   * and every request made so far.
   */
  datatype Remote = Remote(downloads: seq<Result<bytes, TapcpError>>, uploads: seq<Result<(), TapcpError>>,
                           log: seq<Request>)

  function DownloadStep(s: Remote, name: bytes, retries: nat): (r: (Result<bytes, TapcpError>, Remote))
    ensures r.1.uploads == s.uploads && r.1.log == s.log + [Download(name, retries)]
    ensures |s.downloads| > 0 ==> r == (s.downloads[0], r.1) && r.1.downloads == s.downloads[1..]
    ensures |s.downloads| == 0 ==> r.0 == Err(Tftp(None)) && r.1.downloads == []
  {
    if |s.downloads| == 0 then (Err(Tftp(None)), s.(log := s.log + [Download(name, retries)]))
    else (s.downloads[0], s.(downloads := s.downloads[1..], log := s.log + [Download(name, retries)]))
  }

  function UploadStep(s: Remote, name: bytes, data: bytes, retries: nat): (r: (Result<(), TapcpError>, Remote))
    ensures r.1.downloads == s.downloads && r.1.log == s.log + [Upload(name, data, retries)]
    ensures |s.uploads| > 0 ==> r == (s.uploads[0], r.1) && r.1.uploads == s.uploads[1..]
    ensures |s.uploads| == 0 ==> r.0 == Ok(()) && r.1.uploads == []
  {
    if |s.uploads| == 0 then (Ok(()), s.(log := s.log + [Upload(name, data, retries)]))
    else (s.uploads[0], s.(uploads := s.uploads[1..], log := s.log + [Upload(name, data, retries)]))
  }

  /** The TFTP endpoint of a TAPCP device. */
  class Endpoint {
    var downloads: seq<Result<bytes, TapcpError>>
    var uploads: seq<Result<(), TapcpError>>
    var log: seq<Request>

    function State(): Remote
      reads this
    {
      Remote(downloads, uploads, log)
    }

    constructor(downloads: seq<Result<bytes, TapcpError>>, uploads: seq<Result<(), TapcpError>>)
      ensures State() == Remote(downloads, uploads, [])
    {
      this.downloads := downloads;
      this.uploads := uploads;
      this.log := [];
    }

    /** `tftp_client::download`. */
    method Download(name: bytes, retries: nat) returns (r: Result<bytes, TapcpError>)
      modifies this
      ensures (r, State()) == DownloadStep(old(State()), name, retries)
    {
      log := log + [Request.Download(name, retries)];
      if |downloads| == 0 {
        r := Err(Tftp(None));
      } else {
        r := downloads[0];
        downloads := downloads[1..];
      }
    }

    /** `tftp_client::upload`. */
    method Upload(name: bytes, data: bytes, retries: nat) returns (r: Result<(), TapcpError>)
      modifies this
      ensures (r, State()) == UploadStep(old(State()), name, data, retries)
    {
      log := log + [Request.Upload(name, data, retries)];
      if |uploads| == 0 {
        r := Ok(());
      } else {
        r := uploads[0];
        uploads := uploads[1..];
      }
    }
  }

  // ---------------------------------------------------------------------------
  // virtual file names
  // ---------------------------------------------------------------------------

  const DOT: byte := '.' as int
  const DEV_PREFIX: bytes := ['/' as int, 'd' as int, 'e' as int, 'v' as int, '/' as int]
  const FLASH_PREFIX: bytes := ['/' as int, 'f' as int, 'l' as int, 'a' as int, 's' as int, 'h' as int]
  const PROGDEV: bytes := ['/' as int, 'p' as int, 'r' as int, 'o' as int, 'g' as int, 'd' as int, 'e' as int, 'v' as int]

  /** `format!("{x}.{n:x}")` for a word count or offset `n`. */
  function DotHex(x: bytes, n: nat): (r: bytes)
  {
    x + [DOT] + LowerHex(n)
  }

  /** `/dev/{device}.{offset:x}.{n:x}`. */
  function DeviceReadName(device: bytes, offset: nat, n: nat): bytes {
    DotHex(DotHex(DEV_PREFIX + device, offset), n)
  }

  /** `/dev/{device}.{offset:x}`. */
  function DeviceWriteName(device: bytes, offset: nat): bytes {
    DotHex(DEV_PREFIX + device, offset)
  }

  /** `/flash.{offset:x}.{n:x}`. */
  function FlashReadName(offset: nat, n: nat): bytes {
    DotHex(DotHex(FLASH_PREFIX, offset), n)
  }

  /** `/flash.{offset:x}`. */
  function FlashWriteName(offset: nat): bytes {
    DotHex(FLASH_PREFIX, offset)
  }

  /** The index of the last dot in `s`. */
  function LastDot(s: bytes): Option<nat>
  {
    if s == [] then None
    else if s[|s| - 1] == DOT then Some(|s| - 1)
    else LastDot(s[..|s| - 1])
  }

  lemma {:induction false} LastDotOf(x: bytes, a: bytes)
    requires DOT !in a
    ensures LastDot(x + [DOT] + a) == Some(|x|)
    decreases |a|
  {
    var s := x + [DOT] + a;
    if a != [] {
      assert s[|s| - 1] == a[|a| - 1];
      assert s[..|s| - 1] == x + [DOT] + a[..|a| - 1];
      LastDotOf(x, a[..|a| - 1]);
    }
  }

  /** Hex digits never contain a dot, so the last dot of a name splits it uniquely. */
  lemma {:induction false} DotHexInjective(x: bytes, m: nat, y: bytes, n: nat)
    ensures DotHex(x, m) == DotHex(y, n) <==> x == y && m == n
  {
    var a, b := LowerHex(m), LowerHex(n);
    if DotHex(x, m) == DotHex(y, n) {
      var s := DotHex(x, m);
      LowerHexWellFormed(m);
      LowerHexWellFormed(n);
      assert DOT !in a && DOT !in b;
      LastDotOf(x, a);
      LastDotOf(y, b);
      assert a == s[|x| + 1..] == b;
      assert x == s[..|x|] == y;
      LowerHexInjective(m, n);
    }
  }

  /** A read name determines the offset and the word count it was built from. */
  lemma DeviceReadNameInjective(device: bytes, o1: nat, n1: nat, o2: nat, n2: nat)
    ensures DeviceReadName(device, o1, n1) == DeviceReadName(device, o2, n2) <==> o1 == o2 && n1 == n2
  {
    DotHexInjective(DotHex(DEV_PREFIX + device, o1), n1, DotHex(DEV_PREFIX + device, o2), n2);
    DotHexInjective(DEV_PREFIX + device, o1, DEV_PREFIX + device, o2);
  }

  lemma FlashReadNameInjective(o1: nat, n1: nat, o2: nat, n2: nat)
    ensures FlashReadName(o1, n1) == FlashReadName(o2, n2) <==> o1 == o2 && n1 == n2
  {
    DotHexInjective(DotHex(FLASH_PREFIX, o1), n1, DotHex(FLASH_PREFIX, o2), n2);
    DotHexInjective(FLASH_PREFIX, o1, FLASH_PREFIX, o2);
  }

  /** A write name determines the device and the offset. */
  lemma DeviceWriteNameInjective(d1: bytes, o1: nat, d2: bytes, o2: nat)
    ensures DeviceWriteName(d1, o1) == DeviceWriteName(d2, o2) <==> d1 == d2 && o1 == o2
  {
    DotHexInjective(DEV_PREFIX + d1, o1, DEV_PREFIX + d2, o2);
    if DEV_PREFIX + d1 == DEV_PREFIX + d2 {
      assert d1 == (DEV_PREFIX + d1)[|DEV_PREFIX|..];
    }
  }

  // ---------------------------------------------------------------------------
  // register and flash access
  // ---------------------------------------------------------------------------

  /** `read_device`'s length check: `n` words must come back, except that `n == 0` accepts any length. */
  function CheckLength(reply: Result<bytes, TapcpError>, n: nat): (r: Result<bytes, TapcpError>)
    ensures r.Ok? <==> reply.Ok? && (n == 0 || |reply.value| == 4 * n)
    ensures r.Ok? ==> r.value == reply.value
    ensures r.Err? ==> r.error == (if reply.Err? then reply.error else Incomplete)
  {
    if reply.Err? then reply
    else if n != 0 && |reply.value| != n * 4 then Err(Incomplete)
    else reply
  }

  /** `read_device`: `n` words (all of them for `n == 0`) from word `offset` of `device`. */
  method ReadDevice(device: bytes, offset: nat, n: nat, ep: Endpoint, retries: nat) returns (r: Result<bytes, TapcpError>)
    modifies ep
    ensures var (reply, after) := DownloadStep(old(ep.State()), DeviceReadName(device, offset, n), retries);
      r == CheckLength(reply, n) && ep.State() == after
  {
    var bytes := ep.Download(DeviceReadName(device, offset, n), retries);
    if bytes.Err? {
      return bytes;
    }
    if n != 0 && |bytes.value| != n * 4 {
      r := Err(Incomplete);
    } else {
      r := bytes;
    }
  }

  /** `write_device`: upload `data` at word `offset` of `device`. */
  method WriteDevice(device: bytes, offset: nat, data: bytes, ep: Endpoint, retries: nat) returns (r: Result<(), TapcpError>)
    modifies ep
    ensures (r, ep.State()) == UploadStep(old(ep.State()), DeviceWriteName(device, offset), data, retries)
  {
    r := ep.Upload(DeviceWriteName(device, offset), data, retries);
  }

  /** `read_flash`: `n` words from flash word `offset`, with no length check. */
  method ReadFlash(offset: nat, n: nat, ep: Endpoint, retries: nat) returns (r: Result<bytes, TapcpError>)
    modifies ep
    ensures (r, ep.State()) == DownloadStep(old(ep.State()), FlashReadName(offset, n), retries)
  {
    r := ep.Download(FlashReadName(offset, n), retries);
  }

  /** `write_flash`: upload `data` at flash word `offset`. */
  method WriteFlash(offset: nat, data: bytes, ep: Endpoint, retries: nat) returns (r: Result<(), TapcpError>)
    modifies ep
    ensures (r, ep.State()) == UploadStep(old(ep.State()), FlashWriteName(offset), data, retries)
  {
    r := ep.Upload(FlashWriteName(offset), data, retries);
  }

  /** `progdev`: upload the big-endian address to `/progdev` with no retries, and report success whatever happens. */
  method Progdev(addr: nat, ep: Endpoint) returns (r: Result<(), TapcpError>)
    requires addr < Pow256(4)
    modifies ep
    ensures r == Ok(())
    ensures ep.State() == UploadStep(old(ep.State()), PROGDEV, BeBytes(addr, 4), 0).1
  {
    var _ := ep.Upload(PROGDEV, BeBytes(addr, 4), 0);
    r := Ok(());
  }

  // ---------------------------------------------------------------------------
  // metadata
  // ---------------------------------------------------------------------------

  /** 1024 bytes are 256 words; more than 128 chunk reads without `?end` is `MissingMetadata`. */
  const CHUNK_WORDS: nat := 256
  const MAX_CHUNK: nat := 128

  /** The flash word the `chunks`-th metadata read starts at. */
  function ChunkOffset(userFlashLoc: nat, chunks: nat): nat {
    userFlashLoc / 4 + 256 * chunks
  }

  /** What a download gets from `replies`: the first of them, or a failure once they run out. */
  function NextReply(replies: seq<Result<bytes, TapcpError>>): Result<bytes, TapcpError> {
    if |replies| == 0 then Err(Tftp(None)) else replies[0]
  }

  /** The replies left after one download. */
  function AfterReply(replies: seq<Result<bytes, TapcpError>>): seq<Result<bytes, TapcpError>> {
    if |replies| == 0 then [] else replies[1..]
  }

  /** The replies left after `n` downloads. */
  function Drop(replies: seq<Result<bytes, TapcpError>>, n: nat): (r: seq<Result<bytes, TapcpError>>)
    ensures n <= |replies| ==> r == replies[n..]
    ensures n > |replies| ==> r == []
  {
    if n <= |replies| then replies[n..] else []
  }

  /**
   * The `get_metadata` loop from chunk `chunks` on, with `acc` the text read so far and
   * `replies` what the flash reads get: the result, and how many chunks were read in all.
   */
  function MetadataFrom(replies: seq<Result<bytes, TapcpError>>, chunks: nat, acc: bytes)
    : (r: (Result<Metadata, TapcpError>, nat))
    requires chunks <= MAX_CHUNK + 1
    ensures chunks <= r.1 <= MAX_CHUNK + 1
    decreases MAX_CHUNK + 1 - chunks
  {
    if chunks > MAX_CHUNK then (Err(MissingMetadata), chunks)
    else
      var raw := NextReply(replies);
      if raw.Err? then (Err(raw.error), chunks + 1)
      else if !ValidUtf8(raw.value) then (Err(Utf8), chunks + 1)
      else
        var text := acc + raw.value;
        match Find(text, END_TAG)
        case Some(idx) => (Ok(Decode(text[..idx])), chunks + 1)
        case None => MetadataFrom(AfterReply(replies), chunks + 1, text)
  }

  /** The download of 256-word metadata chunk `k`. */
  function ChunkRead(userFlashLoc: nat, retries: nat, k: nat): Request {
    Download(FlashReadName(ChunkOffset(userFlashLoc, k), CHUNK_WORDS), retries)
  }

  /** The downloads of `count` consecutive chunks from chunk `from` on. */
  function ChunkReads(userFlashLoc: nat, retries: nat, from: nat, count: nat): (r: seq<Request>)
    ensures |r| == count
    decreases count
  {
    if count == 0 then [] else [ChunkRead(userFlashLoc, retries, from)] + ChunkReads(userFlashLoc, retries, from + 1, count - 1)
  }

  lemma {:induction false} ChunkReadsSnoc(userFlashLoc: nat, retries: nat, from: nat, count: nat)
    ensures ChunkReads(userFlashLoc, retries, from, count + 1) ==
      ChunkReads(userFlashLoc, retries, from, count) + [ChunkRead(userFlashLoc, retries, from + count)]
    decreases count
  {
    if count > 0 {
      ChunkReadsSnoc(userFlashLoc, retries, from + 1, count - 1);
    }
  }

  /** One more chunk download extends the log by the next `ChunkRead`. */
  lemma LogChunkRead(base: seq<Request>, before: seq<Request>, after: seq<Request>, userFlashLoc: nat, retries: nat,
                     chunks: nat)
    requires before == base + ChunkReads(userFlashLoc, retries, 0, chunks)
    requires after == before + [ChunkRead(userFlashLoc, retries, chunks)]
    ensures after == base + ChunkReads(userFlashLoc, retries, 0, chunks + 1)
    ensures |after| - |base| == chunks + 1
  {
    ChunkReadsSnoc(userFlashLoc, retries, 0, chunks);
  }

  lemma {:induction false} ChunkReadsAt(userFlashLoc: nat, retries: nat, from: nat, count: nat, k: nat)
    requires k < count
    ensures ChunkReads(userFlashLoc, retries, from, count)[k] == ChunkRead(userFlashLoc, retries, from + k)
    decreases count
  {
    if k > 0 {
      ChunkReadsAt(userFlashLoc, retries, from + 1, count - 1, k - 1);
    }
  }

  /** `get_metadata`: the result, and the remote side after the chunk downloads it made. */
  function GetMetadataSpec(s: Remote, userFlashLoc: nat, retries: nat): (r: (Result<Metadata, TapcpError>, Remote))
    ensures r.1.uploads == s.uploads
  {
    var (res, n) := MetadataFrom(s.downloads, 0, []);
    (res, Remote(Drop(s.downloads, n), s.uploads, s.log + ChunkReads(userFlashLoc, retries, 0, n)))
  }

  /** One more download drops one more reply. */
  lemma DropNext(replies: seq<Result<bytes, TapcpError>>, n: nat)
    ensures AfterReply(Drop(replies, n)) == Drop(replies, n + 1)
  {
  }

  /** `get_metadata`: read 1024-byte chunks of user flash until the text holds `?end`, then decode what precedes it. */
  method GetMetadata(ep: Endpoint, userFlashLoc: nat, retries: nat) returns (r: Result<Metadata, TapcpError>)
    modifies ep
    ensures (r, ep.State()) == GetMetadataSpec(old(ep.State()), userFlashLoc, retries)
  {
    var dictStr: bytes := [];
    var chunks: nat := 0;
    ghost var goal := MetadataFrom(ep.downloads, 0, []);
    assert Drop(ep.downloads, 0) == ep.downloads;
    while true
      invariant chunks <= MAX_CHUNK + 1
      invariant MetadataFrom(ep.downloads, chunks, dictStr) == goal
      invariant ep.downloads == Drop(old(ep.downloads), chunks)
      invariant ep.uploads == old(ep.uploads)
      invariant ep.log == old(ep.log) + ChunkReads(userFlashLoc, retries, 0, chunks)
      decreases MAX_CHUNK + 1 - chunks
    {
      if chunks > MAX_CHUNK {
        return Err(MissingMetadata);
      }
      ghost var before := ep.log;
      var done;
      done, dictStr := MetadataChunk(ep, userFlashLoc, retries, chunks, dictStr);
      LogChunkRead(old(ep.log), before, ep.log, userFlashLoc, retries, chunks);
      DropNext(old(ep.downloads), chunks);
      if done.Some? {
        return done.value;
      }
      chunks := chunks + 1;
    }
  }

  /**
   * One pass of the `get_metadata` loop: read chunk `chunks`, check it is UTF-8, append it to
   * the text, and look for `?end`. An answer ends the loop; otherwise it goes on with the
   * longer text.
   */
  method MetadataChunk(ep: Endpoint, userFlashLoc: nat, retries: nat, chunks: nat, acc: bytes)
    returns (done: Option<Result<Metadata, TapcpError>>, text: bytes)
    requires chunks <= MAX_CHUNK
    modifies ep
    ensures ep.uploads == old(ep.uploads) && ep.log == old(ep.log) + [ChunkRead(userFlashLoc, retries, chunks)]
    ensures ep.downloads == AfterReply(old(ep.downloads))
    ensures done.Some? ==> MetadataFrom(old(ep.downloads), chunks, acc) == (done.value, chunks + 1)
    ensures done.None? ==> MetadataFrom(ep.downloads, chunks + 1, text) == MetadataFrom(old(ep.downloads), chunks, acc)
  {
    text := acc;
    var raw := ReadFlash(ChunkOffset(userFlashLoc, chunks), CHUNK_WORDS, ep, retries);
    if raw.Err? {
      return Some(Err(raw.error)), text;
    }
    if !ValidUtf8(raw.value) {
      return Some(Err(Utf8)), text;
    }
    text := acc + raw.value;
    match Find(text, END_TAG) {
      case Some(idx) => return Some(Ok(Decode(text[..idx]))), text;
      case None => return None, text;
    }
  }

  /** `set_metadata`: write the padded metadata text at flash word `userFlashLoc / 4`. */
  method SetMetadata(data: Metadata, order: seq<bytes>, ep: Endpoint, userFlashLoc: nat, retries: nat)
    returns (r: Result<(), TapcpError>)
    requires IsEnumeration(order, data)
    modifies ep
    ensures (r, ep.State()) == UploadStep(old(ep.State()), FlashWriteName(userFlashLoc / 4), Image(data, order), retries)
  {
    r := WriteFlash(userFlashLoc / 4, Image(data, order), ep, retries);
  }

  // ---------------------------------------------------------------------------
  // the metadata round trip
  // ---------------------------------------------------------------------------

  /** Flash replies that hold `img` from chunk `from` on, one 1024-byte chunk per download. */
  predicate ServesImage(downloads: seq<Result<bytes, TapcpError>>, img: bytes, from: nat) {
    |img| % CHUNK_LEN == 0 &&
    from <= |img| / CHUNK_LEN && |downloads| >= |img| / CHUNK_LEN - from &&
    forall j | 0 <= j < |img| / CHUNK_LEN - from ::
      CHUNK_LEN * (from + j + 1) <= |img| && downloads[j] == Ok(img[CHUNK_LEN * (from + j)..CHUNK_LEN * (from + j + 1)])
  }

  /** Metadata `get_metadata` can give back intact. */
  predicate Recoverable(m: Metadata, order: seq<bytes>) {
    IsEnumeration(order, m) && Clean(m) && NoEndKeys(m) &&
    (forall k | k in m :: IsAscii(k) && IsAscii(m[k])) &&
    |Image(m, order)| <= CHUNK_LEN * (MAX_CHUNK + 1)
  }

  lemma {:induction false} AsciiSlice(s: bytes, i: nat, j: nat)
    requires IsAscii(s) && i <= j <= |s|
    ensures ValidUtf8(s[i..j])
  {
    AsciiIsUtf8(s[i..j]);
  }

  /** The next reply is chunk `c`, and the replies after it hold the image from chunk `c + 1` on. */
  lemma ServesNext(downloads: seq<Result<bytes, TapcpError>>, img: bytes, c: nat)
    requires ServesImage(downloads, img, c) && c < |img| / CHUNK_LEN
    ensures CHUNK_LEN * (c + 1) <= |img| && downloads[0] == Ok(img[CHUNK_LEN * c..CHUNK_LEN * (c + 1)])
    ensures ServesImage(downloads[1..], img, c + 1)
  {
    assert CHUNK_LEN * (c + 0 + 1) <= |img|;
    forall j | 0 <= j < |img| / CHUNK_LEN - (c + 1)
      ensures CHUNK_LEN * (c + 1 + j + 1) <= |img|
      ensures downloads[1..][j] == Ok(img[CHUNK_LEN * (c + 1 + j)..CHUNK_LEN * (c + 1 + j + 1)])
    {
      assert downloads[1..][j] == downloads[j + 1];
      assert c + (j + 1) == c + 1 + j;
    }
  }

  /** A chunk that completes `?end` ends the loop with the text before it decoded. */
  lemma MetadataFromFound(replies: seq<Result<bytes, TapcpError>>, chunks: nat, acc: bytes, idx: nat)
    requires chunks <= MAX_CHUNK && |replies| > 0 && replies[0].Ok? && ValidUtf8(replies[0].value)
    requires Find(acc + replies[0].value, END_TAG) == Some(idx)
    ensures idx <= |acc + replies[0].value|
    ensures MetadataFrom(replies, chunks, acc).0 == Ok(Decode((acc + replies[0].value)[..idx]))
  {
  }

  /** A chunk without `?end` so far moves the loop on to the next reply. */
  lemma MetadataFromMissing(replies: seq<Result<bytes, TapcpError>>, chunks: nat, acc: bytes)
    requires chunks <= MAX_CHUNK && |replies| > 0 && replies[0].Ok? && ValidUtf8(replies[0].value)
    requires Find(acc + replies[0].value, END_TAG) == None
    ensures MetadataFrom(replies, chunks, acc) == MetadataFrom(replies[1..], chunks + 1, acc + replies[0].value)
  {
  }

  /** The first `k` chunks of `img` hold `?end` at `n` once they reach `e` bytes, and not before. */
  predicate EndFirstAt(img: bytes, e: nat, n: nat, k: nat) {
    CHUNK_LEN * k <= |img| && Find(img[..CHUNK_LEN * k], END_TAG) == if CHUNK_LEN * k >= e then Some(n) else None
  }

  /** One reply of the image served: either it completes `?end` or the loop moves on. */
  lemma ServedStep(img: bytes, e: nat, n: nat, replies: seq<Result<bytes, TapcpError>>, c: nat)
    requires IsAscii(img) && |img| <= CHUNK_LEN * (MAX_CHUNK + 1)
    requires CHUNK_LEN * c < e <= |img|
    requires EndFirstAt(img, e, n, c + 1)
    requires ServesImage(replies, img, c)
    ensures CHUNK_LEN * (c + 1) >= e ==>
      n <= |img| && MetadataFrom(replies, c, img[..CHUNK_LEN * c]).0 == Ok(Decode(img[..n]))
    ensures CHUNK_LEN * (c + 1) < e ==>
      ServesImage(replies[1..], img, c + 1) &&
      MetadataFrom(replies, c, img[..CHUNK_LEN * c]) == MetadataFrom(replies[1..], c + 1, img[..CHUNK_LEN * (c + 1)])
  {
    var lo, hi := CHUNK_LEN * c, CHUNK_LEN * (c + 1);
    assert c < |img| / CHUNK_LEN && c <= MAX_CHUNK;
    ServesNext(replies, img, c);
    AsciiSlice(img, lo, hi);
    PrefixExtend(img, lo, hi);
    if hi >= e {
      MetadataFromFound(replies, c, img[..lo], n);
      PrefixOfPrefix(img, hi, n);
    } else {
      MetadataFromMissing(replies, c, img[..lo]);
    }
  }

  /**
   * The loop over the replies that serve `img` from chunk `c` on, where the prefixes of `img`
   * first contain `?end` once `e` bytes are in, and then at `n`: the text before `n` is decoded.
   */
  lemma {:induction false} ServedFrom(img: bytes, e: nat, n: nat, replies: seq<Result<bytes, TapcpError>>, c: nat)
    requires IsAscii(img) && |img| <= CHUNK_LEN * (MAX_CHUNK + 1)
    requires CHUNK_LEN * c < e <= |img|
    requires forall k | c < k <= |img| / CHUNK_LEN :: EndFirstAt(img, e, n, k)
    requires ServesImage(replies, img, c)
    ensures n <= |img| && MetadataFrom(replies, c, img[..CHUNK_LEN * c]).0 == Ok(Decode(img[..n]))
    decreases |img| - CHUNK_LEN * c
  {
    assert c < |img| / CHUNK_LEN;
    assert EndFirstAt(img, e, n, c + 1);
    ServedStep(img, e, n, replies, c);
    if CHUNK_LEN * (c + 1) < e {
      ServedFrom(img, e, n, replies[1..], c + 1);
    }
  }

  /** The remote replies hold the rest of the image: the loop returns the decoded map. */
  lemma GetMetadataServed(m: Metadata, order: seq<bytes>, replies: seq<Result<bytes, TapcpError>>, c: nat)
    requires Recoverable(m, order)
    requires CHUNK_LEN * c < |Encode(m, order)|
    requires ServesImage(replies, Image(m, order), c)
    ensures MetadataFrom(replies, c, Image(m, order)[..CHUNK_LEN * c]).0 == Ok(m)
  {
    var img := Image(m, order);
    var n := |Body(m, order)|;
    forall k | c < k <= |img| / CHUNK_LEN
      ensures EndFirstAt(img, |Encode(m, order)|, n, k)
    {
      FindEndInImage(m, order, CHUNK_LEN * k);
    }
    ImageAscii(m, order);
    ServedFrom(img, |Encode(m, order)|, n, replies, c);
    assert img[..n] == Body(m, order);
    DecodeEncodedBody(m, order);
  }

  /**
   * `get_metadata` after `set_metadata`: when the flash gives back the written image chunk by
   * chunk, the map read is the map written.
   */
  lemma MetadataRoundTrip(m: Metadata, order: seq<bytes>, s: Remote, userFlashLoc: nat, retries: nat)
    requires Recoverable(m, order)
    requires ServesImage(s.downloads, Image(m, order), 0)
    ensures GetMetadataSpec(s, userFlashLoc, retries).0 == Ok(m)
  {
    assert Image(m, order)[..CHUNK_LEN * 0] == [];
    GetMetadataServed(m, order, s.downloads, 0);
  }
}
