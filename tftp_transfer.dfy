// The lock-step TFTP client transfers of tapcp/src/tftp.rs over a scripted UDP socket.
module TftpTransfer {
  import opened Wrappers
  import opened Bytes
  import opened TftpPacket

  /** The receive buffer of `read` and `write`: 512 data bytes plus a 4-byte header. */
  const BUF_LEN: nat := 516

  /** The largest block number a `u16` holds; `write` panics on the chunk after it. */
  const MAX_BLOCK: nat := 0xFFFF

  /** What one `recv` on the socket yields: a datagram or an I/O error of some kind. */
  datatype RecvEvent = Arrive(datagram: bytes) | RecvWouldBlock | RecvTimedOut | RecvFailed

  /** What one `send` on the socket yields. */
  datatype SendEvent = SendDone | SendWouldBlock | SendTimedOut | SendFailed

  /** The error kinds the backoff helpers retry. */
  predicate RecvRetryable(e: RecvEvent) { e.RecvWouldBlock? || e.RecvTimedOut? }

  predicate SendRetryable(e: SendEvent) { e.SendWouldBlock? || e.SendTimedOut? }

  /**
   * The socket as the client sees it: the events its next `recv` calls yield (once they run
   * out, nothing arrives and `recv` would block), the results of its next `send` calls (once
   * they run out, every send succeeds), and the datagrams it has sent.
   */
  datatype Net = Net(incoming: seq<RecvEvent>, outcomes: seq<SendEvent>, sent: seq<bytes>)

  /** A datagram as `recv` leaves it in the 516-byte buffer: longer ones lose their tail. */
  function Truncate(d: bytes): (r: bytes)
    ensures |r| <= BUF_LEN && |r| <= |d| && r == d[..|r|]
    ensures |d| <= BUF_LEN ==> r == d
  {
    if |d| <= BUF_LEN then d else d[..BUF_LEN]
  }

  /** One `recv`. */
  function RecvStep(n: Net): (r: (RecvEvent, Net))
    ensures r.1.outcomes == n.outcomes && r.1.sent == n.sent
    ensures |n.incoming| == 0 ==> r == (RecvWouldBlock, n)
    ensures |n.incoming| > 0 ==> r.1.incoming == n.incoming[1..]
  {
    if |n.incoming| == 0 then (RecvWouldBlock, n)
    else
      var e := n.incoming[0];
      (if e.Arrive? then Arrive(Truncate(e.datagram)) else e, n.(incoming := n.incoming[1..]))
  }

  /** One `send` of `d`; only a completed send reaches the wire. */
  function SendStep(n: Net, d: bytes): (r: (SendEvent, Net))
    ensures r.1.incoming == n.incoming
    ensures r.0 == SendDone ==> r.1.sent == n.sent + [d]
    ensures r.0 != SendDone ==> r.1.sent == n.sent
  {
    if |n.outcomes| == 0 then (SendDone, n.(sent := n.sent + [d]))
    else
      var e := n.outcomes[0];
      (e, Net(n.incoming, n.outcomes[1..], if e == SendDone then n.sent + [d] else n.sent))
  }

  // ---------------------------------------------------------------------------
  // backoff_read / backoff_write
  // ---------------------------------------------------------------------------

  /** `backoff_read` once `count` attempts have ended in WouldBlock or TimedOut. */
  function BackoffReadSpec(n: Net, retries: nat, count: nat): (r: (Result<bytes, Fault>, Net))
    requires count <= retries
    ensures r.1.outcomes == n.outcomes && r.1.sent == n.sent
    ensures |r.1.incoming| <= |n.incoming| && |n.incoming| - |r.1.incoming| <= retries - count
    ensures r.0.Ok? ==> |r.1.incoming| < |n.incoming| && |r.0.value| <= BUF_LEN
    ensures r.0.Err? ==> r.0.error == Timeout || r.0.error == IoError
    decreases retries - count
  {
    if count == retries then (Err(Timeout), n)
    else
      var (e, n1) := RecvStep(n);
      match e
      case Arrive(d) => (Ok(d), n1)
      case RecvFailed => (Err(IoError), n1)
      case _ => BackoffReadSpec(n1, retries, count + 1)
  }

  /** `backoff_write` of `d` once `count` attempts have ended in WouldBlock or TimedOut. */
  function BackoffWriteSpec(n: Net, d: bytes, retries: nat, count: nat): (r: (Result<(), Fault>, Net))
    requires count <= retries
    ensures r.1.incoming == n.incoming
    ensures r.0.Ok? ==> r.1.sent == n.sent + [d]
    ensures r.0.Err? ==> r.1.sent == n.sent && (r.0.error == Timeout || r.0.error == IoError)
    decreases retries - count
  {
    if count == retries then (Err(Timeout), n)
    else
      var (e, n1) := SendStep(n, d);
      match e
      case SendDone => (Ok(()), n1)
      case SendFailed => (Err(IoError), n1)
      case _ => BackoffWriteSpec(n1, d, retries, count + 1)
  }

  // ---------------------------------------------------------------------------
  // read
  // ---------------------------------------------------------------------------

  /** The outcome of one turn of the `read` loop: the transfer failed, or a block arrived and was acknowledged. */
  datatype BlockOutcome = Failed(fault: Fault) | Got(data: bytes, last: bool)

  /** One turn of the `read` loop: wait for a reply, accept DATA and send its ACK. */
  function ReadBlock(n: Net, retries: nat): (r: (BlockOutcome, Net))
    ensures r.0.Got? ==> |r.1.incoming| < |n.incoming| && r.0.last == (|r.0.data| < MAX_DATA)
  {
    var (got, n1) := BackoffReadSpec(n, retries, 0);
    if got.Err? then (Failed(got.error), n1)
    else
      match Unpack(got.value)
      case Err(e) => (Failed(e), n1)
      case Ok(Data(block, data)) =>
        var (s, n2) := SendStep(n1, Pack(Ack(block)));
        if s != SendDone then (Failed(IoError), n2) else (Got(data, |data| < MAX_DATA), n2)
      case Ok(Error(c, msg)) => (Failed(ErrorResponse(c, msg)), n1)
      case Ok(_) => (Failed(Panic), n1)
  }

  /** The `read` loop, with `out` the bytes received so far. */
  function ReadBlocks(n: Net, retries: nat, out: bytes): (r: (Result<bytes, Fault>, Net))
    decreases |n.incoming|
  {
    var (o, n1) := ReadBlock(n, retries);
    match o
    case Failed(e) => (Err(e), n1)
    case Got(d, last) => if last then (Ok(out + d), n1) else ReadBlocks(n1, retries, out + d)
  }

  /** `read`: send the RRQ, then collect DATA blocks until a short one. */
  function ReadSpec(n: Net, filename: bytes, mode: Mode, retries: nat): (r: (Result<bytes, Fault>, Net))
  {
    var (w, n1) := BackoffWriteSpec(n, Pack(Read(filename, mode)), retries, 0);
    if w.Err? then (Err(w.error), n1) else ReadBlocks(n1, retries, [])
  }

  // ---------------------------------------------------------------------------
  // write
  // ---------------------------------------------------------------------------

  /** The `i`-th piece of `data.chunks(512)`. */
  function Chunk(data: bytes, i: nat): (r: bytes)
    requires MAX_DATA * i < |data|
  {
    if MAX_DATA * (i + 1) <= |data| then data[MAX_DATA * i..MAX_DATA * (i + 1)] else data[MAX_DATA * i..]
  }

  /** How many pieces `data.chunks(512)` yields: none for empty data. */
  function NumChunks(data: bytes): nat {
    (|data| + MAX_DATA - 1) / MAX_DATA
  }

  /** Why a reply other than `Ack(want)` ends `write`. */
  function Rejection(p: Payload): Fault {
    match p
    case Ack(b) => BadBlock(b)
    case Error(c, msg) => ErrorResponse(c, msg)
    case _ => Panic
  }

  /** Send `packet` with backoff and wait, with backoff, for `Ack(want)`. */
  function Exchange(n: Net, packet: bytes, want: u16, retries: nat): (r: (Result<(), Fault>, Net))
    ensures r.0.Ok? ==> |r.1.incoming| < |n.incoming|
  {
    var (w, n1) := BackoffWriteSpec(n, packet, retries, 0);
    if w.Err? then (Err(w.error), n1)
    else
      var (got, n2) := BackoffReadSpec(n1, retries, 0);
      if got.Err? then (Err(got.error), n2)
      else
        match Unpack(got.value)
        case Err(e) => (Err(e), n2)
        case Ok(p) => if p == Ack(want) then (Ok(()), n2) else (Err(Rejection(p)), n2)
  }

  /** The loop over the chunks of `write`, from chunk `i` on. */
  function WriteChunks(n: Net, data: bytes, retries: nat, i: nat): (r: (Result<(), Fault>, Net))
    decreases |data| - MAX_DATA * i
  {
    if MAX_DATA * i >= |data| then (Ok(()), n)
    else if i + 1 > MAX_BLOCK then (Err(Panic), n)
    else
      var (a, n1) := Exchange(n, Pack(Data(i + 1, Chunk(data, i))), i + 1, retries);
      if a.Err? then (Err(a.error), n1) else WriteChunks(n1, data, retries, i + 1)
  }

  /** `write`: the WRQ must be answered by ACK 0, then each chunk by its own block number. */
  function WriteSpec(n: Net, filename: bytes, data: bytes, retries: nat): (r: (Result<(), Fault>, Net))
  {
    var (a, n1) := Exchange(n, Pack(Write(filename, Octet)), 0, retries);
    if a.Err? then (Err(a.error), n1) else WriteChunks(n1, data, retries, 0)
  }

  // ---------------------------------------------------------------------------
  // The retry counter
  // ---------------------------------------------------------------------------

  /**
   * `backoff_read` retries WouldBlock and TimedOut only: after k of them (k below the attempts
   * left) the first other event decides, a datagram as `Ok` and any other error as `IoError`.
   */
  lemma {:induction false} BackoffReadFirstOutcome(n: Net, retries: nat, count: nat, k: nat)
    requires count + k < retries && k < |n.incoming|
    requires forall j :: 0 <= j < k ==> RecvRetryable(n.incoming[j])
    requires !RecvRetryable(n.incoming[k])
    ensures BackoffReadSpec(n, retries, count) ==
      (if n.incoming[k].Arrive? then Ok(Truncate(n.incoming[k].datagram)) else Err(IoError),
       n.(incoming := n.incoming[k + 1..]))
    decreases k
  {
    if k > 0 {
      var n1 := n.(incoming := n.incoming[1..]);
      assert RecvStep(n) == (n.incoming[0], n1);
      assert n1.incoming[k - 1..] == n.incoming[k..] && n1.incoming[k..] == n.incoming[k + 1..];
      BackoffReadFirstOutcome(n1, retries, count + 1, k - 1);
    }
  }

  /**
   * When every attempt left ends in WouldBlock or TimedOut (or finds nothing to receive),
   * `backoff_read` gives up with `Timeout`; with `retries == 0` it makes no attempt at all.
   */
  lemma {:induction false} BackoffReadGivesUp(n: Net, retries: nat, count: nat)
    requires count <= retries
    requires forall j :: 0 <= j < |n.incoming| && j < retries - count ==> RecvRetryable(n.incoming[j])
    ensures BackoffReadSpec(n, retries, count).0 == Err(Timeout)
    ensures count == retries ==> BackoffReadSpec(n, retries, count).1 == n
    decreases retries - count
  {
    if count < retries {
      var n1 := RecvStep(n).1;
      assert forall j :: 0 <= j < |n1.incoming| && j < retries - (count + 1) ==> n1.incoming[j] == n.incoming[j + 1];
      BackoffReadGivesUp(n1, retries, count + 1);
    }
  }

  /** The send results that follow the `k`-th one. */
  function After(outcomes: seq<SendEvent>, k: nat): seq<SendEvent> {
    if k < |outcomes| then outcomes[k + 1..] else []
  }

  /**
   * `backoff_write` retries WouldBlock and TimedOut only: after k of them the first other
   * result decides; the datagram goes out once on success and not at all on failure.
   */
  lemma {:induction false} BackoffWriteFirstOutcome(n: Net, d: bytes, retries: nat, count: nat, k: nat)
    requires count + k < retries && k <= |n.outcomes|
    requires forall j :: 0 <= j < k ==> SendRetryable(n.outcomes[j])
    requires k < |n.outcomes| ==> !SendRetryable(n.outcomes[k])
    ensures BackoffWriteSpec(n, d, retries, count) ==
      (if k < |n.outcomes| && n.outcomes[k] == SendFailed
       then (Err(IoError), n.(outcomes := After(n.outcomes, k)))
       else (Ok(()), Net(n.incoming, After(n.outcomes, k), n.sent + [d])))
    decreases k
  {
    if k > 0 {
      var n1 := n.(outcomes := n.outcomes[1..]);
      assert SendStep(n, d) == (n.outcomes[0], n1);
      assert After(n1.outcomes, k - 1) == After(n.outcomes, k);
      BackoffWriteFirstOutcome(n1, d, retries, count + 1, k - 1);
    }
  }

  /** When every attempt left ends in WouldBlock or TimedOut, `backoff_write` gives up with `Timeout` and sends nothing. */
  lemma {:induction false} BackoffWriteGivesUp(n: Net, d: bytes, retries: nat, count: nat)
    requires count <= retries && retries - count <= |n.outcomes|
    requires forall j :: 0 <= j < retries - count ==> SendRetryable(n.outcomes[j])
    ensures BackoffWriteSpec(n, d, retries, count) == (Err(Timeout), n.(outcomes := n.outcomes[retries - count..]))
    decreases retries - count
  {
    if count < retries {
      var n1 := n.(outcomes := n.outcomes[1..]);
      assert SendStep(n, d) == (n.outcomes[0], n1);
      assert forall j :: 0 <= j < retries - (count + 1) ==> n1.outcomes[j] == n.outcomes[j + 1];
      assert n1.outcomes[retries - (count + 1)..] == n.outcomes[retries - count..];
      BackoffWriteGivesUp(n1, d, retries, count + 1);
    }
  }

  // ---------------------------------------------------------------------------
  // read against a well-behaved server
  // ---------------------------------------------------------------------------

  /** A DATA block of at most 512 bytes arrives whole, is accepted and is acknowledged with its own number. */
  lemma {:induction false} ReadBlockData(b: u16, d: bytes, rest: seq<RecvEvent>, sent: seq<bytes>, retries: nat)
    requires retries >= 1 && |d| <= MAX_DATA
    ensures ReadBlock(Net([Arrive(Pack(Data(b, d)))] + rest, [], sent), retries) ==
      (Got(d, |d| < MAX_DATA), Net(rest, [], sent + [Pack(Ack(b))]))
  {
    var n := Net([Arrive(Pack(Data(b, d)))] + rest, [], sent);
    assert |Pack(Data(b, d))| == 4 + |d|;
    BackoffReadFirstOutcome(n, retries, 0, 0);
    assert n.incoming[1..] == rest;
    UnpackPack(Data(b, d));
  }

  /** An ERROR reply ends `read` at once with that code and message; no ACK goes out. */
  lemma {:induction false} ReadBlockError(c: ErrorCode, msg: bytes, rest: seq<RecvEvent>, outcomes: seq<SendEvent>,
                                          sent: seq<bytes>, retries: nat, out: bytes)
    requires retries >= 1 && Packable(Error(c, msg)) && |msg| + 5 <= BUF_LEN
    ensures ReadBlocks(Net([Arrive(Pack(Error(c, msg)))] + rest, outcomes, sent), retries, out) ==
      (Err(ErrorResponse(c, msg)), Net(rest, outcomes, sent))
  {
    var n := Net([Arrive(Pack(Error(c, msg)))] + rest, outcomes, sent);
    BackoffReadFirstOutcome(n, retries, 0, 0);
    assert n.incoming[1..] == rest;
    UnpackPack(Error(c, msg));
  }

  /** The datagrams a server sends for `blocks`, one DATA packet per (number, payload) pair. */
  function DataScript(blocks: seq<(u16, bytes)>): (r: seq<RecvEvent>)
    ensures |r| == |blocks|
  {
    if |blocks| == 0 then [] else [Arrive(Pack(Data(blocks[0].0, blocks[0].1)))] + DataScript(blocks[1..])
  }

  /** The ACKs that answer `blocks`, in order. */
  function AckLog(blocks: seq<(u16, bytes)>): (r: seq<bytes>)
    ensures |r| == |blocks|
  {
    if |blocks| == 0 then [] else [Pack(Ack(blocks[0].0))] + AckLog(blocks[1..])
  }

  /** The payloads of `blocks`, concatenated in arrival order. */
  function Payloads(blocks: seq<(u16, bytes)>): bytes {
    if |blocks| == 0 then [] else blocks[0].1 + Payloads(blocks[1..])
  }

  /** Full 512-byte blocks followed by one short block: a complete transfer. */
  predicate CompleteTransfer(blocks: seq<(u16, bytes)>) {
    |blocks| >= 1 &&
    (forall i :: 0 <= i < |blocks| - 1 ==> |blocks[i].1| == MAX_DATA) &&
    |blocks[|blocks| - 1].1| < MAX_DATA
  }

  /** A full DATA block keeps the `read` loop going, with its payload appended and its ACK sent. */
  lemma {:induction false} ReadBlocksFull(b: u16, d: bytes, rest: seq<RecvEvent>, sent: seq<bytes>, out: bytes, retries: nat)
    requires retries >= 1 && |d| == MAX_DATA
    ensures ReadBlocks(Net([Arrive(Pack(Data(b, d)))] + rest, [], sent), retries, out) ==
      ReadBlocks(Net(rest, [], sent + [Pack(Ack(b))]), retries, out + d)
  {
    ReadBlockData(b, d, rest, sent, retries);
  }

  /** A short DATA block ends the `read` loop, with its payload appended and its ACK sent. */
  lemma {:induction false} ReadBlocksLast(b: u16, d: bytes, rest: seq<RecvEvent>, sent: seq<bytes>, out: bytes, retries: nat)
    requires retries >= 1 && |d| < MAX_DATA
    ensures ReadBlocks(Net([Arrive(Pack(Data(b, d)))] + rest, [], sent), retries, out) ==
      (Ok(out + d), Net(rest, [], sent + [Pack(Ack(b))]))
  {
    ReadBlockData(b, d, rest, sent, retries);
  }

  /** After a full first block, the rest of a complete transfer is complete. */
  lemma {:induction false} CompleteTransferTail(blocks: seq<(u16, bytes)>)
    requires CompleteTransfer(blocks) && |blocks| > 1
    ensures CompleteTransfer(blocks[1..]) && |blocks[0].1| == MAX_DATA
  {
    assert forall i :: 0 <= i < |blocks[1..]| ==> blocks[1..][i] == blocks[i + 1];
  }

  /** The script of a transfer is its first DATA datagram followed by the script of the rest. */
  lemma {:induction false} DataScriptCons(blocks: seq<(u16, bytes)>, rest: seq<RecvEvent>)
    requires |blocks| > 0
    ensures DataScript(blocks) + rest == [Arrive(Pack(Data(blocks[0].0, blocks[0].1)))] + (DataScript(blocks[1..]) + rest)
  {
  }

  lemma {:induction false} PayloadsCons(blocks: seq<(u16, bytes)>, out: bytes)
    requires |blocks| > 0
    ensures out + blocks[0].1 + Payloads(blocks[1..]) == out + Payloads(blocks)
  {
  }

  lemma {:induction false} AckLogCons(blocks: seq<(u16, bytes)>, sent: seq<bytes>)
    requires |blocks| > 0
    ensures sent + [Pack(Ack(blocks[0].0))] + AckLog(blocks[1..]) == sent + AckLog(blocks)
  {
  }

  /**
   * Given a complete transfer, the `read` loop returns the payloads in arrival order, answers
   * each block with an ACK of its own number, whatever the numbers are, and reads nothing
   * after the short block.
   */
  lemma {:induction false} ReadBlocksDelivers(blocks: seq<(u16, bytes)>, rest: seq<RecvEvent>, sent: seq<bytes>,
                                              out: bytes, retries: nat)
    requires retries >= 1 && CompleteTransfer(blocks)
    ensures ReadBlocks(Net(DataScript(blocks) + rest, [], sent), retries, out) ==
      (Ok(out + Payloads(blocks)), Net(rest, [], sent + AckLog(blocks)))
    decreases |blocks|
  {
    var b, d := blocks[0].0, blocks[0].1;
    var tail := DataScript(blocks[1..]) + rest;
    DataScriptCons(blocks, rest);
    PayloadsCons(blocks, out);
    AckLogCons(blocks, sent);
    if |blocks| == 1 {
      assert blocks[1..] == [];
      assert tail == rest && Payloads(blocks[1..]) == [] && AckLog(blocks[1..]) == [];
      assert out + d + [] == out + d && sent + [Pack(Ack(b))] + [] == sent + [Pack(Ack(b))];
      ReadBlocksLast(b, d, rest, sent, out, retries);
    } else {
      CompleteTransferTail(blocks);
      ReadBlocksFull(b, d, tail, sent, out, retries);
      ReadBlocksDelivers(blocks[1..], rest, sent + [Pack(Ack(b))], out + d, retries);
    }
  }

  /** `read` from a well-behaved server: the RRQ, then one ACK per block, and the payloads concatenated. */
  lemma {:induction false} ReadDelivers(filename: bytes, mode: Mode, blocks: seq<(u16, bytes)>, rest: seq<RecvEvent>,
                                        retries: nat)
    requires retries >= 1 && CompleteTransfer(blocks)
    ensures ReadSpec(Net(DataScript(blocks) + rest, [], []), filename, mode, retries) ==
      (Ok(Payloads(blocks)), Net(rest, [], [Pack(Read(filename, mode))] + AckLog(blocks)))
  {
    var rrq := Pack(Read(filename, mode));
    var n := Net(DataScript(blocks) + rest, [], []);
    var n1 := Net(DataScript(blocks) + rest, [], [rrq]);
    BackoffWriteFirstOutcome(n, rrq, retries, 0, 0);
    assert After([], 0) == [] && [] + [rrq] == [rrq];
    ReadSpecStart(n, filename, mode, retries, n1);
    ReadBlocksDelivers(blocks, rest, [rrq], [], retries);
    assert [] + Payloads(blocks) == Payloads(blocks);
  }

  /** Once the RRQ is out, `read` is its loop from an empty output. */
  lemma {:induction false} ReadSpecStart(n: Net, filename: bytes, mode: Mode, retries: nat, n1: Net)
    requires BackoffWriteSpec(n, Pack(Read(filename, mode)), retries, 0) == (Ok(()), n1)
    ensures ReadSpec(n, filename, mode, retries) == ReadBlocks(n1, retries, [])
  {
  }

  // ---------------------------------------------------------------------------
  // write against a well-behaved server
  // ---------------------------------------------------------------------------

  /** Chunk `i` exists exactly when it starts inside the data. */
  lemma {:induction false} ChunkIndex(data: bytes, i: nat)
    ensures MAX_DATA * i < |data| <==> i < NumChunks(data)
  {
    var q, r := (|data| + 511) / 512, (|data| + 511) % 512;
    assert |data| + 511 == MAX_DATA * q + r && 0 <= r < 512;
    if i < q {
      assert MAX_DATA * i <= MAX_DATA * (q - 1);
    } else {
      assert MAX_DATA * i >= MAX_DATA * q;
    }
  }

  /** Every chunk holds 1 to 512 bytes, and every chunk but the last holds 512. */
  lemma {:induction false} ChunkSize(data: bytes, i: nat)
    requires i < NumChunks(data)
    ensures MAX_DATA * i < |data| && 1 <= |Chunk(data, i)| <= MAX_DATA
    ensures i + 1 < NumChunks(data) ==> |Chunk(data, i)| == MAX_DATA
  {
    ChunkIndex(data, i);
    ChunkIndex(data, i + 1);
  }

  /** The chunks from `i` on, concatenated. */
  function Joined(data: bytes, i: nat): bytes
    decreases |data| - MAX_DATA * i
  {
    if MAX_DATA * i >= |data| then [] else Chunk(data, i) + Joined(data, i + 1)
  }

  /** `data.chunks(512)` covers the data exactly, in order. */
  lemma {:induction false} JoinedChunks(data: bytes, i: nat)
    requires MAX_DATA * i <= |data|
    ensures Joined(data, i) == data[MAX_DATA * i..]
    decreases |data| - MAX_DATA * i
  {
    if MAX_DATA * i < |data| {
      if MAX_DATA * (i + 1) <= |data| {
        JoinedChunks(data, i + 1);
        assert data[MAX_DATA * i..] == data[MAX_DATA * i..MAX_DATA * (i + 1)] + data[MAX_DATA * (i + 1)..];
      } else {
        assert Joined(data, i + 1) == [];
      }
    }
  }

  /** At most 65535 chunks: every block number fits in a `u16`. */
  predicate FitsBlocks(data: bytes) {
    |data| <= MAX_DATA * MAX_BLOCK
  }

  /** The DATA packets `write` sends from chunk `i` on, numbered from i + 1, up to the last block number. */
  function DataLog(data: bytes, i: nat): seq<bytes>
    decreases |data| - MAX_DATA * i
  {
    if MAX_DATA * i >= |data| || i + 1 > MAX_BLOCK then [] else [Pack(Data(i + 1, Chunk(data, i)))] + DataLog(data, i + 1)
  }

  /** Data of at most 65535 * 512 bytes has at most 65535 chunks. */
  lemma {:induction false} FitsBlocksChunks(data: bytes)
    requires FitsBlocks(data)
    ensures NumChunks(data) <= MAX_BLOCK
  {
    var q, r := (|data| + 511) / 512, (|data| + 511) % 512;
    assert |data| + 511 == MAX_DATA * q + r && 0 <= r < 512;
  }

  /** `write` sends one DATA packet per chunk, so none when the data is empty and no empty block after a full last one. */
  lemma {:induction false} DataLogLength(data: bytes, i: nat)
    requires FitsBlocks(data) && i <= NumChunks(data)
    ensures |DataLog(data, i)| == NumChunks(data) - i
    ensures |data| % MAX_DATA == 0 ==> NumChunks(data) == |data| / MAX_DATA
    decreases NumChunks(data) - i
  {
    ChunkIndex(data, i);
    FitsBlocksChunks(data);
    if i < NumChunks(data) {
      DataLogLength(data, i + 1);
      assert DataLog(data, i) == [Pack(Data(i + 1, Chunk(data, i)))] + DataLog(data, i + 1);
    } else {
      assert DataLog(data, i) == [];
    }
  }

  /** A received datagram, at most one buffer long, that parses as `Ack(k)`. */
  predicate Acked(e: RecvEvent, k: nat) {
    e.Arrive? && |e.datagram| <= BUF_LEN && k <= MAX_BLOCK && Unpack(e.datagram) == Ok(Ack(k))
  }

  /** A server's replies to the chunks from `i` on: one acknowledgement per chunk, each naming its block. */
  predicate AcksFrom(acks: seq<RecvEvent>, data: bytes, i: nat) {
    i + |acks| == NumChunks(data) && forall j | 0 <= j < |acks| :: Acked(acks[j], i + 1 + j)
  }

  lemma {:induction false} AcksFromTail(acks: seq<RecvEvent>, data: bytes, i: nat, rest: seq<RecvEvent>)
    requires AcksFrom(acks, data, i) && |acks| > 0
    ensures Acked(acks[0], i + 1) && AcksFrom(acks[1..], data, i + 1)
    ensures acks + rest == [acks[0]] + (acks[1..] + rest)
  {
    assert Acked(acks[0], i + 1 + 0);
    forall j | 0 <= j < |acks[1..]|
      ensures Acked(acks[1..][j], i + 1 + 1 + j)
    {
      assert acks[1..][j] == acks[j + 1];
      assert Acked(acks[j + 1], i + 1 + (j + 1));
    }
  }

  /** A server that acknowledges every chunk can acknowledge at most 65535 of them. */
  lemma {:induction false} AcksFromFits(acks: seq<RecvEvent>, data: bytes)
    requires AcksFrom(acks, data, 0)
    ensures FitsBlocks(data)
  {
    if |acks| > 0 {
      assert Acked(acks[|acks| - 1], 0 + 1 + (|acks| - 1));
    }
    ChunkIndex(data, MAX_BLOCK);
  }

  /** The outcome of an exchange whose datagram goes out at once and whose first reply arrives whole. */
  lemma {:induction false} ExchangeReply(packet: bytes, want: u16, reply: bytes, rest: seq<RecvEvent>, sent: seq<bytes>,
                                         retries: nat)
    requires retries >= 1 && |reply| <= BUF_LEN
    ensures var r := Exchange(Net([Arrive(reply)] + rest, [], sent), packet, want, retries);
      r.1 == Net(rest, [], sent + [packet]) &&
      r.0 == match Unpack(reply)
        case Err(e) => Err(e)
        case Ok(p) => if p == Ack(want) then Ok(()) else Err(Rejection(p))
  {
    var n := Net([Arrive(reply)] + rest, [], sent);
    var n1 := Net(n.incoming, [], sent + [packet]);
    assert BackoffWriteSpec(n, packet, retries, 0) == (Ok(()), n1) by {
      BackoffWriteFirstOutcome(n, packet, retries, 0, 0);
    }
    assert BackoffReadSpec(n1, retries, 0) == (Ok(reply), Net(rest, [], sent + [packet])) by {
      BackoffReadFirstOutcome(n1, retries, 0, 0);
      assert n1.incoming[1..] == rest;
    }
  }

  /** A reply that parses as `Ack(want)` completes an exchange: the packet went out once and the reply was read. */
  lemma ExchangeAcked(packet: bytes, want: u16, reply: bytes, rest: seq<RecvEvent>, sent: seq<bytes>, retries: nat)
    requires retries >= 1 && |reply| <= BUF_LEN && Unpack(reply) == Ok(Ack(want))
    ensures Exchange(Net([Arrive(reply)] + rest, [], sent), packet, want, retries) ==
      (Ok(()), Net(rest, [], sent + [packet]))
  {
    ExchangeReply(packet, want, reply, rest, sent, retries);
  }

  /**
   * Any other reply ends the exchange: an ACK of another block with `BadBlock`, an ERROR with
   * `ErrorResponse`, anything else in a panic.
   */
  lemma ExchangeRejected(packet: bytes, want: u16, reply: bytes, p: Payload, rest: seq<RecvEvent>,
                         sent: seq<bytes>, retries: nat)
    requires retries >= 1 && |reply| <= BUF_LEN && Unpack(reply) == Ok(p) && p != Ack(want)
    ensures Exchange(Net([Arrive(reply)] + rest, [], sent), packet, want, retries) ==
      (Err(Rejection(p)), Net(rest, [], sent + [packet]))
  {
    ExchangeReply(packet, want, reply, rest, sent, retries);
  }

  /** One turn of the chunk loop, given the outcome of its exchange. */
  lemma {:induction false} WriteChunksAt(n: Net, data: bytes, retries: nat, i: nat, a: Result<(), Fault>, n1: Net)
    requires MAX_DATA * i < |data| && i + 1 <= MAX_BLOCK
    requires Exchange(n, Pack(Data(i + 1, Chunk(data, i))), i + 1, retries) == (a, n1)
    ensures WriteChunks(n, data, retries, i) == if a.Err? then (Err(a.error), n1) else WriteChunks(n1, data, retries, i + 1)
  {
  }

  /** An acknowledged chunk moves the loop to the next one. */
  lemma {:induction false} WriteChunksStep(data: bytes, i: nat, e: RecvEvent, rest: seq<RecvEvent>, sent: seq<bytes>,
                                           retries: nat)
    requires retries >= 1 && MAX_DATA * i < |data| && Acked(e, i + 1)
    ensures WriteChunks(Net([e] + rest, [], sent), data, retries, i) ==
      WriteChunks(Net(rest, [], sent + [Pack(Data(i + 1, Chunk(data, i)))]), data, retries, i + 1)
  {
    var packet := Pack(Data(i + 1, Chunk(data, i)));
    ExchangeAcked(packet, i + 1, e.datagram, rest, sent, retries);
    WriteChunksAt(Net([e] + rest, [], sent), data, retries, i, Ok(()), Net(rest, [], sent + [packet]));
  }

  lemma {:induction false} DataLogCons(data: bytes, i: nat, sent: seq<bytes>)
    requires MAX_DATA * i < |data| && i + 1 <= MAX_BLOCK
    ensures sent + [Pack(Data(i + 1, Chunk(data, i)))] + DataLog(data, i + 1) == sent + DataLog(data, i)
  {
  }

  /** Past the last chunk the loop ends with `Ok` and touches nothing. */
  lemma {:induction false} WriteChunksDone(data: bytes, i: nat, acks: seq<RecvEvent>, rest: seq<RecvEvent>,
                                           sent: seq<bytes>, retries: nat)
    requires AcksFrom(acks, data, i) && MAX_DATA * i >= |data|
    ensures WriteChunks(Net(acks + rest, [], sent), data, retries, i) == (Ok(()), Net(rest, [], sent + DataLog(data, i)))
  {
    ChunkIndex(data, i);
    assert acks + rest == rest && sent + DataLog(data, i) == sent;
  }

  /**
   * A server that answers every chunk with a datagram parsing as that chunk's ACK receives all
   * of them, numbered i + 1, i + 2, …, and nothing else.
   */
  lemma {:induction false} WriteChunksDelivers(data: bytes, i: nat, acks: seq<RecvEvent>, rest: seq<RecvEvent>,
                                               sent: seq<bytes>, retries: nat)
    requires retries >= 1 && AcksFrom(acks, data, i)
    ensures WriteChunks(Net(acks + rest, [], sent), data, retries, i) == (Ok(()), Net(rest, [], sent + DataLog(data, i)))
    decreases |acks|, 1
  {
    if MAX_DATA * i >= |data| {
      WriteChunksDone(data, i, acks, rest, sent, retries);
    } else {
      WriteChunksMore(data, i, acks, rest, sent, retries);
    }
  }

  /** The inductive step of `WriteChunksDelivers`: one acknowledged chunk in front of the rest. */
  lemma {:induction false} WriteChunksMore(data: bytes, i: nat, acks: seq<RecvEvent>, rest: seq<RecvEvent>,
                                           sent: seq<bytes>, retries: nat)
    requires retries >= 1 && AcksFrom(acks, data, i) && MAX_DATA * i < |data|
    ensures WriteChunks(Net(acks + rest, [], sent), data, retries, i) == (Ok(()), Net(rest, [], sent + DataLog(data, i)))
    decreases |acks|, 0
  {
    ChunkIndex(data, i);
    AcksFromTail(acks, data, i, rest);
    var sent1 := sent + [Pack(Data(i + 1, Chunk(data, i)))];
    WriteChunksStep(data, i, acks[0], acks[1..] + rest, sent, retries);
    WriteChunksDelivers(data, i + 1, acks[1..], rest, sent1, retries);
    DataLogCons(data, i, sent);
  }

  /** Once the WRQ is acknowledged, `write` is its chunk loop from chunk 0. */
  lemma {:induction false} WriteSpecStart(n: Net, filename: bytes, data: bytes, retries: nat, n1: Net)
    requires Exchange(n, Pack(Write(filename, Octet)), 0, retries) == (Ok(()), n1)
    ensures WriteSpec(n, filename, data, retries) == WriteChunks(n1, data, retries, 0)
  {
  }

  /**
   * `write` to a well-behaved server: the WRQ, then every chunk of the data as DATA block
   * 1, 2, …, and `Ok` once the last is acknowledged.
   */
  lemma {:induction false} WriteDelivers(filename: bytes, data: bytes, ack0: RecvEvent, acks: seq<RecvEvent>,
                                         rest: seq<RecvEvent>, retries: nat)
    requires retries >= 1 && Acked(ack0, 0) && AcksFrom(acks, data, 0)
    ensures WriteSpec(Net([ack0] + acks + rest, [], []), filename, data, retries) ==
      (Ok(()), Net(rest, [], [Pack(Write(filename, Octet))] + DataLog(data, 0)))
  {
    var wrq := Pack(Write(filename, Octet));
    var n := Net([ack0] + acks + rest, [], []);
    var n1 := Net(acks + rest, [], [wrq]);
    assert n.incoming == [ack0] + (acks + rest);
    ExchangeAcked(wrq, 0, ack0.datagram, acks + rest, [], retries);
    assert [] + [wrq] == [wrq];
    WriteSpecStart(n, filename, data, retries, n1);
    WriteChunksDelivers(data, 0, acks, rest, [wrq], retries);
  }

  /** A WRQ answered by anything but ACK 0 ends `write` before any data is sent. */
  lemma {:induction false} WriteRequestRejected(filename: bytes, data: bytes, reply: bytes, p: Payload,
                                                rest: seq<RecvEvent>, retries: nat)
    requires retries >= 1 && |reply| <= BUF_LEN && Unpack(reply) == Ok(p) && p != Ack(0)
    ensures WriteSpec(Net([Arrive(reply)] + rest, [], []), filename, data, retries) ==
      (Err(Rejection(p)), Net(rest, [], [Pack(Write(filename, Octet))]))
  {
    ExchangeRejected(Pack(Write(filename, Octet)), 0, reply, p, rest, [], retries);
    assert [] + [Pack(Write(filename, Octet))] == [Pack(Write(filename, Octet))];
  }

  /** A chunk answered by anything but its own ACK ends the loop; an ACK of another block is `BadBlock`. */
  lemma {:induction false} WriteChunkRejected(data: bytes, i: nat, reply: bytes, p: Payload, rest: seq<RecvEvent>,
                                              sent: seq<bytes>, retries: nat)
    requires retries >= 1 && FitsBlocks(data) && MAX_DATA * i < |data|
    requires |reply| <= BUF_LEN && Unpack(reply) == Ok(p) && p != Ack(i + 1)
    ensures WriteChunks(Net([Arrive(reply)] + rest, [], sent), data, retries, i) ==
      (Err(Rejection(p)), Net(rest, [], sent + [Pack(Data(i + 1, Chunk(data, i)))]))
  {
    var packet := Pack(Data(i + 1, Chunk(data, i)));
    ExchangeRejected(packet, i + 1, reply, p, rest, sent, retries);
    WriteChunksAt(Net([Arrive(reply)] + rest, [], sent), data, retries, i, Err(Rejection(p)), Net(rest, [], sent + [packet]));
  }
}
