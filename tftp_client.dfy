// The TFTP client loops of tapcp/src/tftp.rs, run against a scripted socket object.
module TftpClient {
  import opened Wrappers
  import opened Bytes
  import opened TftpPacket
  import opened TftpTransfer

  /**
   * The client's UDP socket: the events its next `recv` calls yield, the results of its next
   * `send` calls, and the datagrams that went out.
   */
  class Socket {
    var incoming: seq<RecvEvent>
    var outcomes: seq<SendEvent>
    var sent: seq<bytes>

    function State(): Net
      reads this
    {
      Net(incoming, outcomes, sent)
    }

    constructor(incoming: seq<RecvEvent>, outcomes: seq<SendEvent>)
      ensures State() == Net(incoming, outcomes, [])
    {
      this.incoming := incoming;
      this.outcomes := outcomes;
      this.sent := [];
    }

    /** `recv` into the 516-byte buffer. */
    method Recv() returns (e: RecvEvent)
      modifies this
      ensures (e, State()) == RecvStep(old(State()))
    {
      if |incoming| == 0 {
        e := RecvWouldBlock;
      } else {
        e := incoming[0];
        if e.Arrive? {
          e := Arrive(Truncate(e.datagram));
        }
        incoming := incoming[1..];
      }
    }

    /** `send` of one datagram. */
    method Send(d: bytes) returns (e: SendEvent)
      modifies this
      ensures (e, State()) == SendStep(old(State()), d)
    {
      if |outcomes| == 0 {
        e := SendDone;
      } else {
        e := outcomes[0];
        outcomes := outcomes[1..];
      }
      if e == SendDone {
        sent := sent + [d];
      }
    }
  }

  /** `backoff_read`: receive one datagram, retrying WouldBlock and TimedOut up to `retries` attempts in all. */
  method BackoffRead(sock: Socket, retries: nat) returns (r: Result<bytes, Fault>)
    modifies sock
    ensures (r, sock.State()) == BackoffReadSpec(old(sock.State()), retries, 0)
  {
    var retryCount := 0;
    while retryCount < retries
      invariant retryCount <= retries
      invariant BackoffReadSpec(sock.State(), retries, retryCount) == BackoffReadSpec(old(sock.State()), retries, 0)
      decreases retries - retryCount
    {
      var e := sock.Recv();
      match e {
        case Arrive(d) => return Ok(d);
        case RecvFailed => return Err(IoError);
        case _ => retryCount := retryCount + 1;
      }
    }
    r := Err(Timeout);
  }

  /** `backoff_write`: send `d`, retrying WouldBlock and TimedOut up to `retries` attempts in all. */
  method BackoffWrite(sock: Socket, d: bytes, retries: nat) returns (r: Result<(), Fault>)
    modifies sock
    ensures (r, sock.State()) == BackoffWriteSpec(old(sock.State()), d, retries, 0)
  {
    var retryCount := 0;
    while retryCount < retries
      invariant retryCount <= retries
      invariant BackoffWriteSpec(sock.State(), d, retries, retryCount) == BackoffWriteSpec(old(sock.State()), d, retries, 0)
      decreases retries - retryCount
    {
      var e := sock.Send(d);
      match e {
        case SendDone => return Ok(());
        case SendFailed => return Err(IoError);
        case _ => retryCount := retryCount + 1;
      }
    }
    r := Err(Timeout);
  }

  /** One turn of the `read` loop: the next DATA block, acknowledged. */
  method ReceiveBlock(sock: Socket, retries: nat) returns (o: BlockOutcome)
    modifies sock
    ensures (o, sock.State()) == ReadBlock(old(sock.State()), retries)
  {
    var got := BackoffRead(sock, retries);
    if got.Err? {
      return Failed(got.error);
    }
    var resp := Unpack(got.value);
    if resp.Err? {
      return Failed(resp.error);
    }
    match resp.value {
      case Data(block, data) =>
        var s := sock.Send(Pack(Ack(block)));
        if s != SendDone {
          return Failed(IoError);
        }
        o := Got(data, |data| < MAX_DATA);
      case Error(c, msg) => o := Failed(ErrorResponse(c, msg));
      case _ => o := Failed(Panic);
    }
  }

  /** `read`: send the RRQ; collect and acknowledge DATA blocks until one is shorter than 512 bytes. */
  method Read(filename: bytes, sock: Socket, mode: Mode, retries: nat) returns (r: Result<bytes, Fault>)
    modifies sock
    ensures (r, sock.State()) == ReadSpec(old(sock.State()), filename, mode, retries)
  {
    var w := BackoffWrite(sock, Pack(Payload.Read(filename, mode)), retries);
    if w.Err? {
      return Err(w.error);
    }
    ghost var start := sock.State();
    var output: bytes := [];
    while true
      invariant ReadBlocks(sock.State(), retries, output) == ReadBlocks(start, retries, [])
      decreases |sock.incoming|
    {
      var o := ReceiveBlock(sock, retries);
      match o {
        case Failed(e) => return Err(e);
        case Got(d, last) =>
          output := output + d;
          if last {
            return Ok(output);
          }
      }
    }
  }

  /** Send `packet` with backoff, then wait with backoff for `Ack(want)`. */
  method SendAndAwaitAck(sock: Socket, packet: bytes, want: u16, retries: nat) returns (r: Result<(), Fault>)
    modifies sock
    ensures (r, sock.State()) == Exchange(old(sock.State()), packet, want, retries)
  {
    var w := BackoffWrite(sock, packet, retries);
    if w.Err? {
      return Err(w.error);
    }
    var got := BackoffRead(sock, retries);
    if got.Err? {
      return Err(got.error);
    }
    var resp := Unpack(got.value);
    if resp.Err? {
      return Err(resp.error);
    }
    match resp.value {
      case Ack(block) => r := if block != want then Err(BadBlock(block)) else Ok(());
      case Error(c, msg) => r := Err(ErrorResponse(c, msg));
      case _ => r := Err(Panic);
    }
  }

  /** `write`: the WRQ must be answered by ACK 0, then each 512-byte chunk by its own block number. */
  method Write(filename: bytes, data: bytes, sock: Socket, retries: nat) returns (r: Result<(), Fault>)
    modifies sock
    ensures (r, sock.State()) == WriteSpec(old(sock.State()), filename, data, retries)
  {
    ghost var initial := sock.State();
    var a := SendAndAwaitAck(sock, Pack(Payload.Write(filename, Octet)), 0, retries);
    if a.Err? {
      return Err(a.error);
    }
    ghost var start := sock.State();
    WriteSpecStart(initial, filename, data, retries, start);
    var i: nat := 0;
    while MAX_DATA * i < |data|
      invariant WriteChunks(sock.State(), data, retries, i) == WriteChunks(start, data, retries, 0)
      decreases |data| - MAX_DATA * i
    {
      if i + 1 > MAX_BLOCK {
        return Err(Panic);
      }
      var chunk := if MAX_DATA * (i + 1) <= |data| then data[MAX_DATA * i..MAX_DATA * (i + 1)] else data[MAX_DATA * i..];
      assert chunk == Chunk(data, i);
      ghost var before := sock.State();
      a := SendAndAwaitAck(sock, Pack(Data(i + 1, chunk)), i + 1, retries);
      WriteChunksAt(before, data, retries, i, a, sock.State());
      if a.Err? {
        return Err(a.error);
      }
      i := i + 1;
    }
    r := Ok(());
  }
}
