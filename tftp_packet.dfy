// TFTP (RFC 1350, revision 2) packets as the TAPCP client builds and parses them:
// `Mode`, `ErrorCode`, `Payload::pack` and `Payload::unpack` of tapcp/src/tftp.rs.
module TftpPacket {
  import opened Wrappers
  import opened Bytes

  type u16 = x: int | 0 <= x < 0x1_0000

  /** Largest data block: the servers do not support the RFC 2348 block-size option. */
  const MAX_DATA: nat := 512

  datatype Mode = NetAscii | Octet

  /** The error codes of the RFC 1350 appendix. */
  datatype ErrorCode = NotDefined | NotFound | AccessViolation | Full | IllegalOp | UnknownId | FileExists | NoUser

  /**
   * Every way a TFTP exchange can fail: the protocol errors of the source's `Error` enum,
   * a `Utf8Error` from `from_utf8`, an I/O error from the socket, and a panic
   * (`unreachable!()` or a failed `expect`).
   */
  datatype Fault =
    | ErrorResponse(code: ErrorCode, msg: bytes)
    | BadMode(text: bytes)
    | Incomplete
    | BadOpcode
    | BadErrorCode
    | BadBlock(block: u16)
    | Timeout
    | Utf8Error
    | IoError
    | Panic

  datatype Payload =
    | Read(filename: bytes, mode: Mode)
    | Write(filename: bytes, mode: Mode)
    | Data(block: u16, data: bytes)
    | Ack(block: u16)
    | Error(code: ErrorCode, msg: bytes)

  // ---------------------------------------------------------------------------
  // Mode
  // ---------------------------------------------------------------------------

  /** `Display for Mode`: always lowercase. */
  function ModeText(m: Mode): (r: bytes)
    ensures r == (if m == NetAscii then NETASCII else OCTET)
  {
    match m
    case NetAscii => NETASCII
    case Octet => OCTET
  }

  /** "netascii" */
  const NETASCII: bytes := [0x6E, 0x65, 0x74, 0x61, 0x73, 0x63, 0x69, 0x69]
  /** "octet" */
  const OCTET: bytes := [0x6F, 0x63, 0x74, 0x65, 0x74]

  /** The two mode names are lowercase ASCII without NUL, and differ. */
  lemma {:induction false} ModeNames()
    ensures AsciiLower(NETASCII) == NETASCII && AsciiLower(OCTET) == OCTET
    ensures IsAscii(NETASCII) && IsAscii(OCTET) && 0 !in NETASCII && 0 !in OCTET
    ensures NETASCII != OCTET
  {
    assert |NETASCII| != |OCTET|;
  }

  /** `FromStr for Mode`: case-insensitive; anything else is `BadMode` carrying the original text. */
  function ParseMode(s: bytes): (r: Result<Mode, Fault>)
  {
    var lower := AsciiLower(s);
    if lower == NETASCII then Ok(NetAscii)
    else if lower == OCTET then Ok(Octet)
    else Err(BadMode(s))
  }

  /** Mode parsing accepts exactly the texts whose lowercase form is a mode name, and inverts `ModeText`. */
  lemma {:induction false} ParseModeCharacterised(s: bytes)
    ensures ParseMode(s).Ok? <==> AsciiLower(s) == ModeText(NetAscii) || AsciiLower(s) == ModeText(Octet)
    ensures ParseMode(s).Ok? ==> ModeText(ParseMode(s).value) == AsciiLower(s)
    ensures ParseMode(s).Err? ==> ParseMode(s) == Err(BadMode(s))
  {
  }

  lemma {:induction false} ParseModeText(m: Mode)
    ensures ParseMode(ModeText(m)) == Ok(m)
  {
    ModeNames();
  }

  // ---------------------------------------------------------------------------
  // Error codes (`ToPrimitive` / `FromPrimitive`)
  // ---------------------------------------------------------------------------

  function ErrorCodeValue(c: ErrorCode): (v: u16)
    ensures v <= 7
  {
    match c
    case NotDefined => 0
    case NotFound => 1
    case AccessViolation => 2
    case Full => 3
    case IllegalOp => 4
    case UnknownId => 5
    case FileExists => 6
    case NoUser => 7
  }

  function ErrorCodeFromU16(v: nat): (r: Option<ErrorCode>)
    ensures r.Some? <==> v <= 7
    ensures r.Some? ==> ErrorCodeValue(r.value) == v
  {
    if v == 0 then Some(NotDefined)
    else if v == 1 then Some(NotFound)
    else if v == 2 then Some(AccessViolation)
    else if v == 3 then Some(Full)
    else if v == 4 then Some(IllegalOp)
    else if v == 5 then Some(UnknownId)
    else if v == 6 then Some(FileExists)
    else if v == 7 then Some(NoUser)
    else None
  }

  lemma {:induction false} ErrorCodeRoundTrip(c: ErrorCode)
    ensures ErrorCodeFromU16(ErrorCodeValue(c)) == Some(c)
  {
  }

  // ---------------------------------------------------------------------------
  // pack / unpack
  // ---------------------------------------------------------------------------

  function Opcode(p: Payload): (op: u16)
    ensures 1 <= op <= 5
  {
    match p
    case Read(_, _) => 1
    case Write(_, _) => 2
    case Data(_, _) => 3
    case Ack(_) => 4
    case Error(_, _) => 5
  }

  /** `u16::to_be_bytes`. */
  function U16Be(x: u16): (r: bytes)
    ensures |r| == 2 && r[0] as int * 256 + r[1] as int == x
  {
    [x / 256, x % 256]
  }

  /** `u16::from_be_bytes` of the first two bytes; the inverse of `U16Be`. */
  function ReadU16(s: bytes): (x: u16)
    requires |s| >= 2
    ensures U16Be(x) == s[..2]
  {
    s[0] as int * 256 + s[1] as int
  }

  /** What `pack` writes after the opcode. */
  function PackBody(p: Payload): (r: bytes)
    ensures |r| >= 2
  {
    match p
    case Read(f, m) => f + [0] + ModeText(m) + [0]
    case Write(f, m) => f + [0] + ModeText(m) + [0]
    case Data(b, d) => U16Be(b) + d
    case Ack(b) => U16Be(b)
    case Error(c, msg) => U16Be(ErrorCodeValue(c)) + msg + [0]
  }

  /** `Payload::pack`: the datagram for a payload, its opcode first. */
  function Pack(p: Payload): (r: bytes)
    ensures |r| >= 4 && ReadU16(r) == Opcode(p)
  {
    var r := U16Be(Opcode(p)) + PackBody(p);
    assert r[..2] == U16Be(Opcode(p));
    r
  }

  /** A NUL-terminated string field at the start of `s`: its text, checked as UTF-8, and what follows the NUL. */
  function CString(s: bytes): (r: Result<(bytes, bytes), Fault>)
    ensures r.Ok? ==> s == r.value.0 + [0] + r.value.1 && 0 !in r.value.0 && ValidUtf8(r.value.0)
    ensures r.Ok? ==> IndexOf(s, 0) == Some(|r.value.0|)
    ensures r.Err? ==> (0 !in s && r.error == Incomplete) || r.error == Utf8Error
    ensures 0 !in s <==> r == Err(Incomplete)
  {
    match IndexOf(s, 0)
    case None => Err(Incomplete)
    case Some(i) =>
      if !ValidUtf8(s[..i]) then Err(Utf8Error)
      else
        assert s == s[..i] + [0] + s[i + 1..];
        Ok((s[..i], s[i + 1..]))
  }

  /** `Payload::unpack`: parse a received datagram. */
  function Unpack(b: bytes): (r: Result<Payload, Fault>)
    ensures |b| < 4 ==> r == Err(Incomplete)
    ensures |b| >= 4 && !(1 <= ReadU16(b) <= 5) ==> r == Err(BadOpcode)
    ensures |b| >= 4 && ReadU16(b) == 5 && ReadU16(b[2..]) > 7 ==> r == Err(BadErrorCode)
    ensures |b| >= 4 && (ReadU16(b) == 1 || ReadU16(b) == 2) && 0 !in b[2..] ==> r == Err(Incomplete)
    ensures |b| >= 4 && (ReadU16(b) == 1 || ReadU16(b) == 2) && CString(b[2..]).Ok? && 0 !in CString(b[2..]).value.1 ==>
      r == Err(Incomplete)
    ensures |b| >= 4 && ReadU16(b) == 5 && ReadU16(b[2..]) <= 7 && 0 !in b[4..] ==> r == Err(Incomplete)
    ensures r.Ok? ==> Opcode(r.value) == ReadU16(b)
  {
    if |b| < 4 then Err(Incomplete)
    else
      assert b[2..][2..] == b[4..];
      UnpackBody(ReadU16(b), b[2..])
  }

  /** `unpack` after the opcode has been read. */
  function UnpackBody(opcode: u16, rest: bytes): (r: Result<Payload, Fault>)
    requires |rest| >= 2
    ensures !(1 <= opcode <= 5) ==> r == Err(BadOpcode)
    ensures opcode == 5 && ReadU16(rest) > 7 ==> r == Err(BadErrorCode)
    ensures (opcode == 1 || opcode == 2) && 0 !in rest ==> r == Err(Incomplete)
    ensures (opcode == 1 || opcode == 2) && CString(rest).Ok? && 0 !in CString(rest).value.1 ==> r == Err(Incomplete)
    ensures opcode == 5 && ReadU16(rest) <= 7 && 0 !in rest[2..] ==> r == Err(Incomplete)
    ensures r.Ok? ==> Opcode(r.value) == opcode
  {
    if opcode == 1 || opcode == 2 then UnpackRequest(opcode == 1, rest)
    else if opcode == 3 then Ok(Data(ReadU16(rest), rest[2..]))
    else if opcode == 4 then Ok(Ack(ReadU16(rest)))
    else if opcode == 5 then UnpackError(rest)
    else Err(BadOpcode)
  }

  /** The body of an RRQ (`isRead`) or WRQ: filename, NUL, mode, NUL; trailing bytes are ignored. */
  function UnpackRequest(isRead: bool, rest: bytes): (r: Result<Payload, Fault>)
    ensures r.Ok? ==> r.value.Read? == isRead && (r.value.Read? || r.value.Write?)
    ensures r.Ok? ==> CString(rest).Ok? && r.value.filename == CString(rest).value.0
    ensures 0 !in rest ==> r == Err(Incomplete)
    ensures CString(rest).Ok? && 0 !in CString(rest).value.1 ==> r == Err(Incomplete)
  {
    match CString(rest)
    case Err(e) => Err(e)
    case Ok((filename, after)) =>
      match CString(after)
      case Err(e) => Err(e)
      case Ok((modeText, _)) =>
        match ParseMode(modeText)
        case Err(e) => Err(e)
        case Ok(mode) => Ok(if isRead then Read(filename, mode) else Write(filename, mode))
  }

  /** The body of an ERROR packet: code, message, NUL; trailing bytes are ignored. */
  function UnpackError(rest: bytes): (r: Result<Payload, Fault>)
    requires |rest| >= 2
    ensures ReadU16(rest) > 7 ==> r == Err(BadErrorCode)
    ensures r.Ok? ==> r.value.Error? && ErrorCodeValue(r.value.code) == ReadU16(rest)
    ensures r.Ok? ==> CString(rest[2..]).Ok? && r.value.msg == CString(rest[2..]).value.0
    ensures ReadU16(rest) <= 7 && 0 !in rest[2..] ==> r == Err(Incomplete)
  {
    match ErrorCodeFromU16(ReadU16(rest))
    case None => Err(BadErrorCode)
    case Some(code) =>
      match CString(rest[2..])
      case Err(e) => Err(e)
      case Ok((msg, _)) => Ok(Error(code, msg))
  }

  /** The strings of a payload can travel in a NUL-terminated field and pass `from_utf8`. */
  predicate Packable(p: Payload) {
    match p
    case Read(f, _) => 0 !in f && ValidUtf8(f)
    case Write(f, _) => 0 !in f && ValidUtf8(f)
    case Error(_, msg) => 0 !in msg && ValidUtf8(msg)
    case _ => true
  }

  lemma {:induction false} U16BeInjective(x: u16, y: u16)
    requires U16Be(x) == U16Be(y)
    ensures x == y
  {
  }

  /** `unpack` reads the opcode that heads a datagram and hands it the rest. */
  lemma {:induction false} UnpackHead(opcode: u16, body: bytes)
    requires |body| >= 2
    ensures Unpack(U16Be(opcode) + body) == UnpackBody(opcode, body)
  {
    var b := U16Be(opcode) + body;
    assert b[..2] == U16Be(opcode) && b[2..] == body;
    U16BeInjective(ReadU16(b), opcode);
  }

  lemma {:induction false} CStringOf(text: bytes, tail: bytes)
    requires 0 !in text && ValidUtf8(text)
    ensures CString(text + [0] + tail) == Ok((text, tail))
  {
    var s := text + [0] + tail;
    assert s[|text|] == 0;
    assert s[..|text|] == text;
    IndexOfAt(s, 0, |text|);
    assert s[|text| + 1..] == tail;
  }

  lemma {:induction false} UnpackRequestOf(isRead: bool, f: bytes, m: Mode)
    requires 0 !in f && ValidUtf8(f)
    ensures UnpackRequest(isRead, f + [0] + ModeText(m) + [0]) == Ok(if isRead then Read(f, m) else Write(f, m))
  {
    assert f + [0] + ModeText(m) + [0] == f + [0] + (ModeText(m) + [0]);
    CStringOf(f, ModeText(m) + [0]);
    ModeNames();
    AsciiIsUtf8(ModeText(m));
    CStringOf(ModeText(m), []);
    assert ModeText(m) + [0] == ModeText(m) + [0] + [];
    ParseModeText(m);
  }

  lemma {:induction false} UnpackErrorOf(c: ErrorCode, msg: bytes)
    requires 0 !in msg && ValidUtf8(msg)
    ensures UnpackError(U16Be(ErrorCodeValue(c)) + msg + [0]) == Ok(Error(c, msg))
  {
    var rest := U16Be(ErrorCodeValue(c)) + msg + [0];
    assert rest[..2] == U16Be(ErrorCodeValue(c));
    U16BeInjective(ReadU16(rest), ErrorCodeValue(c));
    ErrorCodeRoundTrip(c);
    assert rest[2..] == msg + [0] + [];
    CStringOf(msg, []);
  }

  /** The body of every packable payload parses back to that payload. */
  lemma {:induction false} UnpackBodyPackBody(p: Payload)
    requires Packable(p)
    ensures UnpackBody(Opcode(p), PackBody(p)) == Ok(p)
  {
    match p
    case Read(f, m) => UnpackRequestOf(true, f, m);
    case Write(f, m) => UnpackRequestOf(false, f, m);
    case Data(blk, d) =>
      assert PackBody(p)[..2] == U16Be(blk);
      U16BeInjective(ReadU16(PackBody(p)), blk);
      assert PackBody(p)[2..] == d;
    case Ack(blk) =>
      assert PackBody(p)[..2] == U16Be(blk);
      U16BeInjective(ReadU16(PackBody(p)), blk);
    case Error(c, msg) => UnpackErrorOf(c, msg);
  }

  /** `unpack(pack(p)) == p` whenever the strings of p are NUL-free and valid UTF-8. */
  lemma {:induction false} UnpackPack(p: Payload)
    requires Packable(p)
    ensures Unpack(Pack(p)) == Ok(p)
  {
    UnpackHead(Opcode(p), PackBody(p));
    UnpackBodyPackBody(p);
  }

  /** Anything `unpack` accepts survives another `pack`/`unpack` cycle unchanged. */
  lemma {:induction false} UnpackIdempotent(b: bytes)
    requires Unpack(b).Ok?
    ensures Unpack(Pack(Unpack(b).value)) == Unpack(b)
  {
    var p := Unpack(b).value;
    assert Packable(p);
    UnpackPack(p);
  }

  /**
   * A datagram with nothing `unpack` would drop: no bytes after the last field, and a
   * mode spelled in lowercase.
   */
  predicate Canonical(b: bytes) {
    |b| >= 4 &&
    var op := ReadU16(b);
    if op == 1 || op == 2 then CanonicalRequest(b[2..])
    else if op == 4 then |b| == 4
    else if op == 5 then |b| >= 5 && b[|b| - 1] == 0 && 0 !in b[4..|b| - 1]
    else true
  }

  /** A request body that ends with the NUL after a lowercase mode name. */
  predicate CanonicalRequest(rest: bytes) {
    var nul := IndexOf(rest, 0);
    nul.Some? && nul.value + 1 < |rest| && rest[|rest| - 1] == 0 &&
    (rest[nul.value + 1..|rest| - 1] == NETASCII || rest[nul.value + 1..|rest| - 1] == OCTET)
  }

  /** A canonical request body is filename, NUL, a lowercase mode name, NUL. */
  lemma {:induction false} CanonicalRequestShape(rest: bytes) returns (f: bytes, m: Mode)
    requires CanonicalRequest(rest)
    ensures rest == f + [0] + ModeText(m) + [0]
    ensures IndexOf(rest, 0) == Some(|f|) && f == rest[..|f|]
  {
    var i := IndexOf(rest, 0).value;
    f := rest[..i];
    var text := rest[i + 1..|rest| - 1];
    m := if text == NETASCII then NetAscii else Octet;
    var tail := rest[i + 1..];
    assert rest == f + [0] + tail;
    assert tail == text + [0];
  }

  /** The filename of an accepted request is the text before its first NUL. */
  lemma {:induction false} AcceptedRequestFilename(isRead: bool, rest: bytes, f: bytes)
    requires UnpackRequest(isRead, rest).Ok?
    requires IndexOf(rest, 0) == Some(|f|) && f == rest[..|f|]
    ensures ValidUtf8(f) && UnpackRequest(isRead, rest).value.filename == f
  {
    var cs := CString(rest).value;
    assert |cs.0| == |f|;
    assert cs.0 == rest[..|f|];
  }

  lemma {:induction false} PackBodyUnpackRequest(b: bytes)
    requires Canonical(b) && (ReadU16(b) == 1 || ReadU16(b) == 2) && Unpack(b).Ok?
    ensures PackBody(Unpack(b).value) == b[2..]
  {
    var isRead := ReadU16(b) == 1;
    var rest := b[2..];
    var f, m := CanonicalRequestShape(rest);
    assert Unpack(b) == UnpackRequest(isRead, rest);
    AcceptedRequestFilename(isRead, rest, f);
    UnpackRequestOf(isRead, f, m);
  }

  /** An accepted ERROR body that ends at its NUL packs back to itself. */
  lemma {:induction false} PackBodyUnpackError(rest: bytes)
    requires |rest| >= 3 && rest[|rest| - 1] == 0 && 0 !in rest[2..|rest| - 1] && UnpackError(rest).Ok?
    ensures PackBody(UnpackError(rest).value) == rest
  {
    var msg := rest[2..|rest| - 1];
    assert rest[2..] == msg + [0] + [];
    CStringTextOf(rest[2..], msg);
    assert rest == rest[..2] + msg + [0];
    assert rest[..2] == U16Be(ReadU16(rest));
  }

  lemma {:induction false} CStringTextOf(s: bytes, text: bytes)
    requires CString(s).Ok? && s == text + [0] + [] && 0 !in text
    ensures CString(s).value.0 == text && ValidUtf8(text)
  {
    IndexOfAt(s, 0, |text|);
    assert s[..|text|] == text;
  }

  /** `pack(unpack(b)) == b` for every canonical datagram that `unpack` accepts. */
  lemma {:induction false} PackUnpack(b: bytes)
    requires Canonical(b) && Unpack(b).Ok?
    ensures Pack(Unpack(b).value) == b
  {
    var p := Unpack(b).value;
    var op := ReadU16(b);
    var rest := b[2..];
    assert b == U16Be(op) + rest;
    assert Unpack(b) == UnpackBody(op, rest);
    if op == 1 || op == 2 {
      PackBodyUnpackRequest(b);
    } else if op == 3 {
      assert rest == U16Be(ReadU16(rest)) + rest[2..];
    } else if op == 4 {
      assert rest == U16Be(ReadU16(rest));
    } else {
      assert rest[|rest| - 1] == b[|b| - 1] && rest[2..|rest| - 1] == b[4..|b| - 1];
      PackBodyUnpackError(rest);
    }
  }

  // ---------------------------------------------------------------------------
  // The source's own packet vectors
  // ---------------------------------------------------------------------------

  /** "/foo", the file name of the source's packet tests. */
  const FOO: bytes := [0x2F, 0x66, 0x6F, 0x6F]
  /** "Full", the error message of the source's packet tests. */
  const FULL: bytes := [0x46, 0x75, 0x6C, 0x6C]

  lemma {:induction false} PackVectors()
    ensures Pack(Read(FOO, Octet)) == [0, 1] + FOO + [0] + OCTET + [0]
    ensures Pack(Write(FOO, Octet)) == [0, 2] + FOO + [0] + OCTET + [0]
    ensures Pack(Data(1, [0xDE, 0xAD, 0xBE, 0xEF])) == [0, 3, 0, 1, 0xDE, 0xAD, 0xBE, 0xEF]
    ensures Pack(Ack(1)) == [0, 4, 0, 1]
    ensures Pack(Error(Full, FULL)) == [0, 5, 0, 3] + FULL + [0]
  {
    PackRequestVectors();
    PackErrorVector();
  }

  lemma PackRequestVectors()
    ensures Pack(Read(FOO, Octet)) == [0, 1] + FOO + [0] + OCTET + [0]
    ensures Pack(Write(FOO, Octet)) == [0, 2] + FOO + [0] + OCTET + [0]
  {
    var body := FOO + [0] + OCTET + [0];
    assert PackBody(Read(FOO, Octet)) == body && PackBody(Write(FOO, Octet)) == body;
    assert U16Be(1) == [0, 1] && U16Be(2) == [0, 2];
  }

  lemma PackErrorVector()
    ensures Pack(Error(Full, FULL)) == [0, 5, 0, 3] + FULL + [0]
  {
    assert ErrorCodeValue(Full) == 3 && U16Be(3) == [0, 3] && U16Be(5) == [0, 5];
    assert PackBody(Error(Full, FULL)) == [0, 3] + FULL + [0];
  }

  /**
   * The data and ack datagrams of the source's round-trip tests parse to the payloads that
   * pack to them (`PackVectors`), so `pack(unpack(b)) == b` for them.
   */
  lemma {:induction false} UnpackVectors()
    ensures Unpack([0, 3, 0, 1, 0xDE, 0xAD, 0xBE, 0xEF]) == Ok(Data(1, [0xDE, 0xAD, 0xBE, 0xEF]))
    ensures Unpack([0, 4, 0, 1]) == Ok(Ack(1))
  {
    PackVectors();
    UnpackPack(Data(1, [0xDE, 0xAD, 0xBE, 0xEF]));
    UnpackPack(Ack(1));
  }
}
