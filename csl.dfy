// The pure-Rust Compact Sorted List reader of casper_utils/src/csl.rs: a payload width, a first
// key written out in full, then prefix-compressed keys up to a (0, 0) header/tail pair.
module Csl {
  import opened Wrappers
  import opened Bytes

  /** `csl::Error`, plus `Panic` for the string slice that panics on a bad header length. */
  datatype CslError = Parse | Utf8 | Panic

  /** One decoded `(String, Vec<u8>)` pair, the key as its UTF-8 bytes. */
  datatype Entry = Entry(key: bytes, payload: bytes)

  /** `&prev[..n]` succeeds: `n` is within the string and lands on a character boundary. */
  predicate CanCut(prev: bytes, n: nat) {
    n <= |prev| && IsCharBoundary(prev, n)
  }

  /** `from_bytes`: the payload width, the first key and payload, then the prefix-compressed rest. */
  function Decode(b: bytes): Result<seq<Entry>, CslError> {
    if |b| < 2 then Err(Parse)
    else
      var payloadN := b[0] as nat;
      var keyN := b[1] as nat;
      if 2 + keyN > |b| then Err(Parse)
      else if !Utf8In(b, 2, 2 + keyN) then Err(Utf8)
      else if 2 + keyN + payloadN > |b| then Err(Parse)
      else DecodeRest(b, payloadN, 2 + keyN + payloadN, [Entry(b[2..2 + keyN], b[2 + keyN..2 + keyN + payloadN])])
  }

  /** The `loop` of `from_bytes` with the cursor at `ptr` and `v` decoded so far: the header pair. */
  function DecodeRest(b: bytes, payloadN: nat, ptr: nat, v: seq<Entry>): Result<seq<Entry>, CslError>
    requires ptr <= |b| && |v| > 0
    decreases |b| - ptr, 1
  {
    if ptr + 2 > |b| then Err(Parse)
    else if b[ptr] == 0 && b[ptr + 1] == 0 then Ok(v)
    else DecodeEntry(b, payloadN, ptr + 2, b[ptr] as nat, b[ptr + 1] as nat, v)
  }

  /** The rest of one pass of the loop: the entry whose header pair (`headerN`, `tailN`) ends at `p`. */
  function DecodeEntry(b: bytes, payloadN: nat, p: nat, headerN: nat, tailN: nat, v: seq<Entry>)
    : Result<seq<Entry>, CslError>
    requires 2 <= p <= |b| && |v| > 0
    decreases |b| + 2 - p, 0
  {
    if !CanCut(v[|v| - 1].key, headerN) then Err(Panic)
    else if p + tailN > |b| then Err(Parse)
    else if !Utf8In(b, p, p + tailN) then Err(Utf8)
    else if p + tailN + payloadN > |b| then Err(Parse)
    else
      var key := v[|v| - 1].key[..headerN] + b[p..p + tailN];
      DecodeRest(b, payloadN, p + tailN + payloadN, v + [Entry(key, b[p + tailN..p + tailN + payloadN])])
  }

  /** `from_bytes`, with the result vector `v` grown as the cursor `ptr` advances. */
  method FromBytes(b: bytes) returns (r: Result<seq<Entry>, CslError>)
    ensures r == Decode(b)
  {
    if |b| == 0 {
      return Err(Parse);
    }
    var payloadN := b[0] as nat;
    var ptr := 1;
    if ptr >= |b| {
      return Err(Parse);
    }
    var keyN := b[ptr] as nat;
    ptr := ptr + 1;
    if ptr + keyN > |b| {
      return Err(Parse);
    }
    var keyBytes := b[ptr..ptr + keyN];
    if !Utf8In(b, ptr, ptr + keyN) {
      return Err(Utf8);
    }
    ptr := ptr + keyN;
    if ptr + payloadN > |b| {
      return Err(Parse);
    }
    var keyPl := b[ptr..ptr + payloadN];
    ptr := ptr + payloadN;
    r := DecodeLoop(b, payloadN, ptr, [Entry(keyBytes, keyPl)]);
  }

  /** The `loop` of `from_bytes`, entered with the cursor at `ptr` and the first entry decoded. */
  method DecodeLoop(b: bytes, payloadN: nat, ptr0: nat, v0: seq<Entry>) returns (r: Result<seq<Entry>, CslError>)
    requires ptr0 <= |b| && |v0| > 0
    ensures r == DecodeRest(b, payloadN, ptr0, v0)
  {
    var ptr, v := ptr0, v0;
    while true
      invariant ptr <= |b| && |v| > 0
      invariant DecodeRest(b, payloadN, ptr, v) == DecodeRest(b, payloadN, ptr0, v0)
      decreases |b| - ptr
    {
      ghost var start := ptr;
      if ptr >= |b| {
        return Err(Parse);
      }
      var headerN := b[ptr] as nat;
      ptr := ptr + 1;
      if ptr >= |b| {
        return Err(Parse);
      }
      var tailN := b[ptr] as nat;
      ptr := ptr + 1;
      if headerN == 0 && tailN == 0 {
        break;
      }
      ghost var p := ptr;
      DecodeRestEntry(b, payloadN, start, v, headerN, tailN, p);
      var prev := v[|v| - 1].key;
      if !CanCut(prev, headerN) {
        return Err(Panic);
      }
      var head := prev[..headerN];
      if ptr + tailN > |b| {
        return Err(Parse);
      }
      var tailBytes := b[ptr..ptr + tailN];
      if !Utf8In(b, ptr, ptr + tailN) {
        return Err(Utf8);
      }
      var key := head + tailBytes;
      ptr := ptr + tailN;
      if ptr + payloadN > |b| {
        return Err(Parse);
      }
      var next := ptr + payloadN;
      var payload := b[ptr..next];
      DecodeEntryNext(b, payloadN, p, headerN, tailN, v, ptr, next, key, payload);
      ptr := next;
      v := v + [Entry(key, payload)];
    }
    r := Ok(v);
  }

  /** A header pair (`headerN`, `tailN`) other than (0, 0) at `ptr` starts an entry at `p`. */
  lemma DecodeRestEntry(b: bytes, payloadN: nat, ptr: nat, v: seq<Entry>, headerN: nat, tailN: nat, p: nat)
    requires p == ptr + 2 && p <= |b| && |v| > 0
    requires headerN == b[ptr] as nat && tailN == b[ptr + 1] as nat && !(headerN == 0 && tailN == 0)
    ensures DecodeRest(b, payloadN, ptr, v) == DecodeEntry(b, payloadN, p, headerN, tailN, v)
  {
  }

  /**
   * An entry that passes every check, with its key tail at `p` and its payload at `mid`, is
   * appended and the loop goes on after the payload.
   */
  lemma DecodeEntryNext(b: bytes, payloadN: nat, p: nat, headerN: nat, tailN: nat, v: seq<Entry>,
                        mid: nat, next: nat, key: bytes, payload: bytes)
    requires 2 <= p && mid == p + tailN && next == mid + payloadN && next <= |b| && |v| > 0
    requires CanCut(v[|v| - 1].key, headerN) && Utf8In(b, p, p + tailN)
    requires key == v[|v| - 1].key[..headerN] + b[p..p + tailN] && payload == b[mid..next]
    ensures DecodeEntry(b, payloadN, p, headerN, tailN, v) ==
      DecodeRest(b, payloadN, next, v + [Entry(key, payload)])
  {
  }

  // ---------------------------------------------------------------------------
  // what a decoded list looks like
  // ---------------------------------------------------------------------------

  /** Every entry carries exactly `payloadN` payload bytes and a well-formed UTF-8 key. */
  predicate WellFormed(v: seq<Entry>, payloadN: nat) {
    forall i | 0 <= i < |v| :: |v[i].payload| == payloadN && ValidUtf8(v[i].key)
  }

  /** A successful decode from `v` keeps `v` as a prefix and every entry well formed. */
  predicate Extends(r: Result<seq<Entry>, CslError>, v: seq<Entry>, payloadN: nat) {
    r.Ok? ==> |r.value| >= |v| && r.value[..|v|] == v && WellFormed(r.value, payloadN)
  }

  lemma {:induction false} DecodeRestWellFormed(b: bytes, payloadN: nat, ptr: nat, v: seq<Entry>)
    requires ptr <= |b| && |v| > 0
    requires WellFormed(v, payloadN)
    ensures Extends(DecodeRest(b, payloadN, ptr, v), v, payloadN)
    decreases |b| - ptr, 1
  {
    if ptr + 2 <= |b| && !(b[ptr] == 0 && b[ptr + 1] == 0) {
      DecodeEntryWellFormed(b, payloadN, ptr + 2, b[ptr] as nat, b[ptr + 1] as nat, v);
    }
  }

  lemma {:induction false} DecodeEntryWellFormed(b: bytes, payloadN: nat, p: nat, headerN: nat, tailN: nat, v: seq<Entry>)
    requires 2 <= p <= |b| && |v| > 0
    requires WellFormed(v, payloadN)
    ensures Extends(DecodeEntry(b, payloadN, p, headerN, tailN, v), v, payloadN)
    decreases |b| + 2 - p, 0
  {
    if CanCut(v[|v| - 1].key, headerN) && p + tailN + payloadN <= |b| && Utf8In(b, p, p + tailN) {
      var prev := v[|v| - 1].key;
      var key := prev[..headerN] + b[p..p + tailN];
      assert ValidUtf8(key) by {
        assert ValidUtf8(v[|v| - 1].key);
        Utf8Prefix(prev, headerN);
        Utf8InSlice(b, p, p + tailN);
        Utf8Concat(prev[..headerN], b[p..p + tailN]);
      }
      var v' := v + [Entry(key, b[p + tailN..p + tailN + payloadN])];
      assert WellFormed(v', payloadN) by {
        forall i | 0 <= i < |v'|
          ensures |v'[i].payload| == payloadN && ValidUtf8(v'[i].key)
        {
          if i < |v| {
            assert v'[i] == v[i];
          }
        }
      }
      DecodeRestWellFormed(b, payloadN, p + tailN + payloadN, v');
      var r := DecodeEntry(b, payloadN, p, headerN, tailN, v);
      assert r == DecodeRest(b, payloadN, p + tailN + payloadN, v');
      if r.Ok? {
        assert r.value[..|v|] == r.value[..|v'|][..|v|];
      }
    }
  }

  /**
   * A successful decode is never empty, every payload is as wide as the first byte says, and
   * every key is well-formed UTF-8.
   */
  lemma DecodeWellFormed(b: bytes)
    ensures Decode(b).Ok? ==> |b| > 0 && |Decode(b).value| > 0 && WellFormed(Decode(b).value, b[0] as nat)
  {
    if |b| >= 2 {
      var payloadN := b[0] as nat;
      var keyN := b[1] as nat;
      if 2 + keyN + payloadN <= |b| && Utf8In(b, 2, 2 + keyN) {
        var v := [Entry(b[2..2 + keyN], b[2 + keyN..2 + keyN + payloadN])];
        Utf8InSlice(b, 2, 2 + keyN);
        assert WellFormed(v, payloadN);
        DecodeRestWellFormed(b, payloadN, 2 + keyN + payloadN, v);
      }
    }
  }

  // ---------------------------------------------------------------------------
  // the writer side: a sorted list in compact form
  // ---------------------------------------------------------------------------

  /** The length of the longest common prefix of `a` and `b`. */
  function CommonPrefix(a: bytes, b: bytes): (n: nat)
    ensures n <= |a| && n <= |b| && a[..n] == b[..n]
    ensures n < |a| && n < |b| ==> a[n] != b[n]
  {
    if a == [] || b == [] || a[0] != b[0] then 0
    else
      var n := 1 + CommonPrefix(a[1..], b[1..]);
      assert a[..n] == [a[0]] + a[1..][..n - 1];
      assert b[..n] == [b[0]] + b[1..][..n - 1];
      n
  }

  /** The header byte: how much of the previous key is reused, at most 255. */
  function Header(prev: bytes, key: bytes): (h: nat)
    ensures h < 256 && h <= |prev| && h <= |key| && prev[..h] == key[..h]
  {
    var n := CommonPrefix(prev, key);
    if n < 256 then n
    else
      assert prev[..255] == prev[..n][..255] && key[..255] == key[..n][..255];
      255
  }

  /** Every later key is non-empty (so it cannot read as the end mark) and its new part fits a byte. */
  predicate Chain(prev: bytes, rest: seq<Entry>)
    decreases |rest|
  {
    rest == [] ||
    (rest[0].key != [] && |rest[0].key| - Header(prev, rest[0].key) < 256 && Chain(rest[0].key, rest[1..]))
  }

  /** ASCII keys and payloads all `payloadN` bytes wide. */
  predicate AsciiEntries(v: seq<Entry>, payloadN: nat) {
    forall i | 0 <= i < |v| :: |v[i].payload| == payloadN && IsAscii(v[i].key)
  }

  /** A list the compact form can hold. */
  predicate Encodable(v: seq<Entry>, payloadN: nat) {
    |v| > 0 && payloadN < 256 && |v[0].key| < 256 && AsciiEntries(v, payloadN) && Chain(v[0].key, v[1..])
  }

  /** One later entry: header, tail length, the key bytes past the shared prefix, the payload. */
  function Piece(prev: bytes, e: Entry): (r: bytes)
    requires |e.key| - Header(prev, e.key) < 256
  {
    var h := Header(prev, e.key);
    [h, |e.key| - h] + e.key[h..] + e.payload
  }

  /** Each later entry compressed against the one before it. */
  function EncodeEntries(prev: bytes, rest: seq<Entry>): (r: bytes)
    requires Chain(prev, rest)
    decreases |rest|
  {
    if rest == [] then [] else Piece(prev, rest[0]) + EncodeEntries(rest[0].key, rest[1..])
  }

  /** The compact form: payload width, the first key in full, the rest compressed, then (0, 0). */
  function Encode(v: seq<Entry>, payloadN: nat): (r: bytes)
    requires Encodable(v, payloadN)
  {
    [payloadN, |v[0].key|] + v[0].key + v[0].payload + EncodeEntries(v[0].key, v[1..]) + [0, 0]
  }

  /** `b` holds `x + y` at `ptr`: it holds `x` there and `y` right after. */
  lemma SliceSplit(b: bytes, ptr: nat, x: bytes, y: bytes)
    requires ptr + |x| + |y| <= |b| && b[ptr..ptr + |x| + |y|] == x + y
    ensures b[ptr..ptr + |x|] == x && b[ptr + |x|..ptr + |x| + |y|] == y
  {
    assert b[ptr..ptr + |x|] == b[ptr..ptr + |x| + |y|][..|x|];
    assert b[ptr + |x|..ptr + |x| + |y|] == b[ptr..ptr + |x| + |y|][|x|..];
  }

  /** The same split, with the cut `mid` and the end `hi` given as positions in b. */
  lemma SliceSplitAt(b: bytes, ptr: nat, x: bytes, y: bytes, mid: nat, hi: nat)
    requires mid == ptr + |x| && hi == mid + |y|
    requires hi <= |b| && b[ptr..hi] == x + y
    ensures mid + |y| <= |b| && b[ptr..mid] == x && b[mid..mid + |y|] == y
  {
    SliceSplit(b, ptr, x, y);
  }

  lemma AsciiEntriesTail(v: seq<Entry>, payloadN: nat)
    requires v != [] && AsciiEntries(v, payloadN)
    ensures |v[0].payload| == payloadN && IsAscii(v[0].key) && AsciiEntries(v[1..], payloadN)
  {
    forall i | 0 <= i < |v[1..]|
      ensures |v[1..][i].payload| == payloadN && IsAscii(v[1..][i].key)
    {
      assert v[1..][i] == v[i + 1];
    }
  }

  /** The parts of a compressed entry `[h, t] + tail + payload` found at `ptr`. */
  lemma PieceSlices(b: bytes, ptr: nat, h: byte, t: byte, tail: bytes, payload: bytes, p: nat, mid: nat, next: nat)
    requires |tail| == t as nat && p == ptr + 2 && mid == p + |tail| && next == mid + |payload|
    requires next <= |b| && b[ptr..next] == [h, t] + tail + payload
    ensures b[ptr] == h && b[ptr + 1] == t
    ensures b[p..mid] == tail && b[mid..next] == payload
  {
    var x := [h, t] + tail;
    SliceSplit(b, ptr, x, payload);
    SliceSplit(b, ptr, [h, t], tail);
    assert b[ptr] == b[ptr..ptr + 2][0] && b[ptr + 1] == b[ptr..ptr + 2][1];
  }

  /** Between ASCII keys every cut falls on a character boundary and every tail is UTF-8. */
  lemma AsciiPiece(prev: bytes, key: bytes)
    requires IsAscii(prev) && IsAscii(key)
    ensures CanCut(prev, Header(prev, key)) && ValidUtf8(key[Header(prev, key)..])
  {
    var h := Header(prev, key);
    assert h < |prev| ==> prev[h] < 128;
    AsciiIsUtf8(key[h..]);
  }

  /** One compressed entry read back: the key is rebuilt from the previous key and the tail. */
  lemma DecodeRestStep(b: bytes, payloadN: nat, ptr: nat, done: seq<Entry>, e: Entry, next: nat)
    requires |done| > 0
    requires var prev := done[|done| - 1].key; var h := Header(prev, e.key);
      |e.key| > 0 && |e.payload| == payloadN && |e.key| - h < 256 && CanCut(prev, h) && ValidUtf8(e.key[h..])
    requires var piece := Piece(done[|done| - 1].key, e);
      next == ptr + |piece| && next <= |b| && b[ptr..next] == piece
    ensures DecodeRest(b, payloadN, ptr, done) == DecodeRest(b, payloadN, next, done + [e])
  {
    var prev := done[|done| - 1].key;
    var h := Header(prev, e.key);
    var t := |e.key| - h;
    var piece := Piece(prev, e);
    var p := ptr + 2;
    var mid := p + t;
    assert next == mid + payloadN;
    PieceSlices(b, ptr, h, t, e.key[h..], e.payload, p, mid, next);
    Utf8InSlice(b, p, mid);
    assert prev[..h] + b[p..mid] == e.key by {
      assert e.key == e.key[..h] + e.key[h..];
    }
    DecodeRestEntry(b, payloadN, ptr, done, h, t, p);
    DecodeEntryNext(b, payloadN, p, h, t, done, mid, next, e.key, e.payload);
  }

  /** The (0, 0) pair ends the list. */
  lemma DecodeRestEnd(b: bytes, payloadN: nat, ptr: nat, done: seq<Entry>)
    requires |done| > 0 && ptr + 2 <= |b| && b[ptr..ptr + 2] == [0, 0]
    ensures DecodeRest(b, payloadN, ptr, done) == Ok(done)
  {
    assert b[ptr] == b[ptr..ptr + 2][0] && b[ptr + 1] == b[ptr..ptr + 2][1];
  }

  /** The next entry of a chained ASCII list read back from its piece. */
  lemma DecodeRestNext(b: bytes, payloadN: nat, ptr: nat, done: seq<Entry>, rest: seq<Entry>, next: nat)
    requires |done| > 0 && IsAscii(done[|done| - 1].key) && rest != []
    requires Chain(done[|done| - 1].key, rest) && |rest[0].payload| == payloadN && IsAscii(rest[0].key)
    requires var piece := Piece(done[|done| - 1].key, rest[0]);
      next == ptr + |piece| && next <= |b| && b[ptr..next] == piece
    ensures DecodeRest(b, payloadN, ptr, done) == DecodeRest(b, payloadN, next, done + [rest[0]])
  {
    AsciiPiece(done[|done| - 1].key, rest[0].key);
    DecodeRestStep(b, payloadN, ptr, done, rest[0], next);
  }

  /** The compressed entries `rest` after the decoded `done`, then (0, 0), are at `ptr` in b. */
  predicate EncodedAt(b: bytes, payloadN: nat, ptr: nat, done: seq<Entry>, rest: seq<Entry>) {
    |done| > 0 && IsAscii(done[|done| - 1].key) &&
    Chain(done[|done| - 1].key, rest) && AsciiEntries(rest, payloadN) &&
    var enc := EncodeEntries(done[|done| - 1].key, rest) + [0, 0];
    ptr + |enc| <= |b| && b[ptr..ptr + |enc|] == enc
  }

  /** Reading the next entry of encoded entries leaves the rest encoded after it. */
  lemma EncodedAtNext(b: bytes, payloadN: nat, ptr: nat, done: seq<Entry>, rest: seq<Entry>, next: nat)
    requires EncodedAt(b, payloadN, ptr, done, rest) && rest != []
    requires next == ptr + |Piece(done[|done| - 1].key, rest[0])|
    ensures next <= |b|
    ensures DecodeRest(b, payloadN, ptr, done) == DecodeRest(b, payloadN, next, done + [rest[0]])
    ensures EncodedAt(b, payloadN, next, done + [rest[0]], rest[1..])
  {
    var prev := done[|done| - 1].key;
    var e := rest[0];
    var piece := Piece(prev, e);
    var enc' := EncodeEntries(e.key, rest[1..]) + [0, 0];
    var whole := EncodeEntries(prev, rest) + [0, 0];
    assert whole == piece + enc';
    SliceSplitAt(b, ptr, piece, enc', next, ptr + |whole|);
    AsciiEntriesTail(rest, payloadN);
    DecodeRestNext(b, payloadN, ptr, done, rest, next);
    assert (done + [e])[|done + [e]| - 1] == e;
  }

  /** With no entries left, the end mark comes next. */
  lemma EncodedAtEnd(b: bytes, payloadN: nat, ptr: nat, done: seq<Entry>)
    requires EncodedAt(b, payloadN, ptr, done, [])
    ensures DecodeRest(b, payloadN, ptr, done) == Ok(done)
  {
    assert EncodeEntries(done[|done| - 1].key, []) + [0, 0] == [0, 0];
    DecodeRestEnd(b, payloadN, ptr, done);
  }

  lemma {:induction false} DecodeRestEncoded(b: bytes, payloadN: nat, ptr: nat, done: seq<Entry>, rest: seq<Entry>)
    requires EncodedAt(b, payloadN, ptr, done, rest)
    ensures DecodeRest(b, payloadN, ptr, done) == Ok(done + rest)
    decreases |rest|
  {
    if rest == [] {
      EncodedAtEnd(b, payloadN, ptr, done);
      assert done + rest == done;
    } else {
      var next := ptr + |Piece(done[|done| - 1].key, rest[0])|;
      EncodedAtNext(b, payloadN, ptr, done, rest, next);
      DecodeRestEncoded(b, payloadN, next, done + [rest[0]], rest[1..]);
      EncodedAtStep(b, payloadN, ptr, done, rest, next);
    }
  }

  /** Decoding from ptr yields what decoding from the next entry yields, with that entry in front. */
  lemma EncodedAtStep(b: bytes, payloadN: nat, ptr: nat, done: seq<Entry>, rest: seq<Entry>, next: nat)
    requires rest != [] && |done| > 0 && ptr <= |b| && next <= |b|
    requires DecodeRest(b, payloadN, ptr, done) == DecodeRest(b, payloadN, next, done + [rest[0]])
    requires DecodeRest(b, payloadN, next, done + [rest[0]]) == Ok(done + [rest[0]] + rest[1..])
    ensures DecodeRest(b, payloadN, ptr, done) == Ok(done + rest)
  {
    assert rest == [rest[0]] + rest[1..];
    AppendAssoc(done, [rest[0]], rest[1..]);
  }

  /** The first entry read back: the payload width, then the key in full. */
  lemma DecodeFirst(b: bytes, payloadN: nat, first: Entry)
    requires payloadN < 256 && |first.key| < 256 && |first.payload| == payloadN && IsAscii(first.key)
    requires var head := [payloadN, |first.key|] + first.key + first.payload;
      |head| <= |b| && b[..|head|] == head
    ensures Decode(b) == DecodeRest(b, payloadN, 2 + |first.key| + payloadN, [first])
  {
    var keyN := |first.key|;
    SliceSplit(b, 0, [payloadN, keyN] + first.key, first.payload);
    SliceSplit(b, 0, [payloadN, keyN], first.key);
    assert b[0] == b[0..2][0] && b[1] == b[0..2][1];
    AsciiIsUtf8(first.key);
    Utf8InSlice(b, 2, 2 + keyN);
  }

  lemma FirstRest(v: seq<Entry>)
    requires v != []
    ensures [v[0]] + v[1..] == v
  {
  }

  /** A byte string that starts with the first entry and continues with the compressed rest. */
  lemma DecodeLayout(b: bytes, v: seq<Entry>, payloadN: nat)
    requires Encodable(v, payloadN)
    requires var head := [payloadN, |v[0].key|] + v[0].key + v[0].payload;
      var enc := EncodeEntries(v[0].key, v[1..]) + [0, 0];
      |head| + |enc| <= |b| && b[..|head|] == head && b[|head|..|head| + |enc|] == enc
    ensures Decode(b) == Ok(v)
  {
    var head := [payloadN, |v[0].key|] + v[0].key + v[0].payload;
    AsciiEntriesTail(v, payloadN);
    DecodeFirst(b, payloadN, v[0]);
    DecodeRestEncoded(b, payloadN, |head|, [v[0]], v[1..]);
    FirstRest(v);
  }

  /** Reading back the compact form of a list gives the list. */
  lemma EncodeDecode(v: seq<Entry>, payloadN: nat)
    requires Encodable(v, payloadN)
    ensures Decode(Encode(v, payloadN)) == Ok(v)
  {
    var b := Encode(v, payloadN);
    var head := [payloadN, |v[0].key|] + v[0].key + v[0].payload;
    var enc := EncodeEntries(v[0].key, v[1..]) + [0, 0];
    assert b == head + enc;
    SliceSplit(b, 0, head, enc);
    DecodeLayout(b, v, payloadN);
  }

  /** `n` is the common prefix length when the first `n` bytes agree and the next ones do not. */
  lemma {:induction false} CommonPrefixIs(a: bytes, b: bytes, n: nat)
    requires n <= |a| && n <= |b| && a[..n] == b[..n]
    requires n == |a| || n == |b| || a[n] != b[n]
    ensures CommonPrefix(a, b) == n
    decreases n
  {
    if n > 0 {
      assert a[0] == a[..n][0] == b[..n][0] == b[0];
      assert a[1..][..n - 1] == a[..n][1..] == b[..n][1..] == b[1..][..n - 1];
      assert n - 1 == |a[1..]| || n - 1 == |b[1..]| || a[1..][n - 1] != b[1..][n - 1];
      CommonPrefixIs(a[1..], b[1..], n - 1);
    }
  }

  /** The compressed form of `e` after `prev` when they share exactly `h` bytes and `tail` follows. */
  lemma PieceFrom(prev: bytes, e: Entry, h: nat, tail: bytes)
    requires h < 256 && |tail| < 256 && h <= |prev| && e.key == prev[..h] + tail
    requires h == |prev| || tail == [] || prev[h] != tail[0]
    ensures |e.key| - Header(prev, e.key) < 256 && Piece(prev, e) == [h, |tail|] + tail + e.payload
  {
    assert e.key[..h] == prev[..h] && e.key[h..] == tail;
    CommonPrefixIs(prev, e.key, h);
  }

  // ---------------------------------------------------------------------------
  // the list of the `test_from_csl` test
  // ---------------------------------------------------------------------------

  /** "adc16_wb_ram1" */
  const K1: bytes := [97, 100, 99, 49, 54, 95, 119, 98, 95, 114, 97, 109, 49]
  /** "adc16_wb_ram2" */
  const K2: bytes := [97, 100, 99, 49, 54, 95, 119, 98, 95, 114, 97, 109, 50]
  /** "eq_0_gain" */
  const K3: bytes := [101, 113, 95, 48, 95, 103, 97, 105, 110]
  /** "eq_1_gain" */
  const K4: bytes := [101, 113, 95, 49, 95, 103, 97, 105, 110]
  /** "eth_0_bframes" */
  const K5: bytes := [101, 116, 104, 95, 48, 95, 98, 102, 114, 97, 109, 101, 115]
  /** "eth_0_core" */
  const K6: bytes := [101, 116, 104, 95, 48, 95, 99, 111, 114, 101]

  /** The compressed entries of the test: header, tail length, tail, payload. */
  const P2: bytes := [0x0C, 0x01] + [50] + [0x02]
  const P3: bytes := [0x00, 0x09] + K3 + [0x03]
  const P4: bytes := [0x03, 0x06] + [49, 95, 103, 97, 105, 110] + [0x04]
  const P5: bytes := [0x01, 0x0C] + [116, 104, 95, 48, 95, 98, 102, 114, 97, 109, 101, 115] + [0x05]
  const P6: bytes := [0x06, 0x04] + [99, 111, 114, 101] + [0x06]

  /** The bytes of the test, as the Rust array spells them. */
  const TEST_CSL: bytes := [0x01, 0x0D] + K1 + [0x01] + (P2 + (P3 + (P4 + (P5 + (P6 + []))))) + [0x00, 0x00]

  const E2: Entry := Entry(K2, [2])
  const E3: Entry := Entry(K3, [3])
  const E4: Entry := Entry(K4, [4])
  const E5: Entry := Entry(K5, [5])
  const E6: Entry := Entry(K6, [6])
  const TEST_ENTRIES: seq<Entry> := [Entry(K1, [1]), E2, E3, E4, E5, E6]

  lemma Piece2()
    ensures |K2| - Header(K1, K2) < 256 && Piece(K1, E2) == P2
  {
    PieceFrom(K1, E2, 12, [50]);
  }

  lemma Piece3()
    ensures |K3| - Header(K2, K3) < 256 && Piece(K2, E3) == P3
  {
    PieceFrom(K2, E3, 0, K3);
  }

  lemma Piece4()
    ensures |K4| - Header(K3, K4) < 256 && Piece(K3, E4) == P4
  {
    PieceFrom(K3, E4, 3, [49, 95, 103, 97, 105, 110]);
  }

  lemma Piece5()
    ensures |K5| - Header(K4, K5) < 256 && Piece(K4, E5) == P5
  {
    PieceFrom(K4, E5, 1, [116, 104, 95, 48, 95, 98, 102, 114, 97, 109, 101, 115]);
  }

  lemma Piece6()
    ensures |K6| - Header(K5, K6) < 256 && Piece(K5, E6) == P6
  {
    PieceFrom(K5, E6, 6, [99, 111, 114, 101]);
  }

  /** The test's bytes are the compact form of its six keys with one-byte payloads 1 to 6. */
  lemma TestVectorIsEncoding()
    ensures Encodable(TEST_ENTRIES, 1) && Encode(TEST_ENTRIES, 1) == TEST_CSL
  {
    var v := TEST_ENTRIES;
    assert v[0] == Entry(K1, [1]) && |K1| == 13;
    assert v[1..] == [E2, E3, E4, E5, E6];
    TestTail();
    TestAscii();
  }

  lemma TestAscii()
    ensures AsciiEntries(TEST_ENTRIES, 1)
  {
    assert IsAscii(K1) && IsAscii(K2) && IsAscii(K3) && IsAscii(K4) && IsAscii(K5) && IsAscii(K6);
  }

  /** The five compressed entries of the test, chained and encoded one at a time. */
  lemma TestTail()
    ensures Chain(K1, [E2, E3, E4, E5, E6])
    ensures EncodeEntries(K1, [E2, E3, E4, E5, E6]) == P2 + (P3 + (P4 + (P5 + (P6 + []))))
  {
    Piece2();
    Piece3();
    TestTailFrom4();
    assert [E3, E4, E5, E6][1..] == [E4, E5, E6];
    assert Chain(K2, [E3, E4, E5, E6]) && EncodeEntries(K2, [E3, E4, E5, E6]) == P3 + (P4 + (P5 + (P6 + [])));
    assert [E2, E3, E4, E5, E6][1..] == [E3, E4, E5, E6];
  }

  lemma TestTailFrom4()
    ensures Chain(K3, [E4, E5, E6]) && EncodeEntries(K3, [E4, E5, E6]) == P4 + (P5 + (P6 + []))
  {
    Piece4();
    Piece5();
    Piece6();
    assert [E6][1..] == [];
    assert Chain(K5, [E6]) && EncodeEntries(K5, [E6]) == P6 + [];
    assert [E5, E6][1..] == [E6];
    assert Chain(K4, [E5, E6]) && EncodeEntries(K4, [E5, E6]) == P5 + (P6 + []);
    assert [E4, E5, E6][1..] == [E5, E6];
  }

  /** `test_from_csl`: the six keys with payloads 1 to 6 come back. */
  lemma TestVectorDecodes()
    ensures Decode(TEST_CSL) == Ok(TEST_ENTRIES)
  {
    TestVectorIsEncoding();
    EncodeDecode(TEST_ENTRIES, 1);
  }

  /** A header longer than the previous key makes the string slice panic: "a" cannot give 2 bytes. */
  lemma HeaderTooLong()
    ensures Decode([0, 1, 97, 2, 1, 98]) == Err(Panic)
  {
    var b: bytes := [0, 1, 97, 2, 1, 98];
    assert b[2..3] == [97];
    assert Utf8In(b, 2, 3);
  }

  /** Input that ends inside a payload is a `Parse` error, as is a list without its (0, 0) end. */
  lemma Truncated()
    ensures Decode([1, 1, 97]) == Err(Parse)
    ensures Decode([1, 1, 97, 1]) == Err(Parse)
  {
    var b: bytes := [1, 1, 97, 1];
    assert b[2..3] == [97];
    assert Utf8In(b, 2, 3);
    var c: bytes := [1, 1, 97];
    assert c[2..3] == [97];
    assert Utf8In(c, 2, 3);
  }
}
