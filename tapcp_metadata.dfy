// The user-flash metadata format of tapcp/src/lib.rs: `?key\tvalue` entries, then `?end`,
// padded with ASCII '0' to a whole number of 1024-byte flash chunks.
module TapcpMetadata {
  import opened Wrappers
  import opened Bytes

  const QMARK: byte := '?' as int
  const TAB: byte := 9
  const PAD: byte := '0' as int

  /** The terminator `?end`. */
  const END_TAG: bytes := ['?' as int, 'e' as int, 'n' as int, 'd' as int]

  /** The flash is written and read in chunks of 1024 bytes (256 words). */
  const CHUNK_LEN: nat := 1024

  /** `HashMap<KString, String>` of metadata. */
  type Metadata = map<bytes, bytes>

  /** One `?{k}\t{v}` entry. */
  function Entry(k: bytes, v: bytes): (r: bytes)
    ensures |r| == |k| + |v| + 2 && r[0] == QMARK
  {
    [QMARK] + k + [TAB] + v
  }

  /** `order` lists every key of `m` exactly once: the iteration order of the `HashMap`. */
  predicate IsEnumeration(order: seq<bytes>, m: Metadata) {
    (forall i | 0 <= i < |order| :: order[i] in m) &&
    (forall k | k in m :: k in order) &&
    (forall i, j | 0 <= i < j < |order| :: order[i] != order[j])
  }

  /** The entries of `m` in the order of `order`, concatenated (the `fold` of `set_metadata`). */
  function Body(m: Metadata, order: seq<bytes>): (r: bytes)
    requires forall i | 0 <= i < |order| :: order[i] in m
  {
    if order == [] then []
    else Body(m, order[..|order| - 1]) + Entry(order[|order| - 1], m[order[|order| - 1]])
  }

  /** `set_metadata`'s text: every entry, then `?end`. */
  function Encode(m: Metadata, order: seq<bytes>): (r: bytes)
    requires forall i | 0 <= i < |order| :: order[i] in m
  {
    Body(m, order) + END_TAG
  }

  /** Padding with ASCII '0' up to the next multiple of 1024 (none when already a multiple). */
  function Padded(b: bytes): (r: bytes)
    ensures |r| % CHUNK_LEN == 0 && |b| <= |r| < |b| + CHUNK_LEN
    ensures r[..|b|] == b && forall i | |b| <= i < |r| :: r[i] == PAD
    ensures |b| % CHUNK_LEN == 0 ==> r == b
  {
    if |b| % CHUNK_LEN != 0 then b + seq(CHUNK_LEN - |b| % CHUNK_LEN, _ => PAD) else b
  }

  /** The bytes `set_metadata` writes to the user flash. */
  function Image(m: Metadata, order: seq<bytes>): bytes
    requires forall i | 0 <= i < |order| :: order[i] in m
  {
    Padded(Encode(m, order))
  }

  // ---------------------------------------------------------------------------
  // decoding
  // ---------------------------------------------------------------------------

  /** `str::split('?')`: the pieces between the separators, so one more piece than separators. */
  function Split(s: bytes): (r: seq<bytes>)
    ensures |r| >= 1
    decreases |s|
  {
    match IndexOf(s, QMARK)
    case None => [s]
    case Some(i) => [s[..i]] + Split(s[i + 1..])
  }

  /** `str::split_once('\t')`: the text before and after the first tab. */
  function SplitOnceTab(p: bytes): (r: Option<(bytes, bytes)>)
    ensures r.None? <==> TAB !in p
    ensures r.Some? ==> p == r.value.0 + [TAB] + r.value.1 && TAB !in r.value.0
  {
    match IndexOf(p, TAB)
    case None => None
    case Some(i) =>
      assert p == p[..i] + [TAB] + p[i + 1..];
      Some((p[..i], p[i + 1..]))
  }

  /** `filter_map(split_once)` then `collect`: a later piece with the same key overwrites an earlier one. */
  function Collect(pieces: seq<bytes>): (r: Metadata)
  {
    if pieces == [] then map[]
    else
      var m := Collect(pieces[..|pieces| - 1]);
      match SplitOnceTab(pieces[|pieces| - 1])
      case None => m
      case Some((k, v)) => m[k := v]
  }

  /** The map `get_metadata` builds from the text before `?end`. */
  function Decode(text: bytes): Metadata {
    Collect(Split(text))
  }

  // ---------------------------------------------------------------------------
  // the round trip
  // ---------------------------------------------------------------------------

  /** A key or value `get_metadata` can give back: no '?', and no tab in the key. */
  predicate CleanEntry(k: bytes, v: bytes) {
    QMARK !in k && QMARK !in v && TAB !in k
  }

  predicate Clean(m: Metadata) {
    forall k | k in m :: CleanEntry(k, m[k])
  }

  /** Splitting at a separator splits the two sides independently. */
  lemma SplitConcat(a: bytes, b: bytes)
    ensures Split(a + [QMARK] + b) == Split(a) + Split(b)
  {
    SplitJoin(a, b, a + [QMARK] + b);
  }

  lemma {:induction false} SplitJoin(a: bytes, b: bytes, s: bytes)
    requires s == a + [QMARK] + b
    ensures Split(s) == Split(a) + Split(b)
    decreases |a|
  {
    if QMARK !in a {
      assert s[..|a|] == a && s[|a| + 1..] == b;
      SplitFirst(s, |a|);
      assert Split(a) == [a];
    } else {
      var i := IndexOf(a, QMARK).value;
      var a', s' := a[i + 1..], s[i + 1..];
      var h := a[..i];
      SplitFirst(a, i);
      assert s[..i] == h && s' == a' + [QMARK] + b;
      SplitFirst(s, i);
      SplitJoin(a', b, s');
      assert Split(s) == [h] + (Split(a') + Split(b)) && Split(a) == [h] + Split(a');
      AppendAssoc([h], Split(a'), Split(b));
    }
  }

  /** Splitting at the first separator. */
  lemma SplitFirst(s: bytes, i: nat)
    requires i < |s| && s[i] == QMARK && QMARK !in s[..i]
    ensures Split(s) == [s[..i]] + Split(s[i + 1..])
  {
    IndexOfAt(s, QMARK, i);
  }

  /** The entries of `order`, inserted one after the other. */
  function Collected(m: Metadata, order: seq<bytes>): (r: Metadata)
    requires forall i | 0 <= i < |order| :: order[i] in m
  {
    if order == [] then map[]
    else Collected(m, order[..|order| - 1])[order[|order| - 1] := m[order[|order| - 1]]]
  }

  lemma {:induction false} EntryPieces(ps: seq<bytes>, k: bytes, v: bytes)
    requires TAB !in k && QMARK !in k && QMARK !in v
    ensures Split(k + [TAB] + v) == [k + [TAB] + v]
    ensures Collect(ps + [k + [TAB] + v]) == Collect(ps)[k := v]
  {
    var kv := k + [TAB] + v;
    assert QMARK !in kv by {
      assert kv == k + ([TAB] + v);
    }
    assert kv[..|k|] == k && kv[|k| + 1..] == v;
    IndexOfAt(kv, TAB, |k|);
    assert (ps + [kv])[..|ps|] == ps;
  }

  /** Decoding the entries gives back the map they were encoded from, whatever text precedes them. */
  lemma {:induction false} DecodeBody(m: Metadata, order: seq<bytes>)
    requires forall i | 0 <= i < |order| :: order[i] in m
    requires Clean(m)
    ensures Decode(Body(m, order)) == Collected(m, order)
    decreases |order|
  {
    if order == [] {
      assert Split([]) == [[]];
      assert Collect([[]]) == Collect([]);
    } else {
      var init, k := order[..|order| - 1], order[|order| - 1];
      var v := m[k];
      assert CleanEntry(k, v);
      DecodeBody(m, init);
      var b, kv := Body(m, init), k + [TAB] + v;
      assert Body(m, order) == b + Entry(k, v);
      assert Entry(k, v) == [QMARK] + kv;
      assert b + ([QMARK] + kv) == b + [QMARK] + kv;
      SplitConcat(b, kv);
      EntryPieces(Split(b), k, v);
    }
  }

  lemma {:induction false} CollectedContents(m: Metadata, order: seq<bytes>)
    requires forall i | 0 <= i < |order| :: order[i] in m
    ensures forall k :: k in Collected(m, order) <==> k in order
    ensures forall k | k in Collected(m, order) :: Collected(m, order)[k] == m[k]
    decreases |order|
  {
    if order != [] {
      var init := order[..|order| - 1];
      CollectedContents(m, init);
      assert order == init + [order[|order| - 1]];
    }
  }

  /** Encoding with any enumeration of the keys and decoding the entries gives back the map. */
  lemma {:induction false} DecodeEncodedBody(m: Metadata, order: seq<bytes>)
    requires IsEnumeration(order, m) && Clean(m)
    ensures Decode(Body(m, order)) == m
  {
    DecodeBody(m, order);
    CollectedContents(m, order);
    var c := Collected(m, order);
    assert c.Keys == m.Keys;
  }

  // ---------------------------------------------------------------------------
  // locating `?end`
  // ---------------------------------------------------------------------------

  /** A key that starts with "end" makes `?end` appear at its entry. */
  predicate StartsWithEnd(k: bytes) {
    |k| >= 3 && k[..3] == END_TAG[1..]
  }

  lemma {:induction false} OccursAtShift(a: bytes, b: bytes, pat: bytes, j: nat)
    ensures OccursAt(a + b, pat, |a| + j) <==> OccursAt(b, pat, j)
  {
    if |a| + j + |pat| <= |a + b| {
      assert (a + b)[|a| + j..|a| + j + |pat|] == b[j..j + |pat|];
    }
  }

  /** No `?end` starts inside an entry whose key does not start with "end". */
  lemma {:induction false} EntryNoTag(k: bytes, v: bytes, rest: bytes, t: nat)
    requires CleanEntry(k, v) && !StartsWithEnd(k) && t < |Entry(k, v)|
    ensures !OccursAt(Entry(k, v) + rest, END_TAG, t)
  {
    var s := Entry(k, v) + rest;
    if t == 0 {
      if |k| >= 3 {
        assert s[1] == k[0] && s[2] == k[1] && s[3] == k[2];
      } else {
        assert s[1 + |k|] == TAB;
      }
    } else {
      assert s[t] in k || s[t] == TAB || s[t] in v;
      assert s[t] != QMARK;
    }
  }

  /** Keys that do not start with "end". */
  predicate NoEndKeys(m: Metadata) {
    forall k | k in m :: !StartsWithEnd(k)
  }

  /** No `?end` starts inside the entries, whatever follows them. */
  lemma {:induction false} BodyNoTag(m: Metadata, order: seq<bytes>, rest: bytes, j: nat)
    requires forall i | 0 <= i < |order| :: order[i] in m
    requires Clean(m) && NoEndKeys(m) && j < |Body(m, order)|
    ensures !OccursAt(Body(m, order) + rest, END_TAG, j)
    decreases |order|
  {
    var init, k := order[..|order| - 1], order[|order| - 1];
    var b, e := Body(m, init), Entry(k, m[k]);
    assert Body(m, order) + rest == b + (e + rest);
    if j < |b| {
      BodyNoTag(m, init, e + rest, j);
    } else {
      assert CleanEntry(k, m[k]);
      EntryNoTag(k, m[k], rest, j - |b|);
      OccursAtShift(b, e + rest, END_TAG, j - |b|);
    }
  }

  /**
   * In any prefix of the flash image, `find("?end")` finds the terminator just after the
   * entries once the prefix holds it, and nothing before.
   */
  lemma FindEndInImage(m: Metadata, order: seq<bytes>, len: nat)
    requires forall i | 0 <= i < |order| :: order[i] in m
    requires Clean(m) && NoEndKeys(m) && len <= |Image(m, order)|
    ensures Find(Image(m, order)[..len], END_TAG) ==
      if len >= |Encode(m, order)| then Some(|Body(m, order)|) else None
  {
    var b, img := Body(m, order), Image(m, order);
    assert img[..|Encode(m, order)|] == b + END_TAG;
    if len >= |Encode(m, order)| {
      FindEndWhole(m, order, img[..len]);
    } else {
      FindEndPartial(m, order, img[..len]);
    }
  }

  /** A prefix holding all of `?end`: it is found right after the entries. */
  lemma FindEndWhole(m: Metadata, order: seq<bytes>, s: bytes)
    requires forall i | 0 <= i < |order| :: order[i] in m
    requires Clean(m) && NoEndKeys(m)
    requires |s| >= |Encode(m, order)| && s[..|Encode(m, order)|] == Body(m, order) + END_TAG
    ensures Find(s, END_TAG) == Some(|Body(m, order)|)
  {
    var b := Body(m, order);
    assert s == b + s[|b|..];
    assert OccursAt(s, END_TAG, |b|) by {
      assert s[|b|..|b| + 4] == END_TAG;
    }
    forall j | 0 <= j < |b|
      ensures !OccursAt(s, END_TAG, j)
    {
      BodyNoTag(m, order, s[|b|..], j);
    }
    FindIs(s, END_TAG, |b|);
  }

  /** A prefix that stops inside `?end` or before it: nothing is found. */
  lemma FindEndPartial(m: Metadata, order: seq<bytes>, s: bytes)
    requires forall i | 0 <= i < |order| :: order[i] in m
    requires Clean(m) && NoEndKeys(m)
    requires |s| < |Encode(m, order)| && s == (Body(m, order) + END_TAG)[..|s|]
    ensures Find(s, END_TAG) == None
  {
    var b := Body(m, order);
    forall j | 0 <= j <= |s|
      ensures !OccursAt(s, END_TAG, j)
    {
      if OccursAt(s, END_TAG, j) {
        assert j < |b|;
        assert (b + END_TAG)[j..j + 4] == s[j..j + 4];
        BodyNoTag(m, order, END_TAG, j);
      }
    }
    FindNone(s, END_TAG);
  }

  /** The image is ASCII when the metadata is, so every 1024-byte piece of it is valid UTF-8. */
  lemma {:induction false} ImageAscii(m: Metadata, order: seq<bytes>)
    requires forall i | 0 <= i < |order| :: order[i] in m
    requires forall k | k in m :: IsAscii(k) && IsAscii(m[k])
    ensures IsAscii(Image(m, order))
    decreases |order|
  {
    BodyAscii(m, order);
    var e := Encode(m, order);
    assert IsAscii(e) by {
      assert forall i | |Body(m, order)| <= i < |e| :: e[i] == END_TAG[i - |Body(m, order)|];
    }
  }

  lemma {:induction false} BodyAscii(m: Metadata, order: seq<bytes>)
    requires forall i | 0 <= i < |order| :: order[i] in m
    requires forall k | k in m :: IsAscii(k) && IsAscii(m[k])
    ensures IsAscii(Body(m, order))
    decreases |order|
  {
    if order != [] {
      var init, k := order[..|order| - 1], order[|order| - 1];
      BodyAscii(m, init);
      assert IsAscii(k) && IsAscii(m[k]);
      var b := Body(m, init);
      assert Body(m, order) == b + ([QMARK] + k + [TAB] + m[k]);
    }
  }

  /** A key that starts with "end" is cut off at its own entry, so the round trip fails for "endx". */
  lemma EndKeyLost()
    ensures var k := ['e' as int, 'n' as int, 'd' as int, 'x' as int];
      var m := map[k := [PAD]];
      Find(Encode(m, [k]), END_TAG) == Some(0) && Decode(Encode(m, [k])[..0]) != m
  {
    var k: bytes := ['e' as int, 'n' as int, 'd' as int, 'x' as int];
    var m := map[k := [PAD]];
    assert [k][..0] == [];
    assert Body(m, [k]) == Entry(k, [PAD]);
    var e := Encode(m, [k]);
    assert e[0..4] == END_TAG;
    assert OccursAt(e, END_TAG, 0);
    FindCharacterised(e, END_TAG);
    assert Split([]) == [[]];
    assert Collect([[]]) == Collect([]);
    assert k !in Decode(e[..0]);
  }
}
