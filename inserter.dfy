/**
 * `insert_chunk_after` of convert_to_ios.py: walk the records to the first chunk of an anchor
 * type and splice a newly encoded chunk right after its record, or at `len - 12`, where IEND
 * starts in a well-formed file, when there is none.
 */
module Inserter {
  import opened Bytes
  import opened Wrappers
  import opened Slices
  import opened Chunks
  import opened Parser

  /** The search loop from offset `i`: the end of the first record whose type is `anchor`,
      if the `len - 12` walk meets one. */
  function FindAnchor(buf: seq<byte>, anchor: Tag, i: nat): (r: Option<nat>)
    ensures r.Some? ==> i + 12 <= r.value
    decreases |buf| - i
  {
    if i + 12 < |buf| then
      var end := i + 12 + FromBe32(buf[i..i + 4]);
      if buf[i + 4..i + 8] == anchor then Some(end) else FindAnchor(buf, anchor, end)
    else
      None
  }

  /** Where the splice goes: after the anchor record, or else at `len - 12` (negative for a
      buffer shorter than 12 bytes). */
  function InsertPosition(buf: seq<byte>, anchor: Tag): int {
    match FindAnchor(buf, anchor, 8)
    case Some(p) => p
    case None => |buf| - 12
  }

  /** A Python slice bound `k` on a sequence of length `n`: negative bounds count from the end,
      and bounds outside the sequence are clamped. */
  function PyIndex(k: int, n: nat): (r: nat)
    ensures r <= n
    ensures 0 <= k <= n ==> r == k
    ensures k > n ==> r == n
    ensures k < 0 && 0 <= n + k ==> r == n + k
    ensures n + k < 0 ==> r == 0
  {
    if k < 0 then (if n + k < 0 then 0 else n + k) else if k > n then n else k
  }

  /** `insert_chunk_after` as a function: the encoded chunk is spliced in at one position, the
      result is one record longer, and every other byte of `buf` keeps its place and order. */
  function InsertAfter(buf: seq<byte>, anchor: Tag, c: Chunk): (r: seq<byte>)
    requires Framable(c)
    ensures |r| == |buf| + 12 + |c.data|
    ensures var p := PyIndex(InsertPosition(buf, anchor), |buf|);
      r[..p] == buf[..p] && r[p..p + 12 + |c.data|] == Encode(c) && r[p + 12 + |c.data|..] == buf[p..]
  {
    var p := PyIndex(InsertPosition(buf, anchor), |buf|);
    Fields(buf[..p], Encode(c), buf[p..], []);
    assert buf[..p] + Encode(c) + buf[p..] + [] == buf[..p] + Encode(c) + buf[p..];
    buf[..p] + Encode(c) + buf[p..]
  }

  /** The loop of `insert_chunk_after`, with its `insert_pos` and `break`, then the splice. */
  method InsertChunkAfter(buf: seq<byte>, anchor: Tag, kind: Tag, payload: seq<byte>) returns (r: seq<byte>)
    requires |payload| < 0x1_0000_0000
    ensures r == InsertAfter(buf, anchor, Chunk(kind, payload))
  {
    var i: nat := 8;
    var insertPos: Option<int> := None;
    while i < |buf| - 12
      invariant FindAnchor(buf, anchor, i) == FindAnchor(buf, anchor, 8)
      decreases |buf| - i
    {
      var size := FromBe32(buf[i..i + 4]);
      var chunkEnd := i + 12 + size;
      if buf[i + 4..i + 8] == anchor {
        insertPos := Some(chunkEnd);
        break;
      }
      i := chunkEnd;
    }
    var pos: int;
    if insertPos.None? {
      pos := |buf| - 12;
    } else {
      pos := insertPos.value;
    }
    assert pos == InsertPosition(buf, anchor);
    var p := PyIndex(pos, |buf|);
    r := buf[..p] + Encode(Chunk(kind, payload)) + buf[p..];
  }

  // ---------------------------------------------------------------- chunk-level meaning

  /** The index of the first chunk of type `k`. */
  function FirstOfKind(cs: seq<Chunk>, k: Tag): (r: Option<nat>)
    ensures r.Some? ==> r.value < |cs| && cs[r.value].kind == k
    ensures r.Some? ==> forall j :: 0 <= j < r.value ==> cs[j].kind != k
    ensures r.None? ==> forall j :: 0 <= j < |cs| ==> cs[j].kind != k
    decreases |cs|
  {
    if cs == [] then None
    else if cs[0].kind == k then Some(0)
    else match FirstOfKind(cs[1..], k)
      case None => None
      case Some(j) => Some(j + 1)
  }

  /** Where an insertion lands in the chunk list: right after the first `anchor` chunk, or at
      the end (just before IEND) when there is none. */
  function InsertIndex(cs: seq<Chunk>, anchor: Tag): (r: nat)
    ensures r <= |cs|
  {
    match FirstOfKind(cs, anchor)
    case Some(j) => j + 1
    case None => |cs|
  }

  /** The chunk-level meaning of an insertion: `c` placed at `InsertIndex`. */
  function InsertInList(cs: seq<Chunk>, anchor: Tag, c: Chunk): (r: seq<Chunk>)
    ensures |r| == |cs| + 1
    ensures var i := InsertIndex(cs, anchor);
      r[..i] == cs[..i] && r[i] == c && r[i + 1..] == cs[i..]
  {
    var i := InsertIndex(cs, anchor);
    Fields(cs[..i], [c], cs[i..], []);
    assert cs[..i] + [c] + cs[i..] + [] == cs[..i] + [c] + cs[i..];
    cs[..i] + [c] + cs[i..]
  }

  lemma {:induction false} WidthAppend(a: seq<Chunk>, b: seq<Chunk>)
    ensures Width(a + b) == Width(a) + Width(b)
    decreases |a|
  {
    if a == [] {
      assert a + b == b;
    } else {
      assert (a + b)[0] == a[0];
      assert (a + b)[1..] == a[1..] + b;
      WidthAppend(a[1..], b);
    }
  }

  // ---------------------------------------------------------------- the search over records

  /** The anchor search passes over records of other types, laid out from `i` to `j`. */
  lemma {:induction false} FindAnchorSkip(data: seq<byte>, anchor: Tag, i: nat, cs: seq<Chunk>, j: nat)
    requires RecordsAt(data, i, cs, j) && j < |data|
    requires forall k :: 0 <= k < |cs| ==> cs[k].kind != anchor
    ensures FindAnchor(data, anchor, i) == FindAnchor(data, anchor, j)
    decreases |cs|
  {
    if cs != [] {
      FindAnchorSkip(data, anchor, i + 12 + |cs[0].data|, cs[1..], j);
    }
  }

  /** The anchor search stops at a record of the anchor type and returns its end. */
  lemma FindAnchorHit(data: seq<byte>, anchor: Tag, i: nat, c: Chunk)
    requires RecordAt(data, i, c) && c.kind == anchor && i + 12 < |data|
    ensures FindAnchor(data, anchor, i) == Some(i + 12 + |c.data|)
  {
  }

  /** The first record of at least two has room for the search to read it. */
  lemma RecordThenMore(data: seq<byte>, i: nat, cs: seq<Chunk>, j: nat)
    requires RecordsAt(data, i, cs, j) && |cs| >= 2 && j <= |data|
    ensures RecordAt(data, i, cs[0]) && i + 12 < |data|
  {
    assert RecordsAt(data, i + 12 + |cs[0].data|, cs[1..], j);
  }

  lemma WidthSnoc(a: seq<Chunk>, c: Chunk)
    ensures Width(a + [c]) == Width(a) + 12 + |c.data|
  {
    WidthAppend(a, [c]);
    assert [c][1..] == [];
  }

  /** In a framed buffer, the search finds the first chunk of the anchor type and returns the
      end of its record. */
  lemma FindAnchorFramed(buf: seq<byte>, cs: seq<Chunk>, anchor: Tag, k: nat)
    requires Framed(buf, cs) && k < |cs| && cs[k].kind == anchor
    requires forall j :: 0 <= j < k ==> cs[j].kind != anchor
    ensures FindAnchor(buf, anchor, 8) == Some(8 + Width(cs[..k + 1]))
    ensures 8 + Width(cs[..k + 1]) <= |buf| - 12
  {
    var front, tail := cs[..k], cs[k..] + [Terminal];
    var q := 8 + Width(front);
    AnchorLayout(buf, cs, k, front, tail, q);
    FindAnchorSkip(buf, anchor, 8, front, q);
    FindAnchorHit(buf, anchor, q, cs[k]);
    AnchorEnd(buf, cs, k, front, tail, q);
  }

  /** A framed buffer cut before the `k`-th chunk: records in front, then a record of that chunk
      followed by at least the IEND record. */
  lemma AnchorLayout(buf: seq<byte>, cs: seq<Chunk>, k: nat, front: seq<Chunk>, tail: seq<Chunk>, q: nat)
    requires Framed(buf, cs) && k < |cs| && front == cs[..k] && tail == cs[k..] + [Terminal]
    requires q == 8 + Width(front)
    ensures RecordsAt(buf, 8, front, q) && RecordsAt(buf, q, tail, |buf|)
    ensures RecordAt(buf, q, cs[k]) && q + 12 < |buf|
  {
    assert cs + [Terminal] == front + tail;
    RecordsAppend(buf, 8, front, tail, |buf|);
    assert tail[0] == cs[k];
    RecordThenMore(buf, q, tail, |buf|);
  }

  /** The end of the record of the `k`-th chunk, and the room left after it for IEND. */
  lemma AnchorEnd(buf: seq<byte>, cs: seq<Chunk>, k: nat, front: seq<Chunk>, tail: seq<Chunk>, q: nat)
    requires k < |cs| && front == cs[..k] && tail == cs[k..] + [Terminal] && q == 8 + Width(front)
    requires RecordsAt(buf, q, tail, |buf|)
    ensures 8 + Width(cs[..k + 1]) == q + 12 + |cs[k].data| <= |buf| - 12
  {
    assert cs[..k + 1] == front + [cs[k]];
    WidthSnoc(front, cs[k]);
    RecordsWidth(buf, q, tail, |buf|);
    WidthSnoc(cs[k..], Terminal);
  }

  /** In a framed buffer without a chunk of the anchor type, the search finds nothing. */
  lemma FindAnchorFramedNone(buf: seq<byte>, cs: seq<Chunk>, anchor: Tag)
    requires Framed(buf, cs)
    requires forall j :: 0 <= j < |cs| ==> cs[j].kind != anchor
    ensures FindAnchor(buf, anchor, 8) == None && |buf| - 12 == 8 + Width(cs)
  {
    var n := 8 + Width(cs);
    RecordsAppend(buf, 8, cs, [Terminal], |buf|);
    FindAnchorSkip(buf, anchor, 8, cs, n);
  }

  /** In a framed buffer the splice position is the end of the record of the first `anchor`
      chunk, or the start of the IEND record when no chunk has that type. */
  lemma InsertPositionFramed(buf: seq<byte>, cs: seq<Chunk>, anchor: Tag)
    requires Framed(buf, cs)
    ensures InsertPosition(buf, anchor) == 8 + Width(cs[..InsertIndex(cs, anchor)])
    ensures FirstOfKind(cs, anchor).None? ==> InsertPosition(buf, anchor) == |buf| - 12
    ensures 8 <= InsertPosition(buf, anchor) <= |buf| - 12
  {
    match FirstOfKind(cs, anchor)
    case Some(k) =>
      FindAnchorFramed(buf, cs, anchor, k);
    case None =>
      FindAnchorFramedNone(buf, cs, anchor);
      assert cs[..|cs|] == cs;
  }

  // ---------------------------------------------------------------- the splice

  /** Records of `a + b` are records of `a` followed by records of `b`. */
  lemma RecordsSplit(data: seq<byte>, i: nat, a: seq<Chunk>, b: seq<Chunk>, j: nat)
    requires RecordsAt(data, i, a + b, j)
    ensures RecordsAt(data, i, a, i + Width(a)) && RecordsAt(data, i + Width(a), b, j)
  {
    RecordsAppend(data, i, a, b, j);
  }

  /** Records of `a` followed by records of `b` are records of `a + b`. */
  lemma RecordsJoin(data: seq<byte>, i: nat, a: seq<Chunk>, m: nat, b: seq<Chunk>, j: nat)
    requires RecordsAt(data, i, a, m) && RecordsAt(data, m, b, j)
    ensures RecordsAt(data, i, a + b, j)
  {
    RecordsWidth(data, i, a, m);
    RecordsAppend(data, i, a, b, j);
  }

  /** What stays in front of a splice point keeps its signature and its records. */
  lemma KeepFront(buf: seq<byte>, pre: seq<Chunk>, p: nat, nb: seq<byte>)
    requires |buf| >= 8 && buf[..8] == Signature && RecordsAt(buf, 8, pre, p) && p <= |buf|
    requires p <= |nb| && nb[..p] == buf[..p]
    ensures |nb| >= 8 && nb[..8] == Signature && RecordsAt(nb, 8, pre, p)
  {
    RecordsWidth(buf, 8, pre, p);
    assert nb[0..p] == buf[0..p];
    SameSlices(nb, 0, buf, 0, p, 0, 8);
    assert nb[..8] == nb[0..8] && buf[..8] == buf[0..8];
    SameSlices(nb, 0, buf, 0, p, 8, p);
    RecordsMove(buf, 8, pre, p, nb, 8, p);
  }

  /** What follows a splice point keeps its records, shifted by the spliced-in record. */
  lemma KeepBack(buf: seq<byte>, post: seq<Chunk>, p: nat, nb: seq<byte>, q: nat)
    requires RecordsAt(buf, p, post, |buf|) && p <= q
    requires |nb| == q + (|buf| - p) && nb[q..] == buf[p..]
    ensures RecordsAt(nb, q, post, |nb|)
  {
    RecordsWidth(buf, p, post, |buf|);
    assert nb[q..|nb|] == buf[p..|buf|];
    RecordsMove(buf, p, post, |buf|, nb, q, |nb|);
  }

  /** Splicing a record `e` of `c` in at offset `p`, between the records of `pre` and those of
      `post`: each of the three runs is in its place in the new buffer. */
  lemma SpliceParts(buf: seq<byte>, pre: seq<Chunk>, post: seq<Chunk>, c: Chunk, e: seq<byte>, nb: seq<byte>, p: nat, q: nat)
    requires |buf| >= 8 && buf[..8] == Signature && RecordsAt(buf, 8, pre + post, |buf|)
    requires RecordsAt(e, 0, [c], |e|) && p == 8 + Width(pre) && q == p + |e|
    requires p <= |buf| && |nb| == |buf| + |e|
    requires nb[..p] == buf[..p] && nb[p..p + |e|] == e && nb[p + |e|..] == buf[p..]
    ensures |nb| >= 8 && nb[..8] == Signature && RecordsAt(nb, 8, pre, p)
    ensures RecordsAt(nb, p, [c], q) && RecordsAt(nb, q, post, |nb|)
  {
    RecordsSplit(buf, 8, pre, post, |buf|);
    RecordsWidth(buf, p, post, |buf|);
    KeepFront(buf, pre, p, nb);
    assert e[0..|e|] == e;
    RecordsMove(e, 0, [c], |e|, nb, p, q);
    KeepBack(buf, post, p, nb, q);
  }

  /** Splicing a record `e` of `c` between the records of `pre` and those of `post` gives
      records of `pre`, then `c`, then `post`. */
  lemma Splice(buf: seq<byte>, pre: seq<Chunk>, post: seq<Chunk>, c: Chunk, e: seq<byte>, nb: seq<byte>, p: nat)
    requires |buf| >= 8 && buf[..8] == Signature && RecordsAt(buf, 8, pre + post, |buf|)
    requires |e| == 12 + |c.data| && RecordsAt(e, 0, [c], |e|) && p == 8 + Width(pre)
    requires p <= |buf| && |nb| == |buf| + |e|
    requires nb[..p] == buf[..p] && nb[p..p + |e|] == e && nb[p + |e|..] == buf[p..]
    ensures |nb| >= 8 && nb[..8] == Signature
    ensures RecordsAt(nb, 8, pre + [c] + post, |nb|)
  {
    var q := p + |e|;
    SpliceParts(buf, pre, post, c, e, nb, p, q);
    RecordsJoin(nb, 8, pre, p, [c], q);
    RecordsJoin(nb, 8, pre + [c], q, post, |nb|);
  }

  /** An encoded chunk is a record of that chunk. */
  lemma EncodeIsRecord(c: Chunk)
    requires Framable(c)
    ensures RecordsAt(Encode(c), 0, [c], |Encode(c)|)
  {
    var e := Encode(c);
    assert e[0..|e|] == e;
    EncodedRecord(e, 0, c, |e|);
  }

  /** The regroupings of a list with one element spliced in and one appended. */
  lemma ListSplice<T>(x: seq<T>, i: nat, c: T, t: T)
    requires i <= |x|
    ensures x + [t] == x[..i] + (x[i..] + [t])
    ensures x[..i] + [c] + (x[i..] + [t]) == (x[..i] + [c] + x[i..]) + [t]
  {
    assert x == x[..i] + x[i..];
  }

  /** Inserting into a framed buffer gives a framed buffer whose chunks are the old ones with
      the new chunk at `InsertIndex`: right after the first anchor chunk, else last. */
  lemma InsertFramed(buf: seq<byte>, cs: seq<Chunk>, anchor: Tag, c: Chunk)
    requires Framed(buf, cs) && Framable(c)
    ensures Framed(InsertAfter(buf, anchor, c), InsertInList(cs, anchor, c))
  {
    var i := InsertIndex(cs, anchor);
    var pre, post := cs[..i], cs[i..] + [Terminal];
    InsertPositionFramed(buf, cs, anchor);
    ListSplice(cs, i, c, Terminal);
    EncodeIsRecord(c);
    Splice(buf, pre, post, c, Encode(c), InsertAfter(buf, anchor, c), 8 + Width(pre));
  }

  /** An insertion of a chunk other than IEND adds no IEND. */
  lemma InsertNoTerminal(cs: seq<Chunk>, anchor: Tag, c: Chunk)
    requires NoTerminal(cs) && c.kind != IEND
    ensures NoTerminal(InsertInList(cs, anchor, c))
  {
    var r, i := InsertInList(cs, anchor, c), InsertIndex(cs, anchor);
    forall k | 0 <= k < |r|
      ensures r[k].kind != IEND
    {
      if k < i {
        assert r[k] == r[..i][k];
      } else if k > i {
        assert r[k] == r[i + 1..][k - i - 1];
      }
    }
  }

  /** An insertion adds exactly the new chunk: as multisets, the new list is the old one plus `c`. */
  lemma InsertAddsOne(cs: seq<Chunk>, anchor: Tag, c: Chunk)
    ensures multiset(InsertInList(cs, anchor, c)) == multiset(cs) + multiset{c}
  {
    var i := InsertIndex(cs, anchor);
    assert cs == cs[..i] + cs[i..];
    assert InsertInList(cs, anchor, c) == cs[..i] + [c] + cs[i..];
  }

  /** What a later parse sees after an insertion into a framed buffer: the old chunks with the
      new one right after the first anchor chunk, or last when no chunk has the anchor type. */
  lemma ParseInsertAfter(buf: seq<byte>, cs: seq<Chunk>, anchor: Tag, c: Chunk)
    requires Framed(buf, cs) && NoTerminal(cs) && Framable(c) && c.kind != IEND
    ensures Parse(InsertAfter(buf, anchor, c)) == Ok(InsertInList(cs, anchor, c))
  {
    InsertFramed(buf, cs, anchor, c);
    InsertNoTerminal(cs, anchor, c);
    ParseFramed(InsertAfter(buf, anchor, c), InsertInList(cs, anchor, c));
  }
}
