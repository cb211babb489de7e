/**
 * `extract_chunks_from_png` of convert_to_ios.py, on the bytes of a file: the signature check
 * (ISO/IEC 15948, section 5.2) and the walk over length-prefixed records, which does not look
 * at checksums and stops after IEND.
 */
module Parser {
  import opened Bytes
  import opened Wrappers
  import opened Slices
  import opened Chunks

  /** The `while i < len(data) - 12` walk from offset `i`: read a length, a type and that many
      data bytes (clamped at the end of the buffer, as a Python slice is), skip the checksum,
      and stop after an IEND record. */
  function ParseFrom(data: seq<byte>, i: nat): seq<Chunk>
    decreases |data| - i
  {
    if i + 12 < |data| then
      var size := FromBe32(data[i..i + 4]);
      var c := Chunk(data[i + 4..i + 8], data[i + 8..Min(i + 8 + size, |data|)]);
      if c.kind == IEND then [c] else [c] + ParseFrom(data, i + 12 + size)
    else
      []
  }

  /** `extract_chunks_from_png`: fails exactly when the first eight bytes are not the PNG
      signature, and otherwise walks the records from offset 8. */
  function Parse(data: seq<byte>): (r: Result<seq<Chunk>>)
    ensures r.Err? <==> |data| < 8 || data[..8] != Signature
    ensures r.Ok? ==> AllFramable(r.value)
  {
    if |data| < 8 || data[..8] != Signature then Err(NotPng)
    else
      ParseFramable(data, 8);
      Ok(ParseFrom(data, 8))
  }

  /** Every data run the walk returns fits a length field. */
  lemma {:induction false} ParseFramable(data: seq<byte>, i: nat)
    ensures AllFramable(ParseFrom(data, i))
    decreases |data| - i
  {
    if i + 12 < |data| {
      var c, next := ChunkAt(data, i), i + 12 + FromBe32(data[i..i + 4]);
      ParseUnfold(data, i);
      if c.kind == IEND {
        FramableCons(c, []);
        assert [c] + [] == [c];
      } else {
        ParseFramable(data, next);
        FramableCons(c, ParseFrom(data, next));
      }
    }
  }

  lemma FramableCons(c: Chunk, rest: seq<Chunk>)
    requires Framable(c) && AllFramable(rest)
    ensures AllFramable([c] + rest)
  {
    var r := [c] + rest;
    assert forall k :: 1 <= k < |r| ==> r[k] == rest[k - 1];
  }

  /** The loop of `extract_chunks_from_png`, appending to a list and leaving after IEND. */
  method ExtractChunks(data: seq<byte>) returns (r: Result<seq<Chunk>>)
    ensures r == Parse(data)
  {
    if |data| < 8 || data[..8] != Signature {
      return Err(NotPng);
    }
    var chunks: seq<Chunk> := [];
    var i: nat := 8;
    ghost var all := ParseFrom(data, 8);
    while i < |data| - 12
      invariant chunks + ParseFrom(data, i) == all
      decreases |data| - i
    {
      var size := FromBe32(data[i..i + 4]);
      var kind := data[i + 4..i + 8];
      var payload := data[i + 8..Min(i + 8 + size, |data|)];
      var chunk := Chunk(kind, payload);
      var next := i + 12 + size;
      WalkStep(data, i, chunks, chunk, next);
      chunks := chunks + [chunk];
      i := next;
      if kind == IEND {
        return Ok(chunks);
      }
    }
    assert ParseFrom(data, i) == [];
    assert chunks + [] == chunks;
    return Ok(chunks);
  }

  /** The chunk the walk reads at offset `i`. */
  function ChunkAt(data: seq<byte>, i: nat): (c: Chunk)
    requires i + 12 < |data|
    ensures c.kind == data[i + 4..i + 8] && Framable(c)
  {
    Chunk(data[i + 4..i + 8], data[i + 8..Min(i + 8 + FromBe32(data[i..i + 4]), |data|)])
  }

  /** One step of the walk, with the bytes left uninterpreted. */
  lemma ParseUnfold(data: seq<byte>, i: nat)
    requires i + 12 < |data|
    ensures var c, next := ChunkAt(data, i), i + 12 + FromBe32(data[i..i + 4]);
      ParseFrom(data, i) == if c.kind == IEND then [c] else [c] + ParseFrom(data, next)
  {
  }

  /** One turn of the loop keeps its invariant, or ends the walk at IEND. */
  lemma WalkStep(data: seq<byte>, i: nat, chunks: seq<Chunk>, c: Chunk, next: nat)
    requires i + 12 < |data| && c == ChunkAt(data, i) && next == i + 12 + FromBe32(data[i..i + 4])
    ensures c.kind == IEND ==> chunks + ParseFrom(data, i) == chunks + [c]
    ensures c.kind != IEND ==> chunks + ParseFrom(data, i) == (chunks + [c]) + ParseFrom(data, next)
  {
    ParseUnfold(data, i);
    if c.kind != IEND {
      Assoc(chunks, [c], ParseFrom(data, next));
    }
  }

  /** Only the last chunk of a walk can be IEND. */
  lemma {:induction false} TerminalOnlyLast(data: seq<byte>, i: nat)
    ensures OnlyLastTerminal(ParseFrom(data, i))
    decreases |data| - i
  {
    if i + 12 < |data| {
      var c, next := ChunkAt(data, i), i + 12 + FromBe32(data[i..i + 4]);
      ParseUnfold(data, i);
      if c.kind != IEND {
        TerminalOnlyLast(data, next);
        OnlyLastCons(c, ParseFrom(data, next));
      }
    }
  }

  /** No chunk but possibly the last is IEND. */
  predicate OnlyLastTerminal(cs: seq<Chunk>) {
    forall k :: 0 <= k < |cs| - 1 ==> cs[k].kind != IEND
  }

  lemma OnlyLastCons(c: Chunk, rest: seq<Chunk>)
    requires c.kind != IEND && OnlyLastTerminal(rest)
    ensures OnlyLastTerminal([c] + rest)
  {
    var r := [c] + rest;
    assert forall k :: 1 <= k < |r| ==> r[k] == rest[k - 1];
  }

  /** One step of the walk over a record of `c` that is followed by at least one more byte. */
  lemma ParseStep(data: seq<byte>, i: nat, c: Chunk)
    requires RecordAt(data, i, c) && i + 12 < |data|
    ensures c.kind == IEND ==> ParseFrom(data, i) == [c]
    ensures c.kind != IEND ==> ParseFrom(data, i) == [c] + ParseFrom(data, i + 12 + |c.data|)
  {
    ParseUnfold(data, i);
    assert Min(i + 8 + |c.data|, |data|) == i + 8 + |c.data|;
    assert ChunkAt(data, i) == c;
  }

  /** The first step of a walk over records of chunks, the first of which is not IEND. */
  lemma ParseFirst(data: seq<byte>, i: nat, cs: seq<Chunk>, m: nat, j: nat)
    requires RecordsAt(data, i, cs, j) && j < |data| && cs != [] && cs[0].kind != IEND
    requires m == i + 12 + |cs[0].data|
    ensures ParseFrom(data, i) == [cs[0]] + ParseFrom(data, m)
    ensures RecordsAt(data, m, cs[1..], j)
  {
    var c := cs[0];
    assert RecordAt(data, i, c) && m <= j;
    ParseStep(data, i, c);
  }

  /** Walking over the records of IEND-free chunks, laid out from `i` to `j`, yields those
      chunks and continues at `j`. */
  lemma {:induction false} ParseRecords(data: seq<byte>, i: nat, cs: seq<Chunk>, j: nat)
    requires RecordsAt(data, i, cs, j) && j < |data| && NoTerminal(cs)
    ensures ParseFrom(data, i) == cs + ParseFrom(data, j)
    decreases |cs|
  {
    if cs == [] {
      assert i == j;
    } else {
      var m := i + 12 + |cs[0].data|;
      ParseFirst(data, i, cs, m, j);
      ParseRecords(data, m, cs[1..], j);
      Assoc([cs[0]], cs[1..], ParseFrom(data, j));
      assert cs == [cs[0]] + cs[1..];
    }
  }

  /** A framed buffer parses to its chunks, without the final IEND, which the `len - 12` guard
      never reaches; the checksums play no part. */
  lemma ParseFramed(buf: seq<byte>, cs: seq<Chunk>)
    requires Framed(buf, cs) && NoTerminal(cs)
    ensures Parse(buf) == Ok(cs)
  {
    var n := 8 + Width(cs);
    RecordsAppend(buf, 8, cs, [Terminal], |buf|);
    ParseRecords(buf, 8, cs, n);
    assert ParseFrom(buf, n) == [];
    assert cs + [] == cs;
  }

  /** With any bytes after the IEND record of a framed buffer, the walk does reach IEND, returns
      it, and ignores what follows it. */
  lemma ParseFramedWithTrailer(buf: seq<byte>, cs: seq<Chunk>, trailer: seq<byte>)
    requires Framed(buf, cs) && NoTerminal(cs) && |trailer| > 0
    ensures Parse(buf + trailer) == Ok(cs + [Terminal])
  {
    var data, n := buf + trailer, 8 + Width(cs);
    SplitAt(buf, trailer);
    SliceWithin(data, 0, buf, 8, |buf|);
    assert buf[8..|buf|] == buf[8..];
    RecordsMove(buf, 8, cs + [Terminal], |buf|, data, 8, |buf|);
    RecordsAppend(data, 8, cs, [Terminal], |buf|);
    ParseRecords(data, 8, cs, n);
    ParseStep(data, n, Terminal);
  }

  /** Round trip: `extract_chunks_from_png` of signature, records and empty IEND record gives
      back the chunks. */
  lemma ParseContainer(cs: seq<Chunk>)
    requires AllFramable(cs) && NoTerminal(cs)
    ensures Parse(Container(cs)) == Ok(cs)
  {
    ContainerFramed(cs);
    ParseFramed(Container(cs), cs);
  }

  /** The same with bytes after the IEND record: the IEND chunk is then returned last. */
  lemma ParseContainerWithTrailer(cs: seq<Chunk>, trailer: seq<byte>)
    requires AllFramable(cs) && NoTerminal(cs) && |trailer| > 0
    ensures Parse(Container(cs) + trailer) == Ok(cs + [Terminal])
  {
    ContainerFramed(cs);
    ParseFramedWithTrailer(Container(cs), cs, trailer);
  }
}
