/**
 * The last step of `convert_android_to_ios` (convert_to_ios.py, lines 252-274): on the file that
 * exiftool wrote, a pHYs chunk (144 dpi) is inserted after eXIf unless the file already has
 * one, then an sBIT chunk (8 significant bits per channel) after pHYs unless the file already
 * had one. Both checks look at the chunk list read before either insertion.
 */
module Reposition {
  import opened Bytes
  import opened Wrappers
  import opened Chunks
  import opened Parser
  import opened Inserter
  import opened Slices

  /** `struct.pack('>IIB', 5669, 5669, 1)`: 5669 pixels per metre on both axes, unit metre
      (ISO/IEC 15948, section 11.3.5.3). */
  const PhysData: seq<byte> := Be32(5669) + Be32(5669) + [1]

  /** `struct.pack('BBB', 8, 8, 8)`: eight significant bits in each of red, green and blue
      (section 11.3.3.4). */
  const SbitData: seq<byte> := [8, 8, 8]

  const Phys: Chunk := Chunk(PHYS, PhysData)
  const Sbit: Chunk := Chunk(SBIT, SbitData)

  /** The pHYs payload read back: both axes 5669, unit specifier 1. */
  lemma PhysFields()
    ensures |PhysData| == 9 && PhysData[8] == 1
    ensures FromBe32(PhysData[..4]) == 5669 && FromBe32(PhysData[4..8]) == 5669
  {
    assert PhysData[..4] == Be32(5669);
    assert PhysData[4..8] == Be32(5669);
  }

  /** Some chunk of the list has type `k`. */
  predicate HasKind(cs: seq<Chunk>, k: Tag) {
    exists j :: 0 <= j < |cs| && cs[j].kind == k
  }

  /** The chunk-level meaning of the step. */
  function RepositionList(cs: seq<Chunk>): seq<Chunk> {
    var withPhys := if HasKind(cs, PHYS) then cs else InsertInList(cs, EXIF, Phys);
    if HasKind(cs, SBIT) then withPhys else InsertInList(withPhys, PHYS, Sbit)
  }

  /** The step on bytes: it fails, as the parse it starts with raises, exactly when the buffer
      does not start with the PNG signature. */
  function Reposition(buf: seq<byte>): (r: Result<seq<byte>>)
    ensures r.Err? <==> |buf| < 8 || buf[..8] != Signature
  {
    match Parse(buf)
    case Err(e) => Err(e)
    case Ok(cs) =>
      var withPhys := if HasKind(cs, PHYS) then buf else InsertAfter(buf, EXIF, Phys);
      Ok(if HasKind(cs, SBIT) then withPhys else InsertAfter(withPhys, PHYS, Sbit))
  }

  // ---------------------------------------------------------------- the loops

  /** The `has_phys`/`has_sbit` loop: scan the list, leave at the first match. */
  method Contains(cs: seq<Chunk>, k: Tag) returns (found: bool)
    ensures found <==> HasKind(cs, k)
  {
    found := false;
    for j := 0 to |cs|
      invariant !found && forall i :: 0 <= i < j ==> cs[i].kind != k
    {
      if cs[j].kind == k {
        found := true;
        break;
      }
    }
  }

  /** The step as the source runs it: parse, check for pHYs, insert it, check for sBIT,
      insert it. */
  method RepositionBytes(buf: seq<byte>) returns (r: Result<seq<byte>>)
    ensures r == Reposition(buf)
  {
    var png := buf;
    var parsed := ExtractChunks(buf);
    if parsed.Err? {
      return Err(parsed.error);
    }
    var tempChunks := parsed.value;
    var hasPhys := Contains(tempChunks, PHYS);
    if !hasPhys {
      var physData := Be32(5669) + Be32(5669) + [1];
      png := InsertChunkAfter(png, EXIF, PHYS, physData);
    }
    var hasSbit := Contains(tempChunks, SBIT);
    if !hasSbit {
      png := InsertChunkAfter(png, PHYS, SBIT, [8, 8, 8]);
    }
    return Ok(png);
  }

  // ---------------------------------------------------------------- chunk-level lemmas

  /** After an insertion the new chunk's type is present, and so is every type that was. */
  lemma InsertHasKind(cs: seq<Chunk>, anchor: Tag, c: Chunk, k: Tag)
    ensures HasKind(InsertInList(cs, anchor, c), c.kind)
    ensures HasKind(cs, k) ==> HasKind(InsertInList(cs, anchor, c), k)
  {
    var r, i := InsertInList(cs, anchor, c), InsertIndex(cs, anchor);
    assert r[i].kind == c.kind;
    if HasKind(cs, k) {
      var j :| 0 <= j < |cs| && cs[j].kind == k;
      if j < i {
        assert r[j] == r[..i][j] == cs[j];
      } else {
        assert r[j + 1] == r[i + 1..][j - i] == cs[j];
      }
    }
  }

  /** The first chunk of a type is where the type first occurs. */
  lemma FirstOfKindAt(cs: seq<Chunk>, k: Tag, j: nat)
    requires j < |cs| && cs[j].kind == k && forall i :: 0 <= i < j ==> cs[i].kind != k
    ensures FirstOfKind(cs, k) == Some(j)
  {
  }

  /** Afterwards the list has both a pHYs and an sBIT chunk. */
  lemma RepositionComplete(cs: seq<Chunk>)
    ensures HasKind(RepositionList(cs), PHYS) && HasKind(RepositionList(cs), SBIT)
  {
    var withPhys := if HasKind(cs, PHYS) then cs else InsertInList(cs, EXIF, Phys);
    InsertHasKind(cs, EXIF, Phys, SBIT);
    InsertHasKind(withPhys, PHYS, Sbit, PHYS);
  }

  /** A list that already has pHYs and sBIT is left as it is. */
  lemma RepositionKeeps(cs: seq<Chunk>)
    requires HasKind(cs, PHYS) && HasKind(cs, SBIT)
    ensures RepositionList(cs) == cs
  {
  }

  /** Applying the step twice inserts nothing the second time. */
  lemma RepositionListIdempotent(cs: seq<Chunk>)
    ensures RepositionList(RepositionList(cs)) == RepositionList(cs)
  {
    RepositionComplete(cs);
    RepositionKeeps(RepositionList(cs));
  }

  /** With neither chunk present, pHYs and then sBIT land together right after the first eXIf
      (or at the end when there is none), and nothing else moves. */
  lemma RepositionFresh(cs: seq<Chunk>)
    requires !HasKind(cs, PHYS) && !HasKind(cs, SBIT)
    ensures var i := InsertIndex(cs, EXIF);
      RepositionList(cs) == cs[..i] + [Phys, Sbit] + cs[i..]
  {
    var i := InsertIndex(cs, EXIF);
    var withPhys := InsertInList(cs, EXIF, Phys);
    assert withPhys == cs[..i] + [Phys] + cs[i..];
    forall j | 0 <= j < i
      ensures withPhys[j].kind != PHYS
    {
      assert withPhys[j] == cs[j];
    }
    FirstOfKindAt(withPhys, PHYS, i);
    assert withPhys[..i + 1] == cs[..i] + [Phys];
    assert withPhys[i + 1..] == cs[i..];
  }

  /** With pHYs present and sBIT missing, sBIT goes right after the first pHYs. */
  lemma RepositionSbitOnly(cs: seq<Chunk>)
    requires HasKind(cs, PHYS) && !HasKind(cs, SBIT)
    ensures RepositionList(cs) == InsertInList(cs, PHYS, Sbit)
    ensures FirstOfKind(cs, PHYS).Some? && InsertIndex(cs, PHYS) == FirstOfKind(cs, PHYS).value + 1
  {
    var j :| 0 <= j < |cs| && cs[j].kind == PHYS;
  }

  // ---------------------------------------------------------------- byte-level lemmas

  lemma NewChunksFramable()
    ensures Framable(Phys) && Framable(Sbit) && Phys.kind != IEND && Sbit.kind != IEND
  {
  }

  /** On a framed buffer the step gives a framed buffer holding the chunk-level result. */
  lemma RepositionFramed(buf: seq<byte>, cs: seq<Chunk>)
    requires Framed(buf, cs) && NoTerminal(cs)
    ensures Reposition(buf).Ok? && Framed(Reposition(buf).value, RepositionList(cs))
    ensures NoTerminal(RepositionList(cs))
  {
    ParseFramed(buf, cs);
    NewChunksFramable();
    var withPhys := if HasKind(cs, PHYS) then cs else InsertInList(cs, EXIF, Phys);
    var b1 := if HasKind(cs, PHYS) then buf else InsertAfter(buf, EXIF, Phys);
    if !HasKind(cs, PHYS) {
      InsertFramed(buf, cs, EXIF, Phys);
      InsertNoTerminal(cs, EXIF, Phys);
    }
    assert Framed(b1, withPhys) && NoTerminal(withPhys);
    if !HasKind(cs, SBIT) {
      InsertFramed(b1, withPhys, PHYS, Sbit);
      InsertNoTerminal(withPhys, PHYS, Sbit);
    }
  }

  /** Reading the result back gives the chunk-level result. */
  lemma RepositionParses(buf: seq<byte>, cs: seq<Chunk>)
    requires Framed(buf, cs) && NoTerminal(cs)
    ensures Reposition(buf).Ok? && Parse(Reposition(buf).value) == Ok(RepositionList(cs))
  {
    RepositionFramed(buf, cs);
    ParseFramed(Reposition(buf).value, RepositionList(cs));
  }

  /** Running the step on its own output returns that output unchanged. */
  lemma RepositionIdempotent(buf: seq<byte>, cs: seq<Chunk>)
    requires Framed(buf, cs) && NoTerminal(cs)
    ensures Reposition(buf).Ok? && Reposition(Reposition(buf).value) == Reposition(buf)
  {
    RepositionParses(buf, cs);
    RepositionComplete(cs);
  }

  // ---------------------------------------------------------------- bytes after an early IEND

  /** A buffer whose first record, right after the signature, is the empty IEND record, with
      at least twelve more bytes after it. */
  predicate EndsEarly(b: seq<byte>) {
    |b| >= 32 && b[..20] == Signature + TerminalRecord
  }

  /** Signature, empty IEND record and at least twelve trailing bytes end early. */
  lemma TrailerEndsEarly(t: seq<byte>)
    requires |t| >= 12
    ensures EndsEarly(Container([]) + t)
  {
    var h := Signature + TerminalRecord;
    assert Container([]) == Signature + [] + TerminalRecord == h;
    SplitAt(h, t);
  }

  /** The fields of the leading IEND record. */
  lemma EarlyFields(b: seq<byte>)
    requires EndsEarly(b)
    ensures b[..8] == Signature && b[8..12] == [0, 0, 0, 0] && b[12..16] == IEND
  {
    var h := Signature + TerminalRecord;
    SplitAt(Signature, TerminalRecord);
    assert b[0..20] == h;
    SliceWithin(b, 0, h, 0, 8);
    SliceWithin(b, 0, h, 8, 20);
    assert b[..8] == b[0..8] && h[0..8] == h[..8] && h[8..20] == h[8..];
    SliceWithin(b, 8, TerminalRecord, 0, 4);
    SliceWithin(b, 8, TerminalRecord, 4, 8);
  }

  /** The walk reads the leading IEND record and stops there. */
  lemma EarlyParse(b: seq<byte>)
    requires EndsEarly(b)
    ensures Parse(b) == Ok([Terminal])
  {
    EarlyFields(b);
    ParseUnfold(b, 8);
    assert FromBe32(b[8..12]) == 0;
    assert ChunkAt(b, 8) == Terminal;
  }

  /** An insertion after a type other than IEND lands behind the leading IEND record. */
  lemma EarlyInsert(b: seq<byte>, anchor: Tag, c: Chunk)
    requires EndsEarly(b) && Framable(c) && anchor != IEND
    ensures EndsEarly(InsertAfter(b, anchor, c)) && |InsertAfter(b, anchor, c)| == |b| + 12 + |c.data|
  {
    EarlyFields(b);
    assert FromBe32(b[8..12]) == 0;
    assert FindAnchor(b, anchor, 8) == FindAnchor(b, anchor, 20);
    var p := PyIndex(InsertPosition(b, anchor), |b|);
    assert 20 <= p;
    var r := InsertAfter(b, anchor, c);
    assert r[..20] == r[..p][..20] == b[..p][..20] == b[..20];
  }

  /** On such a buffer the step finds neither pHYs nor sBIT, inserts both behind the leading
      IEND record, and leaves a buffer of the same kind, 36 bytes longer. */
  lemma RepositionEarlyEnd(b: seq<byte>)
    requires EndsEarly(b)
    ensures Reposition(b).Ok? && EndsEarly(Reposition(b).value)
    ensures |Reposition(b).value| == |b| + 36
  {
    EarlyParse(b);
    assert !HasKind([Terminal], PHYS) && !HasKind([Terminal], SBIT);
    NewChunksFramable();
    PhysFields();
    EarlyInsert(b, EXIF, Phys);
    EarlyInsert(InsertAfter(b, EXIF, Phys), PHYS, Sbit);
  }

  /** So the step is not idempotent on such a buffer: run again, it inserts both chunks again,
      because the walk never gets past the leading IEND record to see them. */
  lemma RepositionRepeats(b: seq<byte>)
    requires EndsEarly(b)
    ensures Reposition(b).Ok? && Reposition(Reposition(b).value) != Reposition(b)
  {
    RepositionEarlyEnd(b);
    RepositionEarlyEnd(Reposition(b).value);
  }
}
