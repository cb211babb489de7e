/**
 * PNG chunks and their byte layout (ISO/IEC 15948, sections 5.2 to 5.4): the chunk encoder
 * `create_png_chunk` of convert_to_ios.py, and the layout predicates on which the parser and
 * the inserter are proved.
 */
module Chunks {
  import opened Bytes
  import opened Slices
  import Crc

  /** A chunk type: four bytes. */
  type Tag = s: seq<byte> | |s| == 4 witness [0, 0, 0, 0]

  /** A chunk as the source passes it around: the pair (type, data). */
  datatype Chunk = Chunk(kind: Tag, data: seq<byte>)

  /** The 8-byte PNG signature, section 5.2. */
  const Signature: seq<byte> := [0x89, 0x50, 0x4E, 0x47, 0x0D, 0x0A, 0x1A, 0x0A]

  const IHDR: Tag := [0x49, 0x48, 0x44, 0x52]
  const SRGB: Tag := [0x73, 0x52, 0x47, 0x42]
  const IDAT: Tag := [0x49, 0x44, 0x41, 0x54]
  const IEND: Tag := [0x49, 0x45, 0x4E, 0x44]
  const EXIF: Tag := [0x65, 0x58, 0x49, 0x66]
  const PHYS: Tag := [0x70, 0x48, 0x59, 0x73]
  const SBIT: Tag := [0x73, 0x42, 0x49, 0x54]

  /** The terminal chunk: IEND with no data. */
  const Terminal: Chunk := Chunk(IEND, [])

  /** The data length fits the 4-byte length field (`struct.pack('>I', ...)` raises otherwise). */
  predicate Framable(c: Chunk) {
    |c.data| < 0x1_0000_0000
  }

  predicate AllFramable(cs: seq<Chunk>) {
    forall k :: 0 <= k < |cs| ==> Framable(cs[k])
  }

  predicate NoTerminal(cs: seq<Chunk>) {
    forall k :: 0 <= k < |cs| ==> cs[k].kind != IEND
  }

  // ---------------------------------------------------------------- encoder

  /** `create_png_chunk`: length, type, data, then the CRC-32 of type and data (section 5.3).
      Read back field by field, the record gives the length, the type and the data. */
  function Encode(c: Chunk): (r: seq<byte>)
    requires Framable(c)
    ensures |r| == 12 + |c.data|
    ensures FromBe32(r[..4]) == |c.data| && r[4..8] == c.kind && r[8..8 + |c.data|] == c.data
  {
    var n := |c.data|;
    Fields(Be32(n), c.kind, c.data, Be32(Crc.Crc32(c.kind + c.data)));
    Be32(n) + c.kind + c.data + Be32(Crc.Crc32(c.kind + c.data))
  }

  /** The last four bytes of a record are the CRC-32 of its type and data, most significant first. */
  lemma EncodeChecksum(c: Chunk)
    requires Framable(c)
    ensures FromBe32(Encode(c)[8 + |c.data|..]) == Crc.Crc32(c.kind + c.data)
  {
    Fields(Be32(|c.data|), c.kind, c.data, Be32(Crc.Crc32(c.kind + c.data)));
  }

  /** The records of `cs` one after another. */
  function EncodeAll(cs: seq<Chunk>): seq<byte>
    requires AllFramable(cs)
    decreases |cs|
  {
    if cs == [] then [] else Encode(cs[0]) + EncodeAll(cs[1..])
  }

  /** The record of an empty IEND chunk, as computed by `create_png_chunk(b'IEND', b'')`. */
  const TerminalRecord: seq<byte> := [0, 0, 0, 0, 0x49, 0x45, 0x4E, 0x44, 0xAE, 0x42, 0x60, 0x82]

  /** A well-framed PNG: signature, the records of `cs`, then an empty IEND record. */
  function Container(cs: seq<Chunk>): seq<byte>
    requires AllFramable(cs)
  {
    Signature + EncodeAll(cs) + TerminalRecord
  }

  /** The empty terminal record is the twelve bytes 00 00 00 00 "IEND" AE 42 60 82 that end every PNG. */
  lemma TerminalBytes()
    ensures Encode(Terminal) == TerminalRecord
  {
    TerminalCrc();
    assert Be32(0) == [0, 0, 0, 0];
    EncodeFields(Terminal, [0, 0, 0, 0], [0xAE, 0x42, 0x60, 0x82]);
    assert [0, 0, 0, 0] + IEND + [] + [0xAE, 0x42, 0x60, 0x82] == TerminalRecord;
  }

  /** The checksum field of the empty IEND record. */
  lemma TerminalCrc()
    ensures Be32(Crc.Crc32(IEND + [])) == [0xAE, 0x42, 0x60, 0x82]
  {
    assert IEND + [] == [0x49, 0x45, 0x4E, 0x44];
    Crc.IendCrc();
    IendCrcField();
  }

  lemma IendCrcField()
    ensures Be32(0xAE42_6082) == [0xAE, 0x42, 0x60, 0x82]
  {
    var n := 0xAE42_6082;
    assert n / 0x100 == 0xAE_4260 && n % 0x100 == 0x82;
    assert 0xAE_4260 / 0x100 == 0xAE42 && 0xAE_4260 % 0x100 == 0x60;
    assert 0xAE42 / 0x100 == 0xAE && 0xAE42 % 0x100 == 0x42;
  }

  /** A record is its four fields in a row. */
  lemma EncodeFields(c: Chunk, len: seq<byte>, crc: seq<byte>)
    requires Framable(c) && len == Be32(|c.data|) && crc == Be32(Crc.Crc32(c.kind + c.data))
    ensures Encode(c) == len + c.kind + c.data + crc
  {
  }

  lemma {:induction false} EncodeAllAppend(a: seq<Chunk>, b: seq<Chunk>)
    requires AllFramable(a) && AllFramable(b)
    ensures AllFramable(a + b)
    ensures EncodeAll(a + b) == EncodeAll(a) + EncodeAll(b)
    decreases |a|
  {
    if a == [] {
      assert a + b == b;
    } else {
      assert (a + b)[0] == a[0];
      assert (a + b)[1..] == a[1..] + b;
      EncodeAllAppend(a[1..], b);
      Assoc(Encode(a[0]), EncodeAll(a[1..]), EncodeAll(b));
    }
  }

  // ---------------------------------------------------------------- layout

  /** A record of `c` starts at offset `i` of `data`: its length field, its type and its data
      are there, and its four checksum bytes, whatever they hold, still fit in `data`. */
  predicate RecordAt(data: seq<byte>, i: nat, c: Chunk) {
    i + 12 + |c.data| <= |data| && FromBe32(data[i..i + 4]) == |c.data|
    && data[i + 4..i + 8] == c.kind && data[i + 8..i + 8 + |c.data|] == c.data
  }

  /** Records of `cs`, one after another, fill `data` from offset `i` up to offset `j`. */
  predicate RecordsAt(data: seq<byte>, i: nat, cs: seq<Chunk>, j: nat)
    decreases |cs|
  {
    if cs == [] then i == j
    else
      i + 12 + |cs[0].data| <= j && RecordAt(data, i, cs[0])
      && RecordsAt(data, i + 12 + |cs[0].data|, cs[1..], j)
  }

  /** The number of bytes the records of `cs` take. */
  function Width(cs: seq<Chunk>): nat
    decreases |cs|
  {
    if cs == [] then 0 else 12 + |cs[0].data| + Width(cs[1..])
  }

  /** A buffer read as a PNG whose checksums are not looked at: the signature, then records of
      `cs`, then a record of the empty IEND chunk ending exactly at the end of the buffer. */
  predicate Framed(buf: seq<byte>, cs: seq<Chunk>) {
    |buf| >= 8 && buf[..8] == Signature && RecordsAt(buf, 8, cs + [Terminal], |buf|)
  }

  lemma {:induction false} RecordsWidth(data: seq<byte>, i: nat, cs: seq<Chunk>, j: nat)
    requires RecordsAt(data, i, cs, j)
    ensures j == i + Width(cs) && AllFramable(cs)
    decreases |cs|
  {
    if cs != [] {
      RecordsWidth(data, i + 12 + |cs[0].data|, cs[1..], j);
      assert forall k :: 1 <= k < |cs| ==> cs[k] == cs[1..][k - 1];
    }
  }

  /** Records of `a + b` are records of `a` followed by records of `b`, and conversely. */
  lemma {:induction false} RecordsAppend(data: seq<byte>, i: nat, a: seq<Chunk>, b: seq<Chunk>, j: nat)
    ensures RecordsAt(data, i, a + b, j) <==>
      RecordsAt(data, i, a, i + Width(a)) && RecordsAt(data, i + Width(a), b, j)
    decreases |a|
  {
    if a == [] {
      assert a + b == b;
    } else {
      var m := i + 12 + |a[0].data|;
      assert (a + b)[0] == a[0];
      assert (a + b)[1..] == a[1..] + b;
      RecordsAppend(data, m, a[1..], b, j);
      if RecordsAt(data, i + Width(a), b, j) {
        RecordsWidth(data, i + Width(a), b, j);
      }
    }
  }

  /** Records depend only on the bytes they cover: copied to offset `k` of another buffer, up
      to offset `l` there, they are records there. */
  lemma {:induction false} RecordsMove(data: seq<byte>, i: nat, cs: seq<Chunk>, j: nat, moved: seq<byte>, k: nat, l: nat)
    requires RecordsAt(data, i, cs, j) && j <= |data|
    requires l == k + (j - i) <= |moved| && moved[k..l] == data[i..j]
    ensures RecordsAt(moved, k, cs, l)
    decreases |cs|
  {
    RecordsWidth(data, i, cs, j);
    if cs != [] {
      var c, w := cs[0], j - i;
      var n := 12 + |c.data|;
      SameSlices(moved, k, data, i, w, 0, 4);
      SameSlices(moved, k, data, i, w, 4, 8);
      SameSlices(moved, k, data, i, w, 8, 8 + |c.data|);
      SameSlices(moved, k, data, i, w, n, w);
      RecordsMove(data, i + n, cs[1..], j, moved, k + n, l);
    }
  }

  /** An encoded chunk found in a buffer is a record of that chunk. */
  lemma EncodedRecord(data: seq<byte>, i: nat, c: Chunk, j: nat)
    requires Framable(c)
    requires j == i + 12 + |c.data| <= |data| && data[i..j] == Encode(c)
    ensures RecordAt(data, i, c) && RecordsAt(data, i, [c], j)
  {
    var e := Encode(c);
    SliceWithin(data, i, e, 0, 4);
    SliceWithin(data, i, e, 4, 8);
    SliceWithin(data, i, e, 8, 8 + |c.data|);
    assert e[0..4] == e[..4];
    assert [c][1..] == [];
  }

  /** The encoded records of `cs`, found in a buffer from `i` to `j`, are records of `cs`. */
  lemma {:induction false} EncodedRecords(data: seq<byte>, i: nat, cs: seq<Chunk>, j: nat)
    requires AllFramable(cs)
    requires j == i + |EncodeAll(cs)| <= |data| && data[i..j] == EncodeAll(cs)
    ensures RecordsAt(data, i, cs, j)
    decreases |cs|
  {
    if cs != [] {
      var m := i + 12 + |cs[0].data|;
      EncodedFirst(data, i, cs, m, j);
      EncodedRecords(data, m, cs[1..], j);
      RecordsCons(data, i, cs, m, j);
    }
  }

  /** The first encoded record is a record of the first chunk, and the others follow it. */
  lemma EncodedFirst(data: seq<byte>, i: nat, cs: seq<Chunk>, m: nat, j: nat)
    requires AllFramable(cs) && cs != [] && m == i + 12 + |cs[0].data|
    requires j == i + |EncodeAll(cs)| <= |data| && data[i..j] == EncodeAll(cs)
    ensures RecordAt(data, i, cs[0]) && m <= j && AllFramable(cs[1..])
    ensures j == m + |EncodeAll(cs[1..])| && data[m..j] == EncodeAll(cs[1..])
  {
    var e, rest := Encode(cs[0]), EncodeAll(cs[1..]);
    EncodeCons(cs);
    PartsAt(data, i, e, rest, m, j);
    EncodedRecord(data, i, cs[0], m);
  }

  /** A record of the first chunk followed by records of the others. */
  lemma RecordsCons(data: seq<byte>, i: nat, cs: seq<Chunk>, m: nat, j: nat)
    requires cs != [] && RecordAt(data, i, cs[0]) && m == i + 12 + |cs[0].data| <= j
    requires RecordsAt(data, m, cs[1..], j)
    ensures RecordsAt(data, i, cs, j)
  {
  }

  /** The encoding of a non-empty list: the first record, then the others. */
  lemma EncodeCons(cs: seq<Chunk>)
    requires AllFramable(cs) && cs != []
    ensures AllFramable(cs[1..]) && EncodeAll(cs) == Encode(cs[0]) + EncodeAll(cs[1..])
  {
    assert forall k :: 1 <= k < |cs| ==> cs[1..][k - 1] == cs[k];
  }

  /** A buffer is framed when its signature, its records and its final IEND record are in place. */
  lemma FramedOfParts(buf: seq<byte>, cs: seq<Chunk>, n: nat)
    requires 8 <= n && n + 12 == |buf| && buf[..8] == Signature
    requires RecordsAt(buf, 8, cs, n) && RecordsAt(buf, n, [Terminal], |buf|)
    ensures Framed(buf, cs)
  {
    RecordsWidth(buf, 8, cs, n);
    RecordsAppend(buf, 8, cs, [Terminal], |buf|);
  }

  /** Every buffer built by encoding is framed, whatever chunks it holds. */
  lemma ContainerFramed(cs: seq<Chunk>)
    requires AllFramable(cs)
    ensures Framed(Container(cs), cs)
  {
    var body, t := EncodeAll(cs), TerminalRecord;
    var data, n := Container(cs), 8 + |body|;
    Fields(Signature, body, t, []);
    assert data + [] == data;
    EncodedRecords(data, 8, cs, n);
    TerminalBytes();
    EncodedRecord(data, n, Terminal, n + 12);
    FramedOfParts(data, cs, n);
  }
}
