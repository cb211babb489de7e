/**
 * The rebuild step of `convert_android_to_ios` (convert_to_ios.py, lines 159-197): the parsed
 * chunks are sorted into IHDR, sRGB, IDAT and "other" chunks, and a fresh PNG is written as
 * signature, IHDR, sRGB (the input's or a default), the other chunks, the IDAT chunks and an
 * empty IEND. IEND, eXIf, pHYs and sBIT chunks are dropped.
 */
module Assemble {
  import opened Bytes
  import opened Wrappers
  import opened Slices
  import opened Chunks
  import opened Parser

  /** The branch of the classification chain a chunk type takes. */
  datatype Class = Header | Colour | Image | Other | Dropped

  /** The `if`/`elif` chain of the classification loop, in its order. */
  function ClassOf(k: Tag): (r: Class)
    ensures r == Header <==> k == IHDR
    ensures r == Colour <==> k == SRGB
    ensures r == Image <==> k == IDAT
    ensures r == Dropped <==> k in [IEND, EXIF, PHYS, SBIT]
  {
    if k == IHDR then Header
    else if k == SRGB then Colour
    else if k == IDAT then Image
    else if k !in [IEND, EXIF, PHYS, SBIT] then Other
    else Dropped
  }

  /** The sRGB chunk written when the input has none: rendering intent 0 (perceptual). */
  const DefaultColour: Chunk := Chunk(SRGB, [0])

  /** The chunks of one class, in their original order (what `idat_chunks` and `other_chunks`
      hold once the loop has seen `cs`). */
  function OfClass(cs: seq<Chunk>, cl: Class): (r: seq<Chunk>)
    ensures |r| <= |cs|
    ensures forall k :: 0 <= k < |r| ==> ClassOf(r[k].kind) == cl
    ensures AllFramable(cs) ==> AllFramable(r)
    decreases |cs|
  {
    if cs == [] then []
    else
      var last := cs[|cs| - 1];
      OfClass(cs[..|cs| - 1], cl) + (if ClassOf(last.kind) == cl then [last] else [])
  }

  /** The chunk a variable reassigned on every chunk of a class holds at the end: the last of
      that class, if any. Later duplicates win. */
  function LastOfClass(cs: seq<Chunk>, cl: Class): (r: Option<Chunk>)
    ensures r.None? <==> OfClass(cs, cl) == []
    ensures r.Some? ==> r.value == OfClass(cs, cl)[|OfClass(cs, cl)| - 1]
    decreases |cs|
  {
    if cs == [] then None
    else if ClassOf(cs[|cs| - 1].kind) == cl then Some(cs[|cs| - 1])
    else LastOfClass(cs[..|cs| - 1], cl)
  }

  /** The IHDR written: the last one, or none. */
  function Head(cs: seq<Chunk>): (r: seq<Chunk>)
    ensures |r| <= 1 && forall k :: 0 <= k < |r| ==> r[k].kind == IHDR
    ensures AllFramable(cs) ==> AllFramable(r)
  {
    match LastOfClass(cs, Header) case Some(h) => [h] case None => []
  }

  /** The sRGB written: the last one, or the default. */
  function ColourOf(cs: seq<Chunk>): (r: Chunk)
    ensures r.kind == SRGB
    ensures AllFramable(cs) ==> Framable(r)
  {
    match LastOfClass(cs, Colour) case Some(s) => s case None => DefaultColour
  }

  /** The chunks of the rebuilt file before IEND. */
  function Layout(cs: seq<Chunk>): seq<Chunk> {
    Head(cs) + [ColourOf(cs)] + OfClass(cs, Other) + OfClass(cs, Image)
  }

  /** The bytes of the rebuilt file. */
  function Reassemble(cs: seq<Chunk>): seq<byte>
    requires AllFramable(cs)
  {
    LayoutClean(cs);
    Container(Layout(cs))
  }

  // ---------------------------------------------------------------- the loops

  /** The classification loop: the `ihdr_chunk`, `srgb_chunk`, `idat_chunks` and `other_chunks`
      it leaves behind. */
  method Classify(cs: seq<Chunk>) returns (ihdr: Option<Chunk>, srgb: Option<Chunk>, idats: seq<Chunk>, others: seq<Chunk>)
    ensures ihdr == LastOfClass(cs, Header) && srgb == LastOfClass(cs, Colour)
    ensures idats == OfClass(cs, Image) && others == OfClass(cs, Other)
  {
    ihdr, srgb, idats, others := None, None, [], [];
    for k := 0 to |cs|
      invariant ihdr == LastOfClass(cs[..k], Header) && srgb == LastOfClass(cs[..k], Colour)
      invariant idats == OfClass(cs[..k], Image) && others == OfClass(cs[..k], Other)
    {
      var c := cs[k];
      ClassStep(cs, k);
      if c.kind == IHDR {
        assert ClassOf(c.kind) == Header;
        ihdr := Some(c);
      } else if c.kind == SRGB {
        assert ClassOf(c.kind) == Colour;
        srgb := Some(c);
      } else if c.kind == IDAT {
        assert ClassOf(c.kind) == Image;
        idats := idats + [c];
      } else if c.kind !in [IEND, EXIF, PHYS, SBIT] {
        assert ClassOf(c.kind) == Other;
        others := others + [c];
      } else {
        assert ClassOf(c.kind) == Dropped;
      }
    }
    assert cs[..|cs|] == cs;
  }

  /** `png_data += create_png_chunk(...)` for a chunk, recorded against the chunks written so far. */
  method Append(png: seq<byte>, ghost written: seq<Chunk>, c: Chunk) returns (out: seq<byte>, ghost now: seq<Chunk>)
    requires AllFramable(written) && Framable(c) && png == Signature + EncodeAll(written)
    ensures now == written + [c] && AllFramable(now)
    ensures out == Signature + EncodeAll(now)
  {
    out := png + Encode(c);
    now := written + [c];
    EncodeOne(c);
    EncodeAllAppend(written, [c]);
    Assoc(Signature, EncodeAll(written), Encode(c));
  }

  /** A `for chunk_type, chunk_data in ...: png_data += create_png_chunk(...)` loop. */
  method AppendAll(png: seq<byte>, ghost written: seq<Chunk>, more: seq<Chunk>) returns (out: seq<byte>, ghost now: seq<Chunk>)
    requires AllFramable(written) && AllFramable(more) && png == Signature + EncodeAll(written)
    ensures now == written + more && AllFramable(now)
    ensures out == Signature + EncodeAll(now)
  {
    out, now := png, written;
    for k := 0 to |more|
      invariant AllFramable(now) && out == Signature + EncodeAll(now)
      invariant now == written + more[..k]
    {
      Extend(more, k);
      out, now := Append(out, now, more[k]);
      Assoc(written, more[..k], [more[k]]);
    }
    Extend(more, |more|);
  }

  /** The rebuild: signature, IHDR, sRGB or its default, the others, the IDATs, then IEND. */
  method ReassembleBytes(cs: seq<Chunk>) returns (png: seq<byte>)
    requires AllFramable(cs)
    ensures png == Reassemble(cs)
  {
    var ihdr, srgb, idats, others := Classify(cs);
    LayoutClean(cs);
    png := Signature;
    ghost var written: seq<Chunk> := [];
    if ihdr.Some? {
      png, written := Append(png, written, ihdr.value);
      assert written == [ihdr.value];
    }
    var colour := if srgb.Some? then srgb.value else Chunk(SRGB, [0]);
    png, written := Append(png, written, colour);
    png, written := AppendAll(png, written, others);
    png, written := AppendAll(png, written, idats);
    LayoutOfParts(cs, ihdr, srgb, idats, others);
    var last := Encode(Terminal);
    TerminalBytes();
    png := png + last;
  }

  /** The layout in terms of what the classification loop leaves behind. */
  lemma LayoutOfParts(cs: seq<Chunk>, ihdr: Option<Chunk>, srgb: Option<Chunk>, idats: seq<Chunk>, others: seq<Chunk>)
    requires ihdr == LastOfClass(cs, Header) && srgb == LastOfClass(cs, Colour)
    requires idats == OfClass(cs, Image) && others == OfClass(cs, Other)
    ensures Layout(cs)
      == (if ihdr.Some? then [ihdr.value] else []) + [if srgb.Some? then srgb.value else DefaultColour] + others + idats
  {
  }

  /** A prefix one element longer, and the whole sequence as its longest prefix. */
  lemma Extend<T>(s: seq<T>, k: nat)
    requires k <= |s|
    ensures k < |s| ==> s[..k + 1] == s[..k] + [s[k]]
    ensures s[..|s|] == s
  {
  }

  // ---------------------------------------------------------------- lemmas

  /** One more chunk seen by the classification loop. */
  lemma ClassStep(cs: seq<Chunk>, k: nat)
    requires k < |cs|
    ensures forall cl ::
      OfClass(cs[..k + 1], cl) == OfClass(cs[..k], cl) + (if ClassOf(cs[k].kind) == cl then [cs[k]] else [])
    ensures forall cl ::
      LastOfClass(cs[..k + 1], cl) == if ClassOf(cs[k].kind) == cl then Some(cs[k]) else LastOfClass(cs[..k], cl)
  {
    var next := cs[..k + 1];
    assert next != [] && |next| - 1 == k && next[..k] == cs[..k] && next[k] == cs[k];
    forall cl
      ensures LastOfClass(next, cl) == if ClassOf(cs[k].kind) == cl then Some(cs[k]) else LastOfClass(cs[..k], cl)
    {
    }
  }

  lemma EncodeOne(c: Chunk)
    requires Framable(c)
    ensures AllFramable([c]) && EncodeAll([c]) == Encode(c)
  {
    assert [c][1..] == [];
    assert Encode(c) + [] == Encode(c);
  }

  /** Classification keeps the original relative order: the chunks of a class in `a + b` are
      those in `a`, then those in `b`. */
  lemma {:induction false} OfClassAppend(a: seq<Chunk>, b: seq<Chunk>, cl: Class)
    ensures OfClass(a + b, cl) == OfClass(a, cl) + OfClass(b, cl)
    decreases |b|
  {
    if b == [] {
      assert a + b == a;
      assert OfClass(a, cl) + [] == OfClass(a, cl);
    } else {
      var ab, bl, x := a + b, b[..|b| - 1], b[|b| - 1];
      var tail := if ClassOf(x.kind) == cl then [x] else [];
      assert ab[..|ab| - 1] == a + bl && ab[|ab| - 1] == x;
      assert OfClass(ab, cl) == OfClass(a + bl, cl) + tail;
      assert OfClass(b, cl) == OfClass(bl, cl) + tail;
      OfClassAppend(a, bl, cl);
      Assoc(OfClass(a, cl), OfClass(bl, cl), tail);
    }
  }

  /** A chunk is kept in its class's list exactly when it is in the input and has that class. */
  lemma {:induction false} OfClassMembers(cs: seq<Chunk>, cl: Class, x: Chunk)
    ensures x in OfClass(cs, cl) <==> x in cs && ClassOf(x.kind) == cl
    decreases |cs|
  {
    if cs != [] {
      var front := cs[..|cs| - 1];
      OfClassMembers(front, cl, x);
      assert cs == front + [cs[|cs| - 1]];
    }
  }

  /** A list whose chunks all have one class is its own list for that class, and has nothing
      of any other class. */
  lemma {:induction false} OfClassUniform(cs: seq<Chunk>, cl: Class, other: Class)
    requires forall k :: 0 <= k < |cs| ==> ClassOf(cs[k].kind) == cl
    ensures OfClass(cs, cl) == cs
    ensures other != cl ==> OfClass(cs, other) == []
    decreases |cs|
  {
    if cs != [] {
      var front := cs[..|cs| - 1];
      OfClassUniform(front, cl, other);
      assert cs == front + [cs[|cs| - 1]];
    }
  }

  /** Every chunk of the layout is one of the input's kept chunks or the default sRGB, so it
      fits its length field; none of them is IEND. */
  lemma LayoutClean(cs: seq<Chunk>)
    requires AllFramable(cs)
    ensures AllFramable(Layout(cs)) && NoTerminal(Layout(cs))
  {
    var head, colour := Head(cs), ColourOf(cs);
    var others, images := OfClass(cs, Other), OfClass(cs, Image);
    var l := Layout(cs);
    forall k | 0 <= k < |l|
      ensures Framable(l[k]) && l[k].kind != IEND
    {
      if k < |head| {
        assert l[k] == head[k];
      } else if k == |head| {
        assert l[k] == colour;
      } else if k < |head| + 1 + |others| {
        assert l[k] == others[k - |head| - 1];
      } else {
        assert l[k] == images[k - |head| - 1 - |others|];
      }
    }
  }

  lemma OfClassFour(a: seq<Chunk>, b: seq<Chunk>, c: seq<Chunk>, d: seq<Chunk>, cl: Class)
    ensures OfClass(a + b + c + d, cl) == OfClass(a, cl) + OfClass(b, cl) + OfClass(c, cl) + OfClass(d, cl)
  {
    OfClassAppend(a, b, cl);
    OfClassAppend(a + b, c, cl);
    OfClassAppend(a + b + c, d, cl);
  }

  /** Classifying a list made of a run of each kept class gives back each run. */
  lemma OfClassParts(a: seq<Chunk>, b: seq<Chunk>, c: seq<Chunk>, d: seq<Chunk>, cl: Class)
    requires forall k :: 0 <= k < |a| ==> ClassOf(a[k].kind) == Header
    requires forall k :: 0 <= k < |b| ==> ClassOf(b[k].kind) == Colour
    requires forall k :: 0 <= k < |c| ==> ClassOf(c[k].kind) == Other
    requires forall k :: 0 <= k < |d| ==> ClassOf(d[k].kind) == Image
    ensures OfClass(a + b + c + d, cl)
      == match cl case Header => a case Colour => b case Other => c case Image => d case Dropped => []
  {
    OfClassFour(a, b, c, d, cl);
    Picked(a, Header, cl);
    Picked(b, Colour, cl);
    Picked(c, Other, cl);
    Picked(d, Image, cl);
    Pick4(OfClass(a, cl), OfClass(b, cl), OfClass(c, cl), OfClass(d, cl), a, b, c, d, cl);
  }

  /** Four runs, each kept only for its own class, joined. */
  lemma Pick4(w: seq<Chunk>, x: seq<Chunk>, y: seq<Chunk>, z: seq<Chunk>,
              a: seq<Chunk>, b: seq<Chunk>, c: seq<Chunk>, d: seq<Chunk>, cl: Class)
    requires w == (if cl == Header then a else []) && x == (if cl == Colour then b else [])
    requires y == (if cl == Other then c else []) && z == (if cl == Image then d else [])
    ensures w + x + y + z
      == match cl case Header => a case Colour => b case Other => c case Image => d case Dropped => []
  {
    var e: seq<Chunk> := [];
    match cl
    case Header => assert a + e + e + e == a;
    case Colour => assert e + b + e + e == b;
    case Other => assert e + e + c + e == c;
    case Image => assert e + e + e + d == d;
    case Dropped => assert e + e + e + e == e;
  }

  /** The list of a class from a run of one class: the run itself or nothing. */
  lemma Picked(xs: seq<Chunk>, home: Class, cl: Class)
    requires forall k :: 0 <= k < |xs| ==> ClassOf(xs[k].kind) == home
    ensures OfClass(xs, cl) == if cl == home then xs else []
  {
    OfClassUniform(xs, home, cl);
  }

  /** What each class holds in the layout: at most the one IHDR, exactly one sRGB, the same
      "other" chunks and the same IDAT chunks as the input, in the same order, and nothing of
      the dropped types. */
  lemma LayoutClasses(cs: seq<Chunk>, cl: Class)
    ensures OfClass(Layout(cs), cl) == match cl
      case Header => Head(cs)
      case Colour => [ColourOf(cs)]
      case Other => OfClass(cs, Other)
      case Image => OfClass(cs, Image)
      case Dropped => []
  {
    OfClassParts(Head(cs), [ColourOf(cs)], OfClass(cs, Other), OfClass(cs, Image), cl);
  }

  /** Rebuilding is idempotent: the layout of a layout is itself. */
  lemma LayoutIdempotent(cs: seq<Chunk>)
    ensures Layout(Layout(cs)) == Layout(cs)
  {
    var l := Layout(cs);
    LayoutClasses(cs, Header);
    LayoutClasses(cs, Colour);
    LayoutClasses(cs, Other);
    LayoutClasses(cs, Image);
    assert Head(l) == Head(cs);
    assert ColourOf(l) == ColourOf(cs);
  }

  /** Reading the rebuilt file gives back its layout: the rebuilt file is a PNG whose records
      are exactly the chosen chunks, in the chosen order. */
  lemma ReassembleParses(cs: seq<Chunk>)
    requires AllFramable(cs)
    ensures Parse(Reassemble(cs)) == Ok(Layout(cs))
  {
    LayoutClean(cs);
    ParseContainer(Layout(cs));
  }

  /** Rebuilding a rebuilt file reproduces it byte for byte. */
  lemma ReassembleStable(cs: seq<Chunk>)
    requires AllFramable(cs)
    ensures var out := Reassemble(cs);
      Parse(out).Ok? && AllFramable(Parse(out).value) && Reassemble(Parse(out).value) == out
  {
    ReassembleParses(cs);
    LayoutIdempotent(cs);
  }
}
