# PNG chunk layer of convert_to_ios.py

`convert_to_ios.py` turns Android screenshots into PNG files that iOS Photos treats as
screenshots. The core it rests on is a small PNG chunk toolkit. This project models that core
in Dafny and proves properties of the model. The toolkit has these parts:

- **Encoder.** `create_png_chunk` writes one chunk record: a 4-byte big-endian length, a
  4-byte type, the data, and the CRC-32 of type and data.
- **Parser.** `extract_chunks_from_png` checks the 8-byte signature and then walks the
  records as `(type, data)` pairs. The walk never looks at checksums. It stops after an IEND
  record or when fewer than 13 bytes remain.
- **Inserter.** `insert_chunk_after` finds the first record of a given type and splices a new
  record in after it. When there is no such record, the new record goes 12 bytes before the
  end of the buffer, which is where the IEND record of a well-formed file starts.
- **Rebuild.** Inside `convert_android_to_ios`, the chunks are sorted into IHDR, sRGB, IDAT
  and "other" chunks. A new file is written as: signature, IHDR, sRGB (the input's, or a
  default with rendering intent 0), the other chunks, the IDAT chunks, then an empty IEND.
  IEND, eXIf, pHYs and sBIT chunks are dropped.
- **Reposition.** After exiftool has written its EXIF chunk, pHYs (144 dpi) goes after eXIf
  unless a pHYs chunk is present. Then sBIT (8 bits per channel) goes after pHYs unless an
  sBIT chunk was present.
- **Output names.** `process_directory` gives each input an output file name. The name is
  the basename of the input. A `.jpg`/`.jpeg` extension (compared case-insensitively) becomes
  `.png`. A name already seen gets a `_k` suffix before its extension.

The modules follow these parts:

- `Bytes` and `Slices`: bytes, big-endian integers and slice facts.
- `Crc`: CRC-32 as in ISO/IEC 15948, Annex D.
- `Chunks`: the encoder, and the layout predicates `RecordAt`, `RecordsAt` and `Framed`.
  `Framed(buf, cs)` says that `buf` is a signature, then records of `cs`, then an empty IEND
  record that ends the buffer. The checksum bytes are not constrained.
- `Parser`, `Inserter`, `Assemble`, `Reposition` and `OutputNames`: the other parts above.

Each loop of the source is a method. Each method is proved equal to a function that states
what the loop computes. The properties are then proved about those functions. The main
properties are:

- parsing the encoded chunks gives them back;
- inserting a record and parsing the result is inserting into the parsed list;
- the rebuild is idempotent;
- the reposition step is idempotent on a framed buffer whose only IEND is the final record.
  On a buffer with bytes after an early IEND record it is not: the walk stops at that IEND,
  so a second run inserts pHYs and sBIT again;
- output names are numbered by counting the earlier inputs with the same plain name.

## Model

| member | source | states |
|---|---|---|
| Bytes.Be32 | convert_to_ios.py:31 | `struct.pack('>I', n)` for n below 2^32: four bytes, and reading them back big-endian gives n |
| Bytes.FromBe32 | convert_to_ios.py:49 | `struct.unpack('>I', ...)` of four bytes is below 2^32 |
| Crc.Crc32 | convert_to_ios.py:29 | `zlib.crc32(...) & 0xffffffff` as in Annex D of ISO/IEC 15948: the checksum is an unsigned 32-bit value |
| Crc.IendCrc | convert_to_ios.py:29 | the checksum of the four bytes "IEND" is 0xAE426082, computed through the register byte by byte |
| Chunks.Encode | convert_to_ios.py:27-35 | the record is 12 bytes longer than the data; its length field reads back as the data length, followed by the type and the data |
| Chunks.EncodeChecksum | convert_to_ios.py:29-34 | the last four bytes of a record read back as the CRC-32 of type followed by data |
| Chunks.TerminalBytes | convert_to_ios.py:197 | `create_png_chunk(b'IEND', b'')` is the twelve bytes 00 00 00 00 "IEND" AE 42 60 82 |
| Chunks.EncodeAllAppend | convert_to_ios.py:176-197 | encoding records one after another distributes over concatenation of the chunk lists |
| Chunks.EncodedRecords | convert_to_ios.py:27-35 | the encoded records of a list, found anywhere in a buffer, are records of that list at that offset |
| Chunks.ContainerFramed | convert_to_ios.py:176-197 | signature plus encoded records plus the IEND record is a framed buffer of those chunks, whatever they are |
| Chunks.RecordsAppend | convert_to_ios.py:46-55 | records of `a + b` are records of `a` followed by records of `b`, in both directions |
| Chunks.RecordsMove | convert_to_ios.py:83 | records depend only on the bytes they cover, so copying those bytes elsewhere keeps them records |
| Parser.Parse | convert_to_ios.py:38-57 | fails exactly when the buffer is shorter than 8 bytes or does not start with the PNG signature; every data run it returns fits a length field |
| Parser.ExtractChunks | convert_to_ios.py:38-57 | the signature check and the `while i < len(data) - 12` loop, with payloads clamped at the end of the buffer and an exit after IEND, compute `Parse` |
| Parser.ParseFramable | convert_to_ios.py:49-51 | every chunk the walk returns has data shorter than 2^32, since a slice is never longer than the length that asked for it |
| Parser.TerminalOnlyLast | convert_to_ios.py:54-55 | only the last chunk of a walk can be IEND, because the loop leaves right after one |
| Parser.ParseRecords | convert_to_ios.py:48-55 | walking over the records of IEND-free chunks yields those chunks and continues after them |
| Parser.ParseFramed | convert_to_ios.py:48 | a framed buffer parses to its chunks without the final IEND, which the `len - 12` guard never reaches; checksums play no part |
| Parser.ParseFramedWithTrailer | convert_to_ios.py:48-55 | with at least one byte after the IEND record, the walk does return IEND as the last chunk and ignores what follows |
| Parser.ParseContainer | convert_to_ios.py:27-57 | round trip: parsing signature, encoded records and IEND record gives back the IEND-free, framable chunks |
| Parser.ParseContainerWithTrailer | convert_to_ios.py:27-57 | the same round trip with trailing bytes returns the chunks followed by IEND |
| Inserter.FindAnchor | convert_to_ios.py:63-75 | the search loop, when it finds the anchor type, returns an offset at least 12 past where it started |
| Inserter.PyIndex | convert_to_ios.py:83 | a Python slice index: clamped to the length, counted from the end when negative, and 0 below that |
| Inserter.InsertAfter | convert_to_ios.py:60-83 | the result is one record longer; the buffer up to the insert position comes first, then the new record, then the rest of the buffer unchanged |
| Inserter.InsertChunkAfter | convert_to_ios.py:60-83 | the search loop and the splice compute `InsertAfter` |
| Inserter.FirstOfKind | convert_to_ios.py:66-74 | the first index whose chunk has the anchor type: every earlier chunk has another type; none means no chunk has it |
| Inserter.InsertInList | convert_to_ios.py:60-83 | the chunk-level reference: the new chunk placed right after the first anchor chunk, or at the end, with the others unchanged around it |
| Inserter.InsertAddsOne | convert_to_ios.py:83 | the inserted list is the old one plus the new chunk, as multisets |
| Inserter.FindAnchorFramed | convert_to_ios.py:66-74 | in a framed buffer the search stops at the end of the record of the first anchor chunk, and that is before the IEND record |
| Inserter.FindAnchorFramedNone | convert_to_ios.py:66-79 | in a framed buffer without an anchor chunk the search finds nothing, and `len - 12` is the start of the IEND record |
| Inserter.InsertPositionFramed | convert_to_ios.py:62-79 | in a framed buffer the splice offset is the end of the records that precede the insert index, and is never before the signature or after the IEND record |
| Inserter.Splice | convert_to_ios.py:82-83 | cutting a framed buffer between records and putting a record in the gap gives records of the chunks with the new one between, and the signature is kept |
| Inserter.InsertFramed | convert_to_ios.py:60-83 | inserting into a framed buffer gives a framed buffer of the list-level insertion |
| Inserter.InsertNoTerminal | convert_to_ios.py:60-83 | inserting a non-IEND chunk into an IEND-free list keeps it IEND-free |
| Inserter.ParseInsertAfter | convert_to_ios.py:38-83 | parsing after a byte-level insertion equals inserting into the parsed list |
| Assemble.ClassOf | convert_to_ios.py:165-173 | the `if`/`elif` chain: IHDR, sRGB and IDAT each go to their own branch, and exactly IEND, eXIf, pHYs and sBIT are dropped |
| Assemble.OfClass | convert_to_ios.py:169-173 | the chunks of one class keep their order, have only that class, are no more than the input, and are framable when the input is |
| Assemble.LastOfClass | convert_to_ios.py:165-168 | `ihdr_chunk`/`srgb_chunk` after the loop: none exactly when no chunk has that class, otherwise the last one |
| Assemble.Classify | convert_to_ios.py:159-173 | the classification loop leaves the last IHDR, the last sRGB, the IDAT chunks and the other chunks in order |
| Assemble.OfClassAppend | convert_to_ios.py:164-173 | sorting out the chunks of a class distributes over concatenation |
| Assemble.OfClassMembers | convert_to_ios.py:169-173 | a chunk is among those of a class exactly when it is in the input and has that class |
| Assemble.LayoutOfParts | convert_to_ios.py:176-197 | what the loop leaves behind, written out as in the source, is the chunk list of the rebuilt file |
| Assemble.ReassembleBytes | convert_to_ios.py:159-197 | the classification loop and the writing loops produce `Reassemble` of the parsed chunks |
| Assemble.LayoutClean | convert_to_ios.py:176-197 | the rebuilt chunk list is framable and has no IEND before the final record |
| Assemble.LayoutClasses | convert_to_ios.py:176-197 | sorting the rebuilt list again gives at most one IHDR, exactly the one sRGB, the same other chunks, the same IDAT chunks, and nothing dropped |
| Assemble.LayoutIdempotent | convert_to_ios.py:159-197 | rebuilding the chunks of a rebuilt list changes nothing |
| Assemble.ReassembleParses | convert_to_ios.py:38-57 | reading the rebuilt file back gives the rebuilt chunk list |
| Assemble.ReassembleStable | convert_to_ios.py:159-197 | running the rebuild on the parse of its own output reproduces that output byte for byte |
| Reposition.PhysFields | convert_to_ios.py:261 | the pHYs payload `struct.pack('>IIB', 5669, 5669, 1)` is nine bytes that read back as 5669, 5669 and unit 1 |
| Reposition.Reposition | convert_to_ios.py:252-274 | the step fails, as the parse it begins with raises, exactly when the buffer lacks the PNG signature |
| Reposition.Contains | convert_to_ios.py:252-269 | the `has_phys`/`has_sbit` loop finds a chunk of the type exactly when one exists |
| Reposition.RepositionBytes | convert_to_ios.py:252-274 | parse, the two presence checks on the same chunk list, and the two insertions compute `Reposition` |
| Reposition.InsertHasKind | convert_to_ios.py:260-274 | after an insertion the new type is present, and so is every type that was |
| Reposition.RepositionComplete | convert_to_ios.py:252-274 | afterwards the chunk list has a pHYs and an sBIT chunk |
| Reposition.RepositionKeeps | convert_to_ios.py:260-274 | a list with both pHYs and sBIT is left as it is |
| Reposition.RepositionListIdempotent | convert_to_ios.py:252-274 | applying the chunk-level step twice adds nothing the second time |
| Reposition.RepositionFresh | convert_to_ios.py:260-274 | with neither chunk present, pHYs and then sBIT land together right after the first eXIf (or at the end without one), and nothing else moves |
| Reposition.RepositionSbitOnly | convert_to_ios.py:265-274 | with pHYs present and sBIT missing, sBIT goes right after the first pHYs |
| Reposition.RepositionFramed | convert_to_ios.py:252-274 | a framed IEND-free buffer gives a framed IEND-free buffer of the chunk-level result |
| Reposition.RepositionParses | convert_to_ios.py:252-274 | reading the result back gives the chunk-level result |
| Reposition.RepositionIdempotent | convert_to_ios.py:252-274 | running the step on its own output returns that output unchanged |
| Reposition.TrailerEndsEarly | convert_to_ios.py:48-55 | signature, empty IEND record and at least twelve trailing bytes form a buffer whose walk ends at its first record |
| Reposition.RepositionEarlyEnd | convert_to_ios.py:252-274 | on such a buffer the parse sees only IEND, both chunks are spliced in behind that IEND record (after the anchor search or at `len - 12`), and the result is again such a buffer, 36 bytes longer |
| Reposition.RepositionRepeats | convert_to_ios.py:252-274 | so on such a buffer a second run of the step inserts pHYs and sBIT again: the step is not idempotent there |
| OutputNames.LastIndex | convert_to_ios.py:381-382 | the last position of a character in a string, or -1; no later position holds it |
| OutputNames.BaseName | convert_to_ios.py:381 | `os.path.basename` on `/` paths: a suffix of the path with no `/` in it |
| OutputNames.SplitExt | convert_to_ios.py:382-394 | `os.path.splitext`: the stem and the extension concatenate back to the name |
| OutputNames.ExtensionShape | convert_to_ios.py:382 | the extension is empty, or a dot followed by no further dot or `/` |
| OutputNames.SplitExtCases | convert_to_ios.py:382 | `os.path.splitext` finds no extension exactly when every dot of the last path component has only dots before it there; when it finds one, the last component of the stem is not all dots (with `ExtensionShape` this pins the split) |
| OutputNames.Lower | convert_to_ios.py:384 | `str.lower` on ASCII: no upper-case letter is left, each becomes the same letter in lower case, every other character keeps its place, and the length is kept |
| OutputNames.JpegWords | convert_to_ios.py:384 | `ext.lower() in ['.jpg', '.jpeg']` holds exactly when the extension spells `.jpg` or `.jpeg` with any of its letters in upper case |
| OutputNames.DigitsValue | convert_to_ios.py:395 | the counter in the f-string is written in decimal: its digits, most significant first, denote the counter, with no leading zero |
| OutputNames.OutputName | convert_to_ios.py:381-389 | the plain output name (basename, `.jpg`/`.jpeg` replaced by `.png`) never contains `/` |
| OutputNames.OutputNameCases | convert_to_ios.py:381-389 | an input whose extension spells `.jpg`/`.jpeg` in any case is named `stem.png`, which splits back into the same stem and `.png` (so its `_k` form is `stem_k.png`); any other input keeps its base name |
| OutputNames.OutputNameIdempotent | convert_to_ios.py:381-389 | an output name is its own output name: a second pass renames nothing |
| OutputNames.DedupNames | convert_to_ios.py:377-397 | the loop with its `used_filenames` dictionary, as written, computes `Run` of the plain names |
| OutputNames.RunCounts | convert_to_ios.py:391-397 | the dictionary holds each plain name seen with its number of repeats, and the i-th output is its plain name when it is first seen, and otherwise its plain name with suffix `_k` where k is the number of earlier inputs with that plain name |
| OutputNames.DedupCollision | convert_to_ios.py:391-397 | for inputs `x/a.png`, `y/a.png`, `z/a_1.png` the loop as written hands out `a_1.png` twice |
| OutputNames.FreshName | convert_to_ios.py:391-395 | raising the counter until the numbered name is unused ends, with a name not yet handed out |
| OutputNames.DedupNamesDistinct | convert_to_ios.py:391-397 | the evidently intended dedup: every output name is distinct, and each is the plain name exactly when no earlier output took it, or otherwise the plain name with some counter |

## Left out

- File I/O, PIL, the exiftool subprocess, the temporary files and the timestamp handling
  (convert_to_ios.py outside the lines above). Buffers are parameters.
- The PNG pixel data is never decoded. IDAT and other payloads are opaque byte runs.
- Crc.Crc32: defined bit by bit as in Annex D of ISO/IEC 15948. zlib's `crc32` is not part of
  this model. The one concrete value used, the checksum of "IEND", is proved.
- Lower: only ASCII `A`-`Z` are folded. Python's full Unicode `str.lower` is not modelled.
- BaseName and SplitExt: POSIX `os.path` only, with `/` as the only separator. A leading run
  of dots never starts an extension, as in Python.
- OutputNames.DedupNames: the loop runs on the plain output names of its inputs. The
  progress messages and `os.path.join` with the output directory are left out.
- Inserter.InsertChunkAfter: it requires the new data to be shorter than 2^32, where
  `struct.pack('>I', ...)` would raise. The raise itself is not modelled.
- Chunks.Encode: has the same requirement as InsertChunkAfter, for the same reason.

## Findings

| source | as written | input that shows it | evidently intended | confidence | as-written member | corrected member |
|---|---|---|---|---|---|---|
| convert_to_ios.py:391-397 | the counter is kept per plain name and the numbered name is not checked against names already handed out | inputs `x/a.png`, `y/a.png`, `z/a_1.png`: the second becomes `a_1.png` and the third keeps its plain name `a_1.png`, so two inputs write the same output file | every input gets its own output file | not executed | OutputNames.DedupCollision | OutputNames.DedupNamesDistinct |
