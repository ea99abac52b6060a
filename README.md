# Videoscape GEO importer, modelled in Dafny

This project models the core of the GEO importer, which turns a Videoscape GEO text file into a scene. Each GEO file is one of three kinds: a mesh with coloured faces, a mesh with coloured vertices, or a lamp list. The model covers these parts of the importer:

- **The header classifier.** It skips signature and `#` lines. The 4th character of each signature selects the flavour, and the first other line gives the element count.
- **The vertex readers** `InternReadncV` and `InternReadcV`. They fill the temporary positions, and in the coloured-vertices flavour the temporary colours.
- **The two-pass face assembler.**
  - The sizing pass counts faces and vertex uses from a saved cursor.
  - The assembler then rewinds to that cursor.
  - The fill passes `InternReadcF` and `InternReadncF` then write the expanded vertex buffer and the colour channel.
- **The colour resolver** `InternReadColor` / `LookupColor`. It reads a decimal palette index or, failing that, a hexadecimal `0xRRGGBB` value. A sticky flag records which reader succeeded.
- **The lamp list builder** `InternReadLamp`. It reads five-line records and names each light `Lamp%04d%04X`.
- **The curve and surface reader** `InternReadFbS`, which always fails.
- **The scene finish** `InternReadFinish`.
- **`CanRead`'s extension check.**
- **The string helpers** `strcasestr`, `strcasecmp` and `hexstrtoul10`.

The project has five modules:

| module | file | contents |
|---|---|---|
| `ParsingUtils` | `parsing_utils.dfy` | the character-level primitives the importer calls: a line as a `'\0'`-terminated buffer, `SkipSpaces`, `strtoul10`, the real-number reader, and the `%d`/`%X` conversions |
| `GeoHelper` | `geo_helper.dfy` | `strcasestr` and `strcasecmp` as methods with loops, each proved against a reference definition; `hexstrtoul10` as a function |
| `GeoFormat` | `geo_format.dfy` | the entities and pure descriptions of what every stage computes from the file's lines |
| `GeoProperties` | `geo_properties.dfy` | properties of those descriptions |
| `GeoLoader` | `geo_loader.dfy` | the importer as a class whose fields persist across imports, and whose methods are proved against the descriptions in `GeoFormat` |

The class's fields are:

- the flavour, the colour-mode flag `rgbH`, the line buffer, the read cursor `buffer` and the position `sz`;
- `tempPositions` and `tempColors`;
- the output scene: one mesh with its face slots, face cursor, expanded vertices, vertex cursor and colour channel, plus the lights and the root node.

The input file is a sequence of lines, as the line splitter hands them over.

## Model

| member | source | states |
|---|---|---|
| ParsingUtils.PadZeros | code/GEOLoader.cpp:255 | the zero flag with a field width pads to exactly the width, or keeps the digits when they are wider |
| ParsingUtils.FormatDecimalLength | code/GEOLoader.cpp:255 | `%d` prints one character per decimal digit of the number |
| ParsingUtils.FormatHexLength | code/GEOLoader.cpp:255 | `%X` prints one character per hexadecimal digit of the number |
| ParsingUtils.FormatDecimalRoundTrip | code/GEOLoader.cpp:255 | what `%d` prints is all digits and reads back as the number printed |
| ParsingUtils.FormatHexRoundTrip | code/GEOLoader.cpp:255 | what `%X` prints is all hexadecimal digits and reads back as the number printed |
| ParsingUtils.DecimalValueZeroPadded | code/GEOLoader.cpp:255 | padding `%04d` with leading zeros never changes the value of the field |
| ParsingUtils.HexValueZeroPadded | code/GEOLoader.cpp:255 | padding `%04X` with leading zeros never changes the value of the field |
| ParsingUtils.Strtoul10ReadsFormattedDecimal | code/GEOLoader.cpp:179 | a 32-bit number written in decimal and followed by a non-digit is read back by strtoul10, which stops right after its digits |
| ParsingUtils.DecimalValueZero | code/GEOLoader.cpp:204-205 | a run of digits reads as 0 (a face line that does not count) exactly when every digit is `'0'` |
| GeoHelper.StrCaseStr | code/GEOHelper.h:87-98 | needs a nonempty needle, and a search that never reads past the haystack's terminator; returns the leftmost start where every needle character equals the haystack's under bitwise `c OR 32` (terminator included); returns none exactly when no start matches |
| GeoHelper.StrCaseCmp | code/GEOHelper.h:102-108 | the result is `CompareFolded`, the three-way comparison under `tolower` |
| GeoHelper.CompareFoldedZero | code/GEOHelper.h:102-108 | strcasecmp is 0 exactly when both strings have the same length and agree under `tolower` everywhere |
| GeoHelper.CompareFoldedPrefix | code/GEOHelper.h:107 | a proper case-insensitive prefix compares as -1 against the longer string, and the longer string as 1 against it |
| GeoHelper.CompareFoldedMismatch | code/GEOHelper.h:103-107 | otherwise the result is the `tolower` difference at the first disagreement |
| GeoHelper.CompareFoldedAntisymmetric | code/GEOHelper.h:102-108 | swapping the arguments negates the result |
| GeoHelper.Strtoull16 | code/GEOHelper.h:119 | `strtoull(…, 16)`: blanks, an optional sign and `0x` prefix, then hex digits; the value saturates at `ULLONG_MAX` and a `-` negates it modulo 2^64, so it always lies below 2^64 |
| GeoHelper.HexStrToUl10 | code/GEOHelper.h:111-134 | the result is strtoull's base-16 value truncated to 32 bits, so it lies below 2^32 |
| GeoHelper.Strtoull16ReadsPlainHex | code/GEOHelper.h:119 | over blanks followed only by hex digits, strtoull reads exactly those digits, and hexstrtoul10 returns their value mod 2^32 |
| GeoHelper.HexStrToUl10ReadsFormattedHex | code/GEOHelper.h:111-134 | a 32-bit number printed with `%X`, after any number of blanks, reads back through hexstrtoul10 |
| GeoFormat.ScanHeader | code/GEOLoader.cpp:146-179 | the header loop, ending at the end of the input: the last line it examines lies in the input |
| GeoFormat.StoreColour | code/GEOLoader.cpp:481-501 | InternReadColor at `pos` changes only entry `pos` and the mode flag; a readable token stores its colour and sets the flag to its reader; an unreadable token keeps both |
| GeoFormat.Resize | code/GEOLoader.cpp:185 | `std::vector::resize`: the new length is `n`, the old prefix is kept, and new slots get the default value |
| GeoFormat.UnpackedRgbPacks | code/GEOLoader.cpp:506-508 | the three unpacked bytes pack back into the value's low 24 bits |
| GeoFormat.VertexLinesRead | code/GEOLoader.cpp:362-368 | the vertex loop reads `count` lines, or all remaining lines when the input ends first |
| GeoFormat.VertexBlock | code/GEOLoader.cpp:362-370 | the lines the vertex loop reads are the input's lines from the cursor on, as many as VertexLinesRead |
| GeoFormat.ReadIndices | code/GEOLoader.cpp:405-408 | `n` raw indices are read, and reading stops on the line |
| GeoFormat.ParseFace | code/GEOLoader.cpp:397-412 | a counted face has its leading number as index count (at least 1), and exactly that many raw indices |
| GeoFormat.CountedBefore | code/GEOLoader.cpp:202-213 | the faces the sizing loop counts among the first `n` lines (those with a nonzero leading number), never more than `n` |
| GeoFormat.ParsedFaces | code/GEOLoader.cpp:202-213 | there is one face per line whose leading number is nonzero |
| GeoFormat.SizingInBounds | code/GEOLoader.cpp:202-213 | the sizing loop's `faces++` never leaves the fixed face array; a block with no more lines than slots always satisfies it |
| GeoFormat.LampRecordCount | code/GEOLoader.cpp:251 | no record is read exactly when no line remains; otherwise the last record starts inside the input and reaches its end |
| GeoFormat.Lights | code/GEOLoader.cpp:251-309 | one light per record |
| GeoFormat.LampName | code/GEOLoader.cpp:255 | `sprintf("Lamp%04d%04X")`: the name starts with `Lamp` and is at least 12 characters long, both fields being padded to four |
| GeoFormat.RecordLine | code/GEOLoader.cpp:267-299 | line `t` of a record is the line just before RecordCursor, so past the end of the input the buffer keeps the last line |
| GeoFormat.RecordCursor | code/GEOLoader.cpp:267-298 | each GetNextLine of a record advances the cursor by one line until the input ends, and never past it |
| GeoFormat.LampAfterFields | code/GEOLoader.cpp:252-306 | after lines 0 to `t` of a record: name and type come from line 0; colour, position and direction hold their line's triple once that line is read, and are zero before |
| GeoFormat.ParseLamp | code/GEOLoader.cpp:252-265 | the light of a record is named `LampName(ordinal, type)` and carries the type read by strtoul10 from its first line |
| GeoFormat.SelectFlavour | code/GEOLoader.cpp:147-173 | the switch fails exactly on an unrecognised signature (with UnknownFileVersion); otherwise `'1'`, `'2'` and `'R'` select their flavours, and `'3'` and `#` lines keep the flavour |
| GeoFormat.ReadColourToken | code/GEOLoader.cpp:486-498 | the token is decimal exactly when strtoul10 reads a nonzero value; a token read is never 0, a hex token lies below 2^32, and the position stays on the line |
| GeoFormat.TokenColour | code/GEOLoader.cpp:486-498 | an unreadable token writes no colour; a readable one gives a set colour, RGB exactly for a hex token |
| GeoFormat.LookupColor | code/GEOLoader.cpp:504-520 | the colour is always set, and is an RGB triple exactly in hexadecimal mode (a table entry otherwise) |
| GeoFormat.ParseVertex | code/GEOLoader.cpp:343-349 | x, y and z read one after another across blanks; z starts at `zStart`, and the reader stops at or after it and on the line |
| GeoFormat.ColoursBefore | code/GEOLoader.cpp:412-417 | the coloured-faces fill over the first `n` faces keeps the colour table's size |
| GeoFormat.FaceColours | code/GEOLoader.cpp:412-417 | the coloured-faces fill over all faces keeps the colour table's size |
| GeoProperties.ScanHeaderOutcome | code/GEOLoader.cpp:146-179 | every line before the stop is a recognised header line; the count is read exactly when the stop line is not a header line, and it is that line's leading number; unknown-version exactly on an unrecognised signature; a missing count exactly when the input ends inside the header |
| GeoProperties.ScanHeaderFlavour | code/GEOLoader.cpp:147-173 | after the header the flavour is the one the last selecting signature named, or the flavour from before when none selects |
| GeoProperties.ScanHeaderNeverSelectsCurves | code/GEOLoader.cpp:160-163 | no header selects the curve and surface flavour |
| GeoProperties.HeaderLoopStep | code/GEOLoader.cpp:147-175 | one iteration of the header loop as written never moves the cursor back |
| GeoProperties.HeaderLoopStallsAtEndOfInput | code/GEOLoader.cpp:146-175 | once the input is exhausted with a recognised header line in the buffer, the loop condition stays true and the state stops changing, so the loop never ends |
| GeoProperties.HeaderLoopHangsOnSignatureOnlyFile | code/GEOLoader.cpp:146-175 | the file `3DG1` alone makes the loop repeat one state forever |
| GeoProperties.ScanHeaderRejectsSignatureOnlyFile | code/GEOLoader.cpp:146-179 | the corrected header reader ends that file with a missing-count error |
| GeoProperties.LookupColorChannels | code/GEOLoader.cpp:504-519 | in hex mode, three byte channels that pack back into the value's low 24 bits; in table mode, the entry of the low nibble |
| GeoProperties.LookupColorLowNibble | code/GEOLoader.cpp:511-518 | in table mode, values with the same low nibble give the same colour; the bits 0xF0 only log |
| GeoProperties.LookupColorUnpacksRgb | code/GEOLoader.cpp:505-509 | in hex mode, `0xRRGGBB` unpacks to its own channels |
| GeoProperties.TokensModeKeptByUnreadable | code/GEOLoader.cpp:489-493 | a block in which no colour token can be read leaves the mode flag as it found it |
| GeoProperties.TokensModeForgetsStart | code/GEOLoader.cpp:489-498 | once a token has been read, the flag the block started with no longer matters |
| GeoProperties.TokensModeIsLastReadable | code/GEOLoader.cpp:489-498 | the flag is hex exactly when the last readable token was read by the hex reader |
| GeoProperties.FacesBeforeAt | code/GEOLoader.cpp:202-213 | a counted line is the next face after the faces of the lines before it |
| GeoProperties.SizedFacesFit | code/GEOLoader.cpp:180-212 | a face block whose sizing pass stays inside the fixed face array has at most that many faces |
| GeoProperties.ParsedFacesCountsMatch | code/GEOLoader.cpp:397-408 | every face reads as many raw indices as its index count, and at least one |
| GeoProperties.TotalIndicesZero | code/GEOLoader.cpp:205-218 | every face uses at least one vertex, so the vertex total is 0 (no valid faces) exactly when no face line counts |
| GeoProperties.ExpandedRawsLength | code/GEOLoader.cpp:405-409 | one raw index per expanded vertex |
| GeoProperties.ExpandedRawsBelow | code/GEOLoader.cpp:407-409 | every expanded vertex refers to a raw vertex below the bound that all raw indices respect |
| GeoProperties.ExpandedRawsAt | code/GEOLoader.cpp:405-409 | expanded vertex `p_k + m` comes from raw index `m` of face `k`, where `p_k` is the sum of the earlier counts |
| GeoProperties.FaceRecordsCoverExpandedVertices | code/GEOLoader.cpp:390-421 | the faces' index lists, concatenated, are exactly 0, 1, …, total-1, so each expanded vertex is used once |
| GeoProperties.FaceRecordAt | code/GEOLoader.cpp:400-408 | face `k` records its index count and the consecutive indices `p_k` to `p_k + n_k - 1` |
| GeoProperties.FaceColourKept | code/GEOLoader.cpp:412-416 | while no face stores a readable colour at `pos`, entry `pos` keeps its earlier value |
| GeoProperties.FaceColourIsLatestStored | code/GEOLoader.cpp:412-416 | entry `pos` holds the colour of the last face that stored a readable token there |
| GeoProperties.FaceColoursLength | code/GEOLoader.cpp:414-417 | one colour per expanded vertex |
| GeoProperties.FaceColoursAt | code/GEOLoader.cpp:412-417 | every vertex of face `k` gets the colour stored at the face's last raw index just after the face was read, whatever later faces store |
| GeoProperties.FaceColourTokenReadable | code/GEOLoader.cpp:488-490 | on a counted line the hex reparse one character back stays on the line |
| GeoProperties.EndOfCountedAt | code/GEOLoader.cpp:390-393 | the fill pass stops right after the line that completes the faces |
| GeoProperties.LampNameRoundTrip | code/GEOLoader.cpp:255 | a lamp name is `Lamp`, then the ordinal in four decimal digits (up to 9999), then the lamp type in hexadecimal, each reading back as its number |
| GeoProperties.LampNameLength | code/GEOLoader.cpp:254-255 | the name is four letters plus the two zero-padded fields |
| GeoProperties.LampLoopStep | code/GEOLoader.cpp:251 | record `k` starts inside the input; the next record does exactly when there is one |
| GeoProperties.RecordEnd | code/GEOLoader.cpp:267-298 | after a record's five lines the cursor stands past its last line read, and the buffer holds that line |
| GeoProperties.NextLight | code/GEOLoader.cpp:308-309 | appending record `k`'s light, numbered `k + 1`, gives the lights of the first `k + 1` records in file order |
| GeoLoader.FaceBlockStep | code/GEOLoader.cpp:202-213 | line `j` counts exactly when its leading number is nonzero, and is then face number `ci[j]` |
| GeoLoader.OffsetsOf | code/GEOLoader.cpp:405-409 | face `k` owns the expanded vertices from the index total of the faces before it, and these agree with the face records and the expanded raw indices |
| GeoLoader.ColourPlanOf | code/GEOLoader.cpp:412-417 | every face stores its token in the colour table and colours its vertices as FaceColours does |
| GeoLoader.GeoImporter.constructor | code/GEOLoader.cpp:85-87 | `rgbH` false, empty temporary stores, no flavour selected |
| GeoLoader.GeoImporter.CanRead | code/GEOLoader.cpp:96-110 | true exactly when the extension matches inside `"3DG geo GouR"` under bitwise `c OR 32`, or a signature check is asked for and either there is no I/O handler or the header holds a token |
| GeoLoader.GeoImporter.GetNextLine | code/GEOLoader.cpp:146 | hands out the next line and advances; at the end of the input it fails and leaves the line buffer as it was |
| GeoLoader.GeoImporter.ReadHeader | code/GEOLoader.cpp:146-179 | the count, flavour, line buffer and cursor are those of ScanHeader (the loop corrected to stop at the end of the input) |
| GeoLoader.GeoImporter.ReadVector | code/GEOLoader.cpp:372-377 | three reals separated by blanks; `sz` is left where z starts |
| GeoLoader.GeoImporter.InternReadncV | code/GEOLoader.cpp:356-380 | the lines of the vertex block are read in order; line `k`'s position is stored at index `k`; later positions and the vector's length are unchanged |
| GeoLoader.GeoImporter.ReadVertices | code/GEOLoader.cpp:362-378 | the InternReadncV loop stores the block's positions in order, stopping early at the end of the input |
| GeoLoader.GeoImporter.ReadVertexLine | code/GEOLoader.cpp:364-377 | one vertex line: the next line, and its position stored at index `i` |
| GeoLoader.GeoImporter.InternReadcV | code/GEOLoader.cpp:325-353 | tempColors is resized to `count`; vertex `k` gets its position and its colour token's colour (or keeps its entry when unreadable); the mode flag follows the tokens in order |
| GeoLoader.GeoImporter.ReadColouredVertices | code/GEOLoader.cpp:333-351 | the InternReadcV loop over the block: positions, colours and the mode flag, line by line |
| GeoLoader.GeoImporter.ReadColouredVertexLine | code/GEOLoader.cpp:335-350 | one coloured vertex line: its position and its colour token stored at index `i` |
| GeoLoader.GeoImporter.InternReadColor | code/GEOLoader.cpp:481-501 | the colour table and flag become StoreColour of the token read: decimal first, then hex one character earlier; nothing stored when both read 0; `sz` stays where the decimal reader stopped, or one before it |
| GeoLoader.GeoImporter.CountFaces | code/GEOLoader.cpp:202-213 | mNumFaces is the number of counted lines; the vertex counter is the sum of their counts mod 2^32; slot `k` holds face `k`'s count; later slots are untouched; the line buffer holds the input's last line (or what it held, when no line was left) |
| GeoLoader.GeoImporter.SizeFaces | code/GEOLoader.cpp:202-213 | the sizing loop reads to the end of the input and leaves the state of SizedUpTo for all faces; the line buffer always holds the last line handed out |
| GeoLoader.GeoImporter.SizeFaceLine | code/GEOLoader.cpp:203-212 | one sizing line: its count is written to the current slot; a nonzero count advances the slot and the counters |
| GeoLoader.GeoImporter.CountFace | code/GEOLoader.cpp:204-212 | the line's count goes into the current slot even when zero; a nonzero count makes the slot face i's record and adds to the face counter and to the vertex counter modulo 2^32 |
| GeoLoader.GeoImporter.CopyFaceVertices | code/GEOLoader.cpp:405-410 | the face gets the next `idx` expanded indices; each gets the position of its raw index; `pos` is the last raw index |
| GeoLoader.GeoImporter.ReadFaceIndex | code/GEOLoader.cpp:406-407 | blanks skipped, then the `m`-th raw index of the line |
| GeoLoader.GeoImporter.SpreadFaceColour | code/GEOLoader.cpp:414-417 | every index of the face takes `tempColors[pos]`; earlier colours are kept |
| GeoLoader.GeoImporter.AllocateColours | code/GEOLoader.cpp:401-404 | the colour channel is allocated, one entry per vertex, only at the first face |
| GeoLoader.GeoImporter.ReadColouredFace | code/GEOLoader.cpp:400-419 | one coloured face: its record, its vertices' positions, its token stored at its last raw index, and its vertices coloured from there |
| GeoLoader.GeoImporter.InternReadcF | code/GEOLoader.cpp:383-426 | tempColors is resized to the face count; the faces hold their records; every vertex holds its raw position; the colour table and channel are those of FaceColours; the face cursor ends on the last face |
| GeoLoader.GeoImporter.FillColouredFaces | code/GEOLoader.cpp:390-421 | the InternReadcF loop leaves ColouredFacesFilled, with the face cursor after the last face |
| GeoLoader.GeoImporter.LastFace | code/GEOLoader.cpp:422-423 | the face cursor steps back onto the last face when `count` is nonzero |
| GeoLoader.GeoImporter.ColouredFaceLoop | code/GEOLoader.cpp:390-421 | the loop fills every face and vertex of the plan, and stops right after the last counted line, which the line buffer then holds (it keeps its old content when the loop reads nothing) |
| GeoLoader.GeoImporter.FillColouredFaceLine | code/GEOLoader.cpp:391-419 | one iteration: the next line, read as the next face when its count is nonzero; the line buffer holds the last line handed out |
| GeoLoader.GeoImporter.ColouredFaceLine | code/GEOLoader.cpp:397-419 | a line with count 0 is skipped; otherwise it is face `i` |
| GeoLoader.GeoImporter.NextFaceCount | code/GEOLoader.cpp:391-397 | the next line and its leading index count; the line buffer then holds that line |
| GeoLoader.GeoImporter.FillColouredFace | code/GEOLoader.cpp:400-419 | face `i` of the coloured-faces plan is written |
| GeoLoader.GeoImporter.InternReadncF | code/GEOLoader.cpp:429-464 | the faces hold their records; every vertex holds the position and the colour stored at its own raw index; the face cursor ends on the last face |
| GeoLoader.GeoImporter.FillVertexColouredFaces | code/GEOLoader.cpp:434-459 | the InternReadncF loop leaves VertexColouredFacesFilled |
| GeoLoader.GeoImporter.VertexColouredFaceLoop | code/GEOLoader.cpp:434-459 | the loop, bounded by mNumFaces, fills every face and stops right after the last counted line, which the line buffer then holds (it keeps its old content when the loop reads nothing) |
| GeoLoader.GeoImporter.FillVertexColouredFaceLine | code/GEOLoader.cpp:435-458 | one iteration: the next line, read as the next face when its count is nonzero; the line buffer holds the last line handed out |
| GeoLoader.GeoImporter.VertexColouredFaceLine | code/GEOLoader.cpp:441-458 | a line with count 0 is skipped; otherwise it is face `i` |
| GeoLoader.GeoImporter.FillVertexColouredFace | code/GEOLoader.cpp:444-458 | face `i` of the coloured-vertices plan is written |
| GeoLoader.GeoImporter.ReadVertexColouredFace | code/GEOLoader.cpp:444-458 | one face: its record, and the positions and colours of its raw indices |
| GeoLoader.GeoImporter.CopyColouredFaceVertices | code/GEOLoader.cpp:449-456 | each index of the face gets the position and the colour of its own raw index |
| GeoLoader.GeoImporter.InternReadLamp | code/GEOLoader.cpp:244-312 | room for `count` lights; the lights are those of every five-line record to the end of the input, in file order; the line buffer holds the input's last line (or what it held, when no line was left) |
| GeoLoader.GeoImporter.ReadLampRecords | code/GEOLoader.cpp:251-310 | the lamp loop reads records until the input ends, with the line buffer holding the last line handed out |
| GeoLoader.GeoImporter.ReadLampRecord | code/GEOLoader.cpp:251-309 | one record read and appended when a line is left; otherwise the input is at its end; either way the line buffer holds the last line handed out |
| GeoLoader.GeoImporter.ReadLampFields | code/GEOLoader.cpp:252-309 | record `k` becomes light `k + 1` and is appended; the cursor and line buffer are where the record's last read left them |
| GeoLoader.GeoImporter.ReadLamp | code/GEOLoader.cpp:252-306 | the record's light, named after its ordinal and type, whose name fits the 16-byte buffer |
| GeoLoader.GeoImporter.ReadLampBody | code/GEOLoader.cpp:267-306 | the spot, colour, position and direction lines, in order |
| GeoLoader.GeoImporter.ReadSpot | code/GEOLoader.cpp:267-275 | the inner and outer cone angles |
| GeoLoader.GeoImporter.ReadRecordTriple | code/GEOLoader.cpp:277-306 | the colour, position or direction line, as three reals |
| GeoLoader.GeoImporter.NextRecordLine | code/GEOLoader.cpp:267-268 | the record's next line; past the end of the input the buffer keeps the last line |
| GeoLoader.GeoImporter.InternReadFbS | code/GEOLoader.cpp:315-322 | the rest of the input is consumed and the import fails as not supported |
| GeoLoader.GeoImporter.InternReadFinish | code/GEOLoader.cpp:467-478 | the root node is named `<GEORoot>` and lists meshes 0 to mNumMeshes-1 |
| GeoLoader.GeoImporter.InternReadFile | code/GEOLoader.cpp:126-241 | the flavour, error and scene are as ScanHeader and BodyImported describe, for each flavour; a header failure leaves tempPositions, tempColors and rgbH as they were, and the line buffer on the header line where the scan stopped; the lamp, no-flavour and curves paths leave tempColors and rgbH as they were and tempPositions only resized; a mesh import's scene has no lights; after the header the line buffer is as BodyImported states for each path |
| GeoLoader.GeoImporter.NewScene | code/GEOLoader.cpp:135 | the scene handed over has no light, no mesh and no root node |
| GeoLoader.GeoImporter.ImportBody | code/GEOLoader.cpp:182-240 | no flavour fails at dispatch, with the line buffer as the header left it; curves fail; lamps read lights into an empty mesh; these three leave tempColors and rgbH unchanged and tempPositions only resized; curves and lamps read to the end of the input, and the line buffer holds the last line handed out; the mesh flavours read vertices, then faces, and leave the scene without lights; the line buffer then holds the last counted face line, or after a failure with no valid faces the last line the sizing pass handed out |
| GeoLoader.GeoImporter.ImportCurves | code/GEOLoader.cpp:190-191 | the curves flavour's part of BodyImported: the import fails as not supported, the temporaries are kept, and the line buffer holds the last line handed out before the end of the input |
| GeoLoader.GeoImporter.ImportLampBody | code/GEOLoader.cpp:188-189 | the lamp flavour's part of BodyImported: no error, the lights of every record, the temporaries kept, and the line buffer holding the last line handed out before the end of the input |
| GeoLoader.GeoImporter.ImportMesh | code/GEOLoader.cpp:186-240 | the mesh flavours' part of BodyImported: coloured faces or coloured vertices, each read as its flavour reads it, with no lights in the scene and the line buffer as that flavour leaves it |
| GeoLoader.GeoImporter.NewMesh | code/GEOLoader.cpp:182-185 | one mesh with 32365*3 empty face slots; tempPositions is resized to the element count |
| GeoLoader.GeoImporter.ImportLamps | code/GEOLoader.cpp:189-240 | the lights of every record after the header, an empty single mesh, and the root node; the line buffer holds the last line handed out before the end of the input |
| GeoLoader.GeoImporter.ImportColouredFaces | code/GEOLoader.cpp:187-240 | the vertex block read into tempPositions; then the face block fails with no valid faces (the 32-bit vertex counter ends at 0), leaving tempColors and rgbH unchanged and the sizing pass's last line in the line buffer, or fills the mesh as InternReadcF does and leaves the last counted line there |
| GeoLoader.GeoImporter.ReadVertexBlock | code/GEOLoader.cpp:187-188 | line `k` of the vertex block gives position `k`; the rest of tempPositions is kept; the line buffer holds the block's last line read |
| GeoLoader.GeoImporter.ReadColouredFaceBlock | code/GEOLoader.cpp:198-240 | sizing, rewind and the coloured-faces fill; without valid faces it fails with tempColors and rgbH unchanged; the line buffer ends on the sizing pass's last line after a failure, on the last counted line after the fill |
| GeoLoader.GeoImporter.FillColouredMesh | code/GEOLoader.cpp:229-240 | the coloured-faces fill from fresh face slots, then the root node |
| GeoLoader.GeoImporter.ImportColouredVertices | code/GEOLoader.cpp:193-240 | the vertex block read into positions, colours and the mode flag; then the face block fails with no valid faces (the 32-bit vertex counter ends at 0), leaving the sizing pass's last line in the line buffer, or fills the mesh as InternReadncF does and leaves the last counted line there |
| GeoLoader.GeoImporter.ReadColouredVertexBlock | code/GEOLoader.cpp:193-194 | line `k` gives position `k` and stores its colour at index `k`; the mode flag follows the tokens; the line buffer holds the block's last line read |
| GeoLoader.GeoImporter.ReadVertexColouredFaceBlock | code/GEOLoader.cpp:198-240 | sizing, rewind and the coloured-vertices fill; the line buffer ends on the sizing pass's last line after a failure, on the last counted line after the fill |
| GeoLoader.GeoImporter.FillVertexColouredMesh | code/GEOLoader.cpp:229-240 | the coloured-vertices fill from fresh face slots, then the root node |
| GeoLoader.GeoImporter.SizeMesh | code/GEOLoader.cpp:198-230 | fails with no valid faces exactly when the 32-bit vertex counter ends at 0 (no counted line, or a total that is a multiple of 2^32); otherwise the counts are set, the vertices allocated, and both cursors rewound; the line buffer holds the last line the sizing pass handed out |
| GeoLoader.GeoImporter.AllocateAndRewind | code/GEOLoader.cpp:226-230 | one vertex per counted vertex use; the line cursor back at the mark; the face cursor at the first slot |

Some choices in the model follow the code where the format's design reads otherwise:

- **A `'3'` signature.** It never selects the curve and surface flavour (ScanHeaderNeverSelectsCurves). A fresh importer then fails at dispatch with no flavour set. An importer reused after an earlier file keeps that file's flavour.
- **Raw vertex indices.** They are not clamped, so every raw index must be below the element count (a precondition).
- **The lamp flavour.** It still allocates the single mesh, which stays empty.
- **The coloured-faces flavour.**
  - Each face's colour token is stored at the face's last raw index in `tempColors`. That table is sized by the face count, so this index must be below the face count (a precondition).
  - The face's vertices take whatever that entry holds afterwards. When the token is unreadable, that is an earlier face's colour.

## Left out

- **File I/O and detection.** This covers opening the file, `TextFileToBuffer`, `GetExtension` and `SearchFileHeaderForToken`. They become parameters: the input's lines, the extension, whether an I/O handler exists, and whether the header holds a token.
- **Floats.** Reals are the exact decimals their text spells; rounding to `float` is not modelled. Hex colours are kept as their integer channels; the division by 255 is not modelled.
- **The palette.** The contents of the 16-entry colour table are not modelled. A palette colour is its table index.
- **Diagnostics.** Logging, progress updates and the `printf` diagnostics of hexstrtoul10 are not modelled. Neither are `GetInfo` and `SetupProperties`.
- **Memory management.** `new[]`, the lazily allocated colour channel and the face and vertex pointers become sequences with explicit cursors.
- **The line buffer.**
  - A line is its characters; reading past its end sees `'\0'`.
  - Stale bytes that a shorter line leaves in the 4096-byte buffer are not modelled.
  - The input's line splitting (`GetNextLine`) is taken as given.
- **Uninitialised fields.** The constructor gives fixed values to the fields the C++ constructor leaves uninitialised: the line buffer, the cursors and `color`. The flavour starts as "none selected".
- **Curve and surface content.** It is not read. Only the reader's failure is modelled.
- **Output in place.** The mesh's face, vertex and colour arrays are sequence fields that the methods reassign, not arrays updated in place. The model therefore does not capture aliasing between them; the source has none.
- GeoFormat.ScanHeader: models the header loop corrected to stop at the end of the input (see Findings). The loop as written is HeaderLoopStep.
- GeoHelper.HexStrToUl10: its own contract states only the 32-bit bound. Its value is tied to the text by HexStrToUl10ReadsFormattedHex and Strtoull16ReadsPlainHex, for blanks followed by plain hex digits.
- GeoHelper.StrCaseStr: requires a nonempty needle and a search that never reads past the haystack's terminator. On other inputs the C code reads out of bounds.
- GeoLoader.GeoImporter.CanRead: requires a nonempty extension, which strcasestr needs. With an empty extension the C code would read past the needle's terminator.
- GeoLoader.GeoImporter.InternReadFile: requires ImportDefined. Its conditions are:
  - the sizing pass stays in the fixed face array;
  - the 32-bit vertex counter holds the vertex total, or wraps to exactly 0 (the import then fails with no valid faces);
  - raw indices are in range;
  - coloured-faces last raw indices are below the face count;
  - the colour reparse stays on the line;
  - there are no more lamp records than the declared count;
  - lamp names fit their 16-byte buffer.

  Each of these rules out an out-of-bounds access in the source. For the vertex counter, a wrap to a nonzero value allocates fewer vertices than the fill writes.
- GeoLoader.GeoImporter.InternReadLamp: does not model the `aiLightSourceType` cast, so the type is stored as the number read.

## Findings

| source | as written | input that shows it | evidently intended | confidence | as-written member | corrected member |
|---|---|---|---|---|---|---|
| code/GEOLoader.cpp:146-175 | the header loop repeats while the buffer holds a header line, and ignores GetNextLine's failure at the end of the input, which leaves the buffer unchanged | a file consisting of the single line `3DG1` | the import ends with an error when the input ends inside the header | not executed | GeoProperties.HeaderLoopHangsOnSignatureOnlyFile | GeoProperties.ScanHeaderRejectsSignatureOnlyFile |
