# XYZ decoding and lcftrans file bookkeeping in Dafny

This project models two small parts of the EasyRPG tools.

**The XYZ image decoder** of the KDE thumbnailer (`XyzImage::toImage`). An XYZ
file starts with the signature `XYZ1`. Then come the width and the height as
16-bit values, and then a zlib stream. The stream inflates into a buffer of
`768 + w*h` bytes: a palette of 256 RGB triples, then one palette index per
pixel. The decoder turns this into a `w*h*4`-byte BGRA buffer with alpha 255,
row by row.

Module `Xyz` (`xyz.dfy`) models the decoder imperatively:

- The inflate buffer and the pixel buffer are arrays.
- The nested row/column loop is a method, `ExpandPixels`, proved against the specification function `Expand`.
- `ToImage` leaves the `Image` object untouched on a wrong signature or a zlib failure. Otherwise it fills it in; a header with a zero width or height gives the null image, whose dimensions read 0 by 0.
- zlib's `uncompress` is an oracle parameter. It takes the compressed bytes and the destination capacity. It returns a status and the bytes it wrote to the start of the destination.

**The lcftrans tool** translates RPG Maker 2000/2003 games. Module `LcfTrans`
(`lcftrans.dfy`) models what it does with file names:

- `main` classifies game files by their lower-case name and hands them to the database, map-tree or map extractor.
- It finds the ini file and the database in the game directory.
- It resolves the text encoding in a fixed fallback order; a bad encoding ends the run with exit code 3.
- It sorts the listing of the game directory by name.
- `get_outdir_file` looks up existing translation files case-insensitively.
- In match mode it pairs `.po` files of two directories and names the `.unmatched.po` output.
- It computes the fuzzy count and picks "term" or "terms" in its messages.

The global configuration of `main` is the class `Session`. Its methods grow the
listings and set the found files, the encoding and the sorted order, as the
source does. Directory listings enter as sequences of names.

Module `Text` (`text.dfy`) defines:

- `Utils::LowerCase` as ASCII lower-casing. File names are byte strings (`d_name`), often Shift-JIS in RPG Maker games; one Dafny `char` of a name stands for one byte of `d_name`, and lower-casing is taken to work byte by byte, so only the bytes 'A'..'Z' change. Characters outside 'A'..'Z' are kept and the length never changes. `utils.h` is not part of this model.
- `Utils::HasExt` as a plain suffix test.
- The order of `std::string`'s `operator<`: lexicographic by character code, a proper prefix first.

Platform assumptions:

- The host is little-endian LP64: `int` is 32 bits, `size_t` and `uLongf` are 64 bits.
- `memcpy` of a 16-bit value therefore reads the low byte first.
- `std::string::size_type` wraps at 2^64.

## Model

| member | source | states |
|---|---|---|
| `Xyz.MagicExact` | xyz-thumbnailer/kde/src/xyz.cpp:17-19 | the `strncmp(data, "XYZ1", 4) == 0` test holds exactly when the first four bytes are 'X', 'Y', 'Z', '1' (both directions) |
| `Xyz.U16RoundTrip` | xyz-thumbnailer/kde/src/xyz.cpp:21-24 | reading two bytes as a little-endian 16-bit value and splitting the value back gives the same two bytes |
| `Xyz.U16BytesRoundTrip` | xyz-thumbnailer/kde/src/xyz.cpp:21-24 | splitting a 16-bit value into bytes and reading them back gives the value |
| `Xyz.Width` | xyz-thumbnailer/kde/src/xyz.cpp:21-22 | the width is below 2^16 and its little-endian bytes are exactly bytes 4 and 5 of the file |
| `Xyz.Height` | xyz-thumbnailer/kde/src/xyz.cpp:23-24 | the height is below 2^16 and its little-endian bytes are exactly bytes 6 and 7 of the file |
| `Xyz.Int32` | xyz-thumbnailer/kde/src/xyz.cpp:28 | the value an overflowing 32-bit `int` computation yields on the usual two's-complement build: in the 32-bit range and congruent to the exact value modulo 2^32 (C++ leaves signed overflow undefined; this is the common wrap-around) |
| `Xyz.ToSize` | xyz-thumbnailer/kde/src/xyz.cpp:40 | converting an `int` to a 64-bit unsigned size gives a value below 2^64: a negative value becomes value + 2^64, a non-negative one is kept |
| `Xyz.PixelBytesOverflow` | xyz-thumbnailer/kde/src/xyz.cpp:40 | for a 32768 by 32768 header, `w * h * 4` overflows `int` (undefined behaviour); with the usual wrap-around `malloc` is asked for 0 bytes, while the image needs 2^32 bytes |
| `Xyz.BufferSizeOverflow` | xyz-thumbnailer/kde/src/xyz.cpp:28 | for a 65535 by 65535 header, `w * h` overflows `int` (undefined behaviour); with the usual wrap-around `768 + (w * h)` becomes 2^64 - 130303 instead of 4294836993 |
| `Xyz.SizesFit` | xyz-thumbnailer/kde/src/xyz.cpp:28-40 | computed in `size_t`, the buffer size `768 + w*h` and the pixel size `w*h*4` never wrap for any 16-bit width and height |
| `Xyz.AsWrittenAgreesWhenSmall` | xyz-thumbnailer/kde/src/xyz.cpp:28-40 | while `w*h*4` fits in an `int`, both sizes as written equal the intended ones |
| `Xyz.Filled` | xyz-thumbnailer/kde/src/xyz.cpp:28-31 | the destination has exactly the requested size; it holds the bytes zlib wrote at its start and 0 in every byte after them |
| `Xyz.Inflated` | xyz-thumbnailer/kde/src/xyz.cpp:26-31 | zlib is given the bytes after the 8-byte header and a capacity of `768 + w*h`; what it writes fits within that capacity |
| `Xyz.Buffer` | xyz-thumbnailer/kde/src/xyz.cpp:28-31 | the decompressed buffer has exactly `768 + w*h` bytes |
| `Xyz.Bgra` | xyz-thumbnailer/kde/src/xyz.cpp:51-55 | each pixel becomes exactly four output bytes |
| `Xyz.Expand` | xyz-thumbnailer/kde/src/xyz.cpp:46-57 | expanding the first n pixels gives exactly 4n bytes |
| `Xyz.ExpandAt` | xyz-thumbnailer/kde/src/xyz.cpp:47-56 | output bytes 4i..4i+3 are the palette bytes 3p+2, 3p+1, 3p and 255, where p is the index byte at 768+i |
| `Xyz.DecodeGuards` | xyz-thumbnailer/kde/src/xyz.cpp:16-37 | pixels are produced if and only if the signature is "XYZ1" and zlib reports `Z_OK`; a wrong signature always gives NotXyz; a decoded image has the header's width and height |
| `Xyz.RowMajorBound` | xyz-thumbnailer/kde/src/xyz.cpp:48-50 | for column x < w and row y < h, the pixel number y*w + x is below w*h, so the index byte at 768 + y*w + x lies inside the buffer |
| `Xyz.DecodedPixel` | xyz-thumbnailer/kde/src/xyz.cpp:47-57 | a decoded image has exactly `w*h*4` bytes; pixel (x, y) is pixel i = y*w + x; its index byte 768+i is in bounds; its four bytes are the palette entry in BGR order followed by 255 |
| `Xyz.UnwrittenPixelsUsePaletteZero` | xyz-thumbnailer/kde/src/xyz.cpp:29-51 | a pixel whose index byte zlib did not write reads index 0, so it takes palette entry 0 |
| `Xyz.ExpandPixels` | xyz-thumbnailer/kde/src/xyz.cpp:46-57 | the nested y/x loop fills the whole pixel buffer with `Expand` of the decompressed buffer, advancing one index byte and four output bytes per pixel |
| `Xyz.ToImage` | xyz-thumbnailer/kde/src/xyz.cpp:16-64 | on a wrong signature or a zlib failure the result is false and the image is untouched; otherwise the image gets a fresh pixel buffer equal to the decoded pixels, and the result is true exactly when both header dimensions are non-zero; a true result gives the image the header's dimensions, a false one the null image's 0 by 0 |
| `Text.LowerCase` | lcftrans/src/main.cpp:146 | lower-casing keeps the length and lower-cases each character on its own |
| `Text.LessTotal` | lcftrans/src/main.cpp:181-183 | two different names are always ordered one way or the other by `std::string`'s `<` |
| `Text.NotLessTransitive` | lcftrans/src/main.cpp:181-183 | "not below" is transitive under `<`, so sorting by name is well defined |
| `LcfTrans.EntriesWellFormed` | lcftrans/src/main.cpp:146-147 | every entry recorded for a listing keeps, beside the name as read, exactly the lower-casing of that name |
| `LcfTrans.Entries` | lcftrans/src/main.cpp:112-114 | the entries recorded for a listing are one per name, in listing order |
| `LcfTrans.OutdirFileFirst` | lcftrans/src/main.cpp:204-211 | `get_outdir_file` returns the original-case name of the first entry whose lower-case name equals the key |
| `LcfTrans.OutdirFileNone` | lcftrans/src/main.cpp:204-211 | `get_outdir_file` returns "" when no entry's lower-case name equals the key |
| `LcfTrans.PoKey` | lcftrans/src/main.cpp:218 | the lookup key for a translation unit is three characters longer than the unit name and ends in ".po" |
| `LcfTrans.PoLookupCaseInsensitive` | lcftrans/src/main.cpp:218-219 | in a well-formed listing, the lookup finds the first file whose name lower-cases like `poname.po`, whatever the case of its letters |
| `LcfTrans.ClassifyExact` | lcftrans/src/main.cpp:189-198 | a file is the database exactly when its lower-case name is "rpg_rt.ldb", the map tree exactly when it is "rpg_rt.lmt", a map exactly when it ends in ".lmu"; otherwise it is ignored; these tests exclude each other |
| `LcfTrans.JobFor` | lcftrans/src/main.cpp:189-198 | each file gets at most one extractor call, and none exactly when it is classified as ignored |
| `LcfTrans.Jobs` | lcftrans/src/main.cpp:185-199 | the dispatch makes no more extractor calls than there are files |
| `LcfTrans.JobsAppend` | lcftrans/src/main.cpp:185-199 | the calls for a concatenation of lists are the calls for the first list followed by those for the second, so order follows the list |
| `LcfTrans.JobsSound` | lcftrans/src/main.cpp:185-199 | every extractor call made is the call its own file's lower-case name selects |
| `LcfTrans.Insert` | lcftrans/src/main.cpp:181-183 | inserting an entry adds exactly that entry to the multiset of the list |
| `LcfTrans.SortByName` | lcftrans/src/main.cpp:181-183 | the sorted list is a permutation of its input |
| `LcfTrans.InsertSorted` | lcftrans/src/main.cpp:181-183 | inserting into a list sorted by name keeps it sorted |
| `LcfTrans.SortByNameSorted` | lcftrans/src/main.cpp:181-183 | the sorted list is ascending by original-case name under `<` |
| `LcfTrans.SortKeepsWellFormed` | lcftrans/src/main.cpp:181-183 | sorting keeps every entry's lower-case name equal to the lower-casing of its name |
| `LcfTrans.EndsWithPoChars` | lcftrans/src/main.cpp:295-303 | `ends_with_po` holds exactly when the name has at least three characters and ends in '.', 'p' or 'P', 'o' or 'O'; it is false for shorter names |
| `LcfTrans.EndsWithPoCaseInsensitive` | lcftrans/src/main.cpp:295-303 | `ends_with_po` does not depend on letter case; it equals the ".po" suffix test on the lower-cased name |
| `LcfTrans.PairsFor` | lcftrans/src/main.cpp:310-311 | the pairs formed for a source file are exactly that file with each destination of the same lower-case name |
| `LcfTrans.MatchedPairsExact` | lcftrans/src/main.cpp:305-311 | a pair (s, o) is processed if and only if s is a source file whose name ends in ".po" case-insensitively, o is a destination, and their lower-case names are equal |
| `LcfTrans.UnmatchedNameOfPo` | lcftrans/src/main.cpp:333 | for a name ending in ".po", the unmatched file name is the name minus its last three characters, followed by ".unmatched.po" |
| `LcfTrans.UnmatchedNameOfPair` | lcftrans/src/main.cpp:305-333 | in every processed pair of well-formed listings, the destination name also ends in ".po" and has at least 3 characters, so the unsigned `size() - 3` never wraps |
| `LcfTrans.FuzzyCount` | lcftrans/src/main.cpp:319-324 | the fuzzy count is the number of entries flagged fuzzy (their multiplicity in the flags), so it is at most the number of entries and 0 exactly when no entry is fuzzy |
| `LcfTrans.CountFuzzy` | lcftrans/src/main.cpp:319-324 | the counting loop gives the number of entries flagged fuzzy |
| `LcfTrans.EncodingOrder` | lcftrans/src/main.cpp:161-171 | an explicit encoding wins; otherwise a non-empty encoding from the ini file wins; otherwise a loaded database's detected encoding is used; otherwise the result is "" |
| `LcfTrans.EncodingOracleUnused` | lcftrans/src/main.cpp:161-171 | a later source is never consulted: the result does not depend on the ini reader or the database detector once an earlier source gave an encoding, nor on the ini reader when there is no ini file |
| `LcfTrans.LastPathLast` | lcftrans/src/main.cpp:145-154 | the ini and database paths found are the full path of the last listed name whose lower-casing is "rpg_rt.ini" or "rpg_rt.ldb" respectively |
| `LcfTrans.LastPathNone` | lcftrans/src/main.cpp:145-154 | when no listed name lower-cases to the target, the recorded path stays as it was |
| `LcfTrans.PluralAgreement` | lcftrans/src/main.cpp:317 | every message uses the singular "term" exactly for a count of 1; the matched count's `!= 1` form agrees with the `== 1` forms |
| `LcfTrans.Session.constructor` | lcftrans/src/main.cpp:33-40 | the configuration starts with the command-line encoding, no ini or database file, and empty listings |
| `LcfTrans.Session.ReadOutdir` | lcftrans/src/main.cpp:111-114 | the listing recorded for the output directory (or the game directory in match mode) grows by one well-formed entry per name, in order |
| `LcfTrans.Session.ReadMergeDir` | lcftrans/src/main.cpp:132-134 | the listing of the merge directory is appended to the source files, one well-formed entry per name |
| `LcfTrans.Session.ScanInput` | lcftrans/src/main.cpp:143-154 | the game listing is appended to the source files; the ini and database paths become those of the last matching names, or stay as they were |
| `LcfTrans.Session.ResolveEncoding` | lcftrans/src/main.cpp:161-177 | the encoding becomes the resolved one; the exit code is 3 exactly when the encoder rejects it |
| `LcfTrans.Session.SortSourceFiles` | lcftrans/src/main.cpp:181-183 | the source files become a permutation of themselves, sorted ascending by name |
| `LcfTrans.Session.Dispatch` | lcftrans/src/main.cpp:185-199 | the dispatch loop makes exactly the extractor calls `Jobs` gives for the source files, in order |
| `LcfTrans.Session.PairFiles` | lcftrans/src/main.cpp:305-341 | the nested pairing loops process exactly the pairs `MatchedPairs` gives, source order outside and destination order inside |
| `LcfTrans.Session.MatchMode` | lcftrans/src/main.cpp:290-344 | match mode sorts the source files, then pairs them, and exits with 0 |
| `LcfTrans.Session.Extract` | lcftrans/src/main.cpp:161-201 | a rejected encoding exits with 3 before anything is sorted or extracted; otherwise the source files are sorted, dispatched, and the exit code is 0 |

## Left out

- Decompression itself: zlib `uncompress` is an oracle. It is assumed only never to write past the capacity it is given. The updated `dst_size` is ignored, as the decoder ignores it.
- `malloc` failure (lines 42-44), `free(data)`, and the hand-off of the pixel buffer to `QImage`: memory management of a foreign library. The model's allocation always succeeds.
- `QImage::isNull`: modelled as "width or height is 0", with the null image reporting 0 by 0. Other reasons Qt may give a null image (size limits) are not modelled.
- Signed `int` overflow, which C++ leaves undefined: `Xyz.Int32` models the two's-complement wrap-around that common compilers produce, not any other outcome an optimiser may choose.
- Inputs shorter than 8 bytes: the magic read overruns and `size - 8` wraps. `ToImage` requires at least 8 bytes.
- A 0 by n image: taking `&dst_buffer[768]` on a 768-byte vector indexes one past the end. The model reads nothing there.
- The `Translation` machinery: `fromLDB`, `fromLMU`, `fromLMT`, `fromPO`, `Merge`, `Match`, `write`, `getEntries`. Its header `translation.h` is not part of this model. Extractor calls are modelled as `Job` values, and match mode stops at the list of pairs. The fuzzy count takes the entries' fuzzy flags as input.
- `DumpLdb`, `DumpLmuLmtInner` and `DumpLmu`/`DumpLmt` are left out beyond the lookup key, the lookup and the plural words. Their output names (`poname + ".po"`, `".stale.po"`) and `Utils::GetFilename` are file writing.
- Command-line parsing with argparse (lines 44-97), including the deprecated trailing encoding argument and the check that the output and merge directories differ: library glue.
- Directory handling: `opendir`/`readdir`/`closedir`, and the exit code 1 when a directory cannot be opened. This is I/O. Listings are inputs.
- `lcf::ReaderUtil::GetEncoding`, `LDB_Reader::Load` with `DetectEncoding`, and `lcf::Encoder::IsOk`: foreign calls, taken as the function parameters `iniEncoding`, `detect` and `isOk`.
- `std::cout`/`std::cerr` messages, apart from the choice between "term" and "terms".
- `LcfTrans.UnmatchedNameOfPair`: requires the name to be shorter than 2^64 characters, which every `std::string` on the host is.

## Findings

| source | as written | input that shows it | evidently intended | confidence | as-written member | corrected member |
|---|---|---|---|---|---|---|
| xyz-thumbnailer/kde/src/xyz.cpp:40 | `malloc(w * h * 4)` multiplies in 32-bit `int`, which overflows once `w*h*4` exceeds 2^31 - 1; the overflow is undefined behaviour, and `Xyz.Int32` takes the usual two's-complement wrap-around | header width 32768, height 32768 with a short valid zlib stream: the allocation is 0 bytes, and the loop then writes 2^32 bytes into it | allocate `w*h*4` bytes computed in `size_t` | medium, not executed | `Xyz.PixelBytesOverflow` | `Xyz.SizesFit` |
| xyz-thumbnailer/kde/src/xyz.cpp:28 | `768 + (w * h)` is computed in 32-bit `int`, which overflows once `w*h` exceeds 2^31 - 769; the overflow is undefined behaviour, and `Xyz.Int32` takes the usual two's-complement wrap-around | header width 65535, height 65535: the size becomes 2^64 - 130303, and the `std::vector` constructor throws instead of `toImage` returning false | a buffer of `768 + w*h` bytes computed in `size_t` | medium, not executed | `Xyz.BufferSizeOverflow` | `Xyz.SizesFit` |

The rest of the model uses the corrected sizes `BufferSize` and `PixelBytes`.
`Xyz.SizesFit` proves that neither wraps for any 16-bit dimensions.
`Xyz.AsWrittenAgreesWhenSmall` proves that the code as written agrees with
them whenever `w*h*4` fits in an `int`.
