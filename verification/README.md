# CMap engine of unipdf, modelled in Dafny

This project models the character-code mapping engine of unipdf's
`internal/cmap` package. A CMap holds codespaces, a code-to-CID table and a
code-to-Unicode table, and the two inverse tables derived from them. The
engine does five things, and the model covers each one:

- **Byte matching** (module `Codespaces`). `matchCode`, `inCodespace` and
  `BytesToCharcodes` cut a byte string into big-endian character codes of 1
  to 4 bytes. At each position the shortest length whose code lies in a
  codespace of that byte length wins. Simple fonts (8-bit CMaps) read one
  code per byte.
- **Inverse tables** (module `Inverse`). `computeInverseMappings` inverts
  code to CID and code to Unicode, keeping the smallest code when several
  codes map to the same value. It then sorts the codespaces by their low
  bound. Go visits maps in no fixed order, so the model's loop picks any
  unvisited key, and the contract holds for every order.
- **Lookups** (module `Lookup`). Each lookup returns a found flag.
  `CharcodeBytesToUnicode` puts U+FFFD in place of every unmapped code and
  counts how many codes were unmapped.
- **Loading** (module `Loader`). This covers `newCMap` and `NewToUnicodeCMap`.
  It covers the check after parsing in `LoadCmapFromData`: no codespaces and
  no `usecmap` gives `ErrBadCMap`. It also covers the `usecmap` merge of
  `LoadPredefinedCMap`: child CIDs win, and the base's codespaces are
  appended. The CMap grammar interpreter and the bundled asset store are
  passed in as functions.
- **Serialisation** (modules `BfData`, `Digits`, `Utf8`, `CMapText`).
  - `toBfData` sorts the codes, cuts them into maximal runs and writes single
    codes as `bfchar` entries and longer runs as `bfrange` entries. Blocks
    hold at most 100 entries, and all `bfchar` blocks come first.
  - Entries are written with `%04x`. Blocks are headed by their `%d` count.
  - `Bytes` wraps the body in the fixed header and trailer and returns the
    UTF-8 bytes of the text.
  - To state what the written text means, `CMapText` also has a reader for
    exactly this layout (`ReadBfData`, `ReadToUnicode`). It is a reference
    partner for the round-trip lemmas, not a model of the source's parser.

Shared types are in `CMapTypes`. `CharCode` is a natural number below 2^32.
`Rune` is a 32-bit signed integer. `Byte` is an integer below 256. Maps and
sequences stand for Go maps and slices.

Points where the behaviour of the code is easy to misread, and the one place the model departs from it:

- The serialiser's `bfrange` entry records only the rune of its first code.
  `BfData.ToBfBlocksRoundTrip` proves that the entries read back as the table
  exactly when neighbouring codes map to neighbouring runes. So "serialise
  then parse gives back the table" holds only for such tables.
- The run detection adds 1 to a 32-bit code. This loses the last run when the
  table holds code 0xFFFFFFFF (see Findings). This is the one place where the
  model does not follow the code. `BfData.ToBfBlocks`, `CMapText.ToBfData` and
  `CMapText.Bytes` are the corrected serializer, with exact run detection, and
  all the round-trip lemmas are about them. The code as written is
  `ToBfBlocksAsWritten`, `ToBfDataAsWritten` and `BytesAsWritten`. Their
  outputs are equal to the corrected ones for every table without code
  0xFFFFFFFF (`CMapText.BytesAsWrittenAgrees`).
- `%04x` writes at least four characters, and more for larger values. The
  sign counts towards the width, so a negative rune is written as "-"
  followed by at least three digits: -1 is "-001" and -0x1234 is "-1234".
- `LoadPredefinedCMap` loads the base with `loadPredefinedCMap`, so a base's
  own `usecmap` is not followed. The child's inverse tables may already have
  been computed by `LoadCmapFromData` when it has codespaces.
  `Inverse.ReinvertSound` proves that recomputing them after the merge still
  gives the exact inverse.
- `NewToUnicodeCMap` leaves the byte count of its one codespace at 0. That
  codespace therefore matches no byte string on the 16-bit path
  (`Loader.ToUnicodeCMapMatchesNothing`).

## Model

| member | source | states |
|---|---|---|
| Codespaces.InCodespace | internal/cmap/cmap.go:423-430 | true exactly when some codespace has the given byte count and holds the code between its low and high bounds |
| Codespaces.InCodespaceOrderFree | internal/cmap/cmap.go:423-430 | the order of the codespaces and repeated codespaces do not change the answer |
| Codespaces.BigEndianBound | internal/cmap/cmap.go:406-410 | a code accumulated from n bytes is below 256^n, so four bytes fit a 32-bit CharCode without loss |
| Codespaces.CandidateStep | internal/cmap/cmap.go:406-410 | each step shifts in the next byte while bytes remain; past the end of the data the code stays the same but the next length is still tested |
| Codespaces.MatchCode | internal/cmap/cmap.go:405-420 | the result is the reference ShortestMatchResult; at most 4 bytes and at most the data's length are read, and a match on non-empty data reads at least one byte |
| Codespaces.MatchCodeShortest | internal/cmap/cmap.go:405-420 | matches exactly when some length 1..4 lies in a codespace; then the length L used is the shortest such, n = min(L, len(data)), and the code is the big-endian value of the first n bytes; otherwise (0, 0, false) |
| Codespaces.MatchCodeFacts | internal/cmap/cmap.go:405-420 | matched exactly when a shortest matching length exists, and the code is then the big-endian value of the bytes read |
| Codespaces.ScanSegments | internal/cmap/cmap.go:342-351 | the codes cut the data into consecutive segments starting at 0. Each segment is the shortest match at its offset, or the rest of the data when that is shorter, and its code is the segment's big-endian value. The result is true exactly when the segments cover all the data; on false nothing matches where they end |
| Codespaces.MatchAll | internal/cmap/cmap.go:342-351 | the matching loop returns the codes and the flag of the scan, so a failure returns exactly the codes decoded before it |
| Codespaces.BytesToCharcodes | internal/cmap/cmap.go:334-352 | an 8-bit CMap gives one code per byte, equal to the byte, and true, whatever its codespaces; any other CMap gives the scan over its codespaces |
| Codespaces.MixedWidthExample | internal/cmap/cmap.go:405-420 | with codespaces {1 byte, 00-7F} and {2 bytes, 8000-FFFF}, 41 decodes to 0x41 and 80 41 to 0x8041 |
| Inverse.ComputeInverse | internal/cmap/cmap.go:238-250 | whatever order the map is visited in, the result keeps the entries of the starting inverse unless a smaller code maps to the same value, and adds the smallest code for every new value |
| Inverse.InverseFromEmpty | internal/cmap/cmap.go:238-250 | from an empty inverse, the keys are exactly the values of the table and each maps to the smallest code with that value |
| Inverse.InverseUnique | internal/cmap/cmap.go:238-250 | there is only one such inverse, so the result does not depend on iteration order |
| Inverse.ReinvertAfterGrowth | internal/cmap/cmap.go:211-222 | recomputing the inverse after the table grew, starting from the inverse of the old table, gives the exact inverse of the new table |
| Inverse.ReinvertSound | internal/cmap/cmap.go:199-222 | the same when the starting inverse may also be empty |
| Inverse.SortByLow | internal/cmap/cmap.go:252-255 | the codespaces come out sorted by low bound, as a permutation of the input |
| Inverse.ComputeInverseMappings | internal/cmap/cmap.go:237-256 | only the two inverse tables and the codespace order change; both inverses are computed as above and the codespaces are a sorted permutation |
| Lookup.CharcodeToUnicode | internal/cmap/cmap.go:297-302 | (rune, true) for a mapped code, (U+FFFD, false) otherwise |
| Lookup.CharcodeToCID | internal/cmap/cmap.go:315-318 | found exactly when the code has a CID; the result is then that CID, and 0 otherwise |
| Lookup.CIDToCharcode | internal/cmap/cmap.go:322-325 | found exactly when the CID has a recorded code; the result is then that code, and 0 otherwise |
| Lookup.RuneToCID | internal/cmap/cmap.go:306-309 | found exactly when the rune has a recorded code; the result is then that code, and 0 otherwise |
| Lookup.CIDToCharcodeInverts | internal/cmap/cmap.go:315-325 | on a finalised CMap a CID is found backwards exactly when some code maps to it, and the code found maps to it and is the smallest such |
| Lookup.CIDRoundTrip | internal/cmap/cmap.go:315-325 | a code's CID looked up backwards gives a code no larger than it that maps to the same CID |
| Lookup.RuneToCIDInverts | internal/cmap/cmap.go:297-309 | on a finalised CMap a rune is found exactly when some code maps to it, and the code found maps to it and is the smallest such |
| Lookup.StringRune | internal/cmap/cmap.go:281 | Go's string([]rune) keeps a valid scalar value and writes U+FFFD for a negative value, a surrogate or a value above U+10FFFF |
| Lookup.CountAbsentExtremes | internal/cmap/cmap.go:273-280 | the missing count is 0 exactly when every code is mapped, and the number of codes exactly when none is |
| Lookup.RunesOf | internal/cmap/cmap.go:269-280 | one rune per code, the mapped rune or U+FFFD, and the missing count equals the number of unmapped codes |
| Lookup.CharcodeBytesToUnicode | internal/cmap/cmap.go:261-292 | ("", 0) when the bytes do not fully match; otherwise one character per decoded code, U+FFFD for each unmapped code, and the count of unmapped codes |
| Loader.Populate | internal/cmap/cmap.go:131-143 | a fresh CMap of width 8 (simple) or 16 holding the parser's fields, codespaces and tables, with empty inverse tables |
| Loader.LoadCmapFromData | internal/cmap/cmap.go:155-181 | a parse error is passed on. No codespaces and no usecmap gives ErrBadCMap. No codespaces with a usecmap returns the CMap as parsed, inverses empty. Otherwise the result is finalised and carries the parsed fields with the requested 8- or 16-bit width |
| Loader.LoadAsset | internal/cmap/cmap.go:228-235 | a missing asset fails with its name; otherwise the outcome of loading the asset as a CID CMap, with sound inverses |
| Loader.MergeBaseCIDs | internal/cmap/cmap.go:211-215 | every child entry is kept; a base entry is added exactly when its code is absent from the child; the result is the base overridden by the child |
| Loader.LoadPredefinedCMap | internal/cmap/cmap.go:193-224 | load failures are passed on. Without usecmap the loaded CMap is finalised. With one, the result is finalised and has the child's header and Unicode table, the base's CIDs under the child's, and codespaces that are a permutation of the child's followed by the base's |
| Loader.NewToUnicodeCMap | internal/cmap/cmap.go:109-128 | the Adobe-Identity-UCS CMap, type 2, 16 bits, with the given table, one codespace 0000-FFFF whose byte count is 0, and finalised inverses |
| Loader.ToUnicodeCMapMatchesNothing | internal/cmap/cmap.go:119 | with that codespace, no non-empty byte string decodes on the 16-bit path |
| BfData.SortedCodes | internal/cmap/cmap.go:439-444 | the codes of the table, each once, in increasing order |
| BfData.RunsPartition | internal/cmap/cmap.go:446-458 | the runs are non-empty, no two touch, and read in order they give back the sorted codes |
| BfData.RunsMaximal | internal/cmap/cmap.go:446-458 | every code of a run is in the table, and the codes just before and just after it are not |
| BfData.RunsAsWrittenDropsLast | internal/cmap/cmap.go:448-458 | with 32-bit successors the runs equal the exact runs when the last code is below 0xFFFFFFFF, and lose the last run when it is 0xFFFFFFFF |
| BfData.BlocksAsWrittenAgree | internal/cmap/cmap.go:446-503 | for a table without code 0xFFFFFFFF, the blocks from the 32-bit run detection are exactly the corrected blocks |
| BfData.ChunksCount | internal/cmap/cmap.go:479 | there are (n + 99) / 100 blocks |
| BfData.ChunksContent | internal/cmap/cmap.go:480-484 | block i holds entries i*100 up to i*100 + min(n - i*100, 100) |
| BfData.ChunksConcat | internal/cmap/cmap.go:477-503 | read in order, the blocks give back the entries |
| BfData.ToBfBlocksLayout | internal/cmap/cmap.go:434-505 | an empty table gives no block; bfchar blocks come before bfrange blocks; every block holds 1 to 100 entries, all of its own kind |
| BfData.ToBfBlocksCover | internal/cmap/cmap.go:461-473 | every code of the table lies in exactly one entry, and no other code lies in any |
| BfData.ToBfEntryFaithful | internal/cmap/cmap.go:461-473 | a bfchar entry is a mapped code with unmapped neighbours and its rune; a bfrange entry spans a maximal run of at least two codes and carries the rune of its first code |
| BfData.ToBfBlocksRoundTrip | internal/cmap/cmap.go:464-471 | the entries give every code its rune exactly when neighbouring codes of the table map to neighbouring runes |
| Digits.DecimalRoundTrip | internal/cmap/cmap.go:482 | the `%d` count reads back as the number |
| Digits.Hex04Chars | internal/cmap/cmap.go:486 | `%04x` writes at least four characters, each a lower-case hex digit or the minus sign |
| Digits.Hex04RoundTrip | internal/cmap/cmap.go:486 | a `%04x` numeral reads back as the value, negative runes included |
| Utf8.DecodeEncode | internal/cmap/cmap.go:397 | the bytes of []byte(s) decode back to s |
| CMapText.EntryLineRoundTrip | internal/cmap/cmap.go:486-499 | each `<code> <rune>` or `<low><high> <rune>` line reads back as its entry |
| CMapText.ReadBlocksRoundTrip | internal/cmap/cmap.go:477-503 | the lines of well-kinded blocks, counts and end words included, read back as those blocks |
| CMapText.SplitJoin | internal/cmap/cmap.go:504 | splitting the joined lines at newlines gives the lines back, when no line holds a newline |
| CMapText.ToBfDataRoundTrip | internal/cmap/cmap.go:434-505 | the body toBfData writes reads back as exactly the blocks of the table |
| CMapText.ToBfDataReadsBack | internal/cmap/cmap.go:434-505 | the body reads back as entries that cover every code of the table once and no other code, and that give each code its rune exactly when neighbouring codes map to neighbouring runes |
| CMapText.BytesRoundTrip | internal/cmap/cmap.go:393-398 | the bytes of the whole CMap from the corrected serializer, header and trailer included, read back as the blocks of the table |
| CMapText.BytesAsWrittenAgrees | internal/cmap/cmap.go:393-398 | for a table without code 0xFFFFFFFF, the body and the bytes the code as written produces are exactly the corrected ones |
| BfExamples.CompactionExample | internal/cmap/cmap.go:446-475 | {1:'a', 2:'b', 3:'c', 10:'z'} gives one bfchar block with code 10 and one bfrange block with 1..3 from 'a' |
| BfExamples.LargestCodeBytes | internal/cmap/cmap.go:393-398 | for {0xFFFFFFFF: 'A'} the corrected bytes read back as one bfchar block, and the bytes as written read back as no block |
| BfExamples.Hex04Examples | internal/cmap/cmap.go:486 | `%04x` writes 10 as "000a" and -1 as "-001" |
| BfExamples.LargestCodeExample | internal/cmap/cmap.go:448-458 | for {0xFFFFFFFF: 'A'} the exact runs give one bfchar entry, which reads back; the code as written gives no block and an empty body |

## Left out

- The CMap grammar interpreter (`cmap.parse`, `newCMapParser`) is not part of this model. It is a `Parser` parameter: a function from bytes to the parsed fields or an error message.
- Go maps are shared references, and the model treats them as values. The table passed to `NewToUnicodeCMap` stays shared with its caller (internal/cmap/cmap.go:122), so a later change by the caller alters `codeToUnicode` without recomputing `unicodeToCode`; the model does not represent that aliasing.
- `CharcodeBytesToUnicode` returns a Go `string`, the UTF-8 bytes of the runes; the model returns the sequence of code points after the `string([]rune)` replacement (`Lookup.StringRune`). No information is lost, since the UTF-8 encoding of scalar values is one-to-one (`Utf8.DecodeEncode`).
- The bundled asset store (`bcmaps.Asset`) is an `AssetStore` parameter, a function from name to optional bytes. `IsPredefinedCMap` is only an existence check against it and is left out.
- `NewCIDSystemInfo` reads the PDF object model, which is not part of this model.
- The `String`, `Name`, `Type` and `NBits` accessors and all logging calls are left out, because they only format or return fields.
- `LoadCmapFromDataCID` is `LoadCmapFromData` with `isSimple` false; `Loader.LoadAsset` uses it in that form.
- Concurrency and caching of predefined CMaps are left out. The code has neither.
- `%04x` and `%d` are modelled only for the values toBfData prints: integers, lower-case hex digits, zero padding to width 4, and the sign counted in the width.
- The CID-keyed `cidrange`/`cidchar` sections are parser input only and are not modelled; `toBfData` never writes them.

## Findings

| source | as written | input that shows it | evidently intended | confidence | as-written member | corrected member |
|---|---|---|---|---|---|---|
| internal/cmap/cmap.go:448-458 | `c1 = c + 1` on a 32-bit CharCode wraps to 0 after code 0xFFFFFFFF, so the final check `c1 > c0` fails and the last run is dropped | codeToUnicode = {0xFFFFFFFF: 'A'}: toBfData returns "" and Bytes writes no mapping | every code of the table appears in exactly one entry | not executed | BfData.RunsAsWrittenDropsLast, BfExamples.LargestCodeExample, BfExamples.LargestCodeBytes | BfData.RunsPartition, BfData.ToBfBlocksCover, CMapText.ToBfDataRoundTrip |
