# Data Matrix data-codeword stage

A Dafny model of the first half of `DataMatrixEncoder.Encode` in the Barcoder
library. This half turns the content string into the padded data codewords of
one Data Matrix symbol, and it has four parts:

- **ASCII encodation** (`EncodeText`, ISO/IEC 16022 section 5.2.3).
  - Two adjacent digits share one codeword.
  - A code unit above 127 is escaped with Upper Shift.
  - Any other code unit c becomes c + 1.
  - In GS1 mode a literal FNC1 passes through as itself.
- **GS1 mode** (`EncodeGs1`, `RemoveSpaces`).
  - Spaces are removed and every "(AI)data" element is found.
  - Each element is written out as its digits.
  - An element is closed with FNC1 when its application identifier has a predefined length that the element does not have.
  - The result, which starts with FNC1, then goes through ASCII encodation.
- **Size selection** (`GetSmallestCodeSizeForData`, `GetFixedCodeSizeForData`).
  - Automatic: the first entry of the capacity table that holds the data.
  - Fixed: the first entry with the requested row count, which must also hold the data.
- **Padding** (`AddPadding`): the pad codeword 129, then the 253-state randomising fillers of ISO/IEC 16022 Annex B.1 up to the capacity of the symbol.

Modules, one per part of the source:

| module | file | models |
|---|---|---|
| `Types` | types.dfy | bytes, UTF-16 code units, `Result` with the three failure kinds, the GS1 constants record, capacity table entries |
| `Ascii` | ascii.dfy | `EncodeText` and a reader that inverts it |
| `Gs1` | gs1.dfy | `RemoveSpaces`, the element pattern as a scanner, `EncodeGs1` |
| `Padding` | padding.dfy | `AddPadding` |
| `SizeSelection` | sizes.dfy | the two size selectors |
| `DataMatrixEncoder` | encoder.dfy | `Encode` up to the padded data codewords |

The source updates its local builders step by step (`List<byte>`, `StringBuilder`), so `EncodeText`, `EncodeGs1` with its builder loop `AssembleElements`, `AddPadding` and `Encode` are methods. Their loops work on `seq` values. Each method is proved equal to a specification function: `AsciiCodewords`, `Gs1Codewords`, `Padded` and `DataStage`. The properties are proved as lemmas about those functions. The selectors and `RemoveSpaces` are expressions in the source, so they are functions here.

Modelling decisions:

- **Casts.** A C# `(byte)` cast is unchecked, so it is written out as `% 256`. A `char` is a code unit in 0..65535.
- **Exceptions.** The `InvalidOperationException`s of the selectors are the `Err` cases of `Result`: `NoSizeWithRows`, `FixedSizeTooSmall` and `NoSizeFits`. `Encode` propagates them with `:-`.
- **GS1 constants.** The values of FNC1, Upper Shift and the predefined AI lengths are not part of this model. They are passed in as a `Gs1Constants` record.
  - Lemmas that need FNC1 and Upper Shift to lie outside the data codewords require `ValidConstants`: both are at least 230 and they differ. ISO/IEC 16022 assigns 232 and 235.
- **Capacity table.** `CodeSizes.All` is passed in as a sequence of `CodeSize` entries. Minimality of automatic selection needs the table sorted by capacity, and is proved under that assumption (`SortedByCapacity`).
- **The element regex.** The pattern at line 89 (`\((?<ai>[0-9]+)\)(?<data>[0-9]+)`) is modelled as a deterministic scanner, `Scan`.
  - At each position it tries `"(" digits ")" digits` with greedy digit runs.
  - On a match it continues after the match. Otherwise it skips one code unit.
  - Code units outside matches are dropped.
  - `[0-9]` matches only the ASCII digits, as in .NET.
- **Filler at sum 254.** `(129 + r) % 254` maps the sum 129 + r = 254 to 0. Annex B.1 of ISO/IEC 16022 keeps such a sum as 254; the standard subtracts 254 only from sums above 254.
  - The model follows the code.
  - `Padding.FillerReduction` states the reduction and shows that 0-based index 27 (1-based position 28) is such a position.
- **Decoding partner.** `Ascii.DecodeAscii` reads codewords back. Pad codeword 129 ends the data, which makes "encode, pad, decode" a round trip (`DataMatrixEncoder.DataStageRoundTrip`).
  - Code units above 382 (127 + 255) cannot be recovered: the Upper Shift escape keeps only `(c - 127) mod 256` (`Ascii.ExtendedWrapsModulo256`).

## Model

| member | source | states |
|---|---|---|
| `Ascii.EncodeText` | src/Barcoder/DataMatrix/DataMatrixEncoder.cs:51-82 | the cursor loop produces exactly the greedy left-to-right encodation `AsciiCodewords` of the content |
| `Ascii.DigitPair` | src/Barcoder/DataMatrix/DataMatrixEncoder.cs:59-64 | the codeword for two digits lies in [130, 229], and both digits can be recovered from it (tens and units of b - 130) |
| `Ascii.AllDigitsEncoding` | src/Barcoder/DataMatrix/DataMatrixEncoder.cs:54-64 | a digit string of length n gives exactly ⌈n/2⌉ codewords; codeword j is 10·d(2j) + d(2j+1) + 130, and the code unit c of an odd last digit encodes as c + 1 (49..58) |
| `Ascii.GreedyPairing` | src/Barcoder/DataMatrix/DataMatrixEncoder.cs:54-64 | pairing is greedy from the left: "123" gives [142, 52] |
| `Ascii.UnpairedCodeUnit` | src/Barcoder/DataMatrix/DataMatrixEncoder.cs:66-78 | an unpaired code unit is encoded ahead of the rest: c ≤ 127 gives the single codeword c + 1 in [1, 128]; c > 127 gives Upper Shift then (c - 127) mod 256, unless it is a passed-through FNC1 |
| `Ascii.LengthBounds` | src/Barcoder/DataMatrix/DataMatrixEncoder.cs:54-81 | for input length n the output length lies between ⌈n/2⌉ and 2n; the output is empty if and only if the input is |
| `Ascii.ConcatAtBoundary` | src/Barcoder/DataMatrix/DataMatrixEncoder.cs:54-79 | encodation splits over concatenation wherever a digit is not followed by a digit |
| `Ascii.Fnc1Handling` | src/Barcoder/DataMatrix/DataMatrixEncoder.cs:59-74 | with the skip flag FNC1 is the one codeword FNC1, which takes precedence over the >127 escape; without it FNC1 becomes Upper Shift and FNC1 - 127; a digit before FNC1 is not paired with it |
| `Ascii.ExtendedWrapsModulo256` | src/Barcoder/DataMatrix/DataMatrixEncoder.cs:70-74 | a code unit above 127 becomes Upper Shift and (c - 127) mod 256, so code units 256 apart encode identically |
| `Ascii.DecodeEncode` | src/Barcoder/DataMatrix/DataMatrixEncoder.cs:54-81 | round trip: reading back the encodation of any text whose code units are at most 382 gives that text, whatever codewords follow |
| `Gs1.RemoveSpaces` | src/Barcoder/DataMatrix/DataMatrixEncoder.cs:103-104 | the result holds no space and the same code units as the input with every space removed (as a multiset) |
| `Gs1.RemoveSpacesConcat` | src/Barcoder/DataMatrix/DataMatrixEncoder.cs:103-104 | removing spaces commutes with concatenation, so the order of the other code units is kept |
| `Gs1.RemoveSpacesIdentity` | src/Barcoder/DataMatrix/DataMatrixEncoder.cs:103-104 | a text without spaces is unchanged, so removing spaces is idempotent |
| `Gs1.DigitRun` | src/Barcoder/DataMatrix/DataMatrixEncoder.cs:89 | the greedy `[0-9]+`: the prefix it spans is all digits and the next code unit, if any, is not a digit |
| `Gs1.MatchPrefix` | src/Barcoder/DataMatrix/DataMatrixEncoder.cs:89 | a match spans a non-empty prefix that is exactly "(" ai ")" data with non-empty all-digit groups, and is not followed by a digit |
| `Gs1.MatchPrefixComplete` | src/Barcoder/DataMatrix/DataMatrixEncoder.cs:89 | conversely, every element at the start of the text that is not followed by a digit is matched, in full |
| `Gs1.Scan` | src/Barcoder/DataMatrix/DataMatrixEncoder.cs:89 | every element found has non-empty all-digit AI and data groups |
| `Gs1.ScanFormat` | src/Barcoder/DataMatrix/DataMatrixEncoder.cs:89-92 | round trip: scanning the written form of any list of well-formed elements gives back that list |
| `Gs1.ScanWithoutParen` | src/Barcoder/DataMatrix/DataMatrixEncoder.cs:89 | a text without "(" holds no element |
| `Gs1.ScanSkipOne` | src/Barcoder/DataMatrix/DataMatrixEncoder.cs:89 | where no "(" is at the cursor the pattern fails there, and scanning resumes one code unit later |
| `Gs1.ScanSkipsPrefix` | src/Barcoder/DataMatrix/DataMatrixEncoder.cs:89 | code units before the first "(" are dropped: scanning the text gives what scanning the rest after them gives |
| `Gs1.ScanElement` | src/Barcoder/DataMatrix/DataMatrixEncoder.cs:89-92 | an element not followed by a digit is reported first, and scanning continues right after it, so elements are found in text order |
| `Gs1.ScanAfterPrefix` | src/Barcoder/DataMatrix/DataMatrixEncoder.cs:89-92 | leading text without "(" is dropped and every element written after it is recovered, in order |
| `Gs1.EncodeGs1` | src/Barcoder/DataMatrix/DataMatrixEncoder.cs:84-101 | the builder loop produces the ASCII encodation, with FNC1 passed through, of FNC1 followed by each element's AI, data and separator |
| `Gs1.AssembleElements` | src/Barcoder/DataMatrix/DataMatrixEncoder.cs:86-98 | the builder holds FNC1, then for each match in order its AI digits, its data digits and the separator FNC1 exactly when `NeedsSeparator` holds |
| `Gs1.ElementsTextAlphabet` | src/Barcoder/DataMatrix/DataMatrixEncoder.cs:91-97 | the assembled elements hold only digits and FNC1, and are at least two code units per element long (a non-empty AI plus non-empty data) |
| `Gs1.Gs1TextAlphabet` | src/Barcoder/DataMatrix/DataMatrixEncoder.cs:86-97 | the whole element string holds only digits and FNC1 |
| `Gs1.AsciiOverGs1AlphabetKinds` | src/Barcoder/DataMatrix/DataMatrixEncoder.cs:54-69 | a text of digits and FNC1 encodes to codewords that are FNC1, single digits (49..58) or pairs (130..229) |
| `Gs1.AsciiOverGs1AlphabetFnc1Count` | src/Barcoder/DataMatrix/DataMatrixEncoder.cs:54-69 | such a text gives exactly as many FNC1 codewords as it has FNC1s |
| `Gs1.ElementsTextFnc1Count` | src/Barcoder/DataMatrix/DataMatrixEncoder.cs:93-97 | the assembled elements hold exactly one FNC1 per element that needs a separator |
| `Gs1.Gs1Prefix` | src/Barcoder/DataMatrix/DataMatrixEncoder.cs:84-104 | the output starts with FNC1, and it is exactly [FNC1] if and only if the space-free content holds no element |
| `Gs1.Gs1CodewordKinds` | src/Barcoder/DataMatrix/DataMatrixEncoder.cs:89-100 | every output codeword is FNC1, a single digit in [49, 58] or a digit pair in [130, 229] |
| `Gs1.Gs1SeparatorCodewords` | src/Barcoder/DataMatrix/DataMatrixEncoder.cs:95-97 | the output holds one FNC1 for the prefix plus one per element whose AI is in the table with a length other than its own; an unknown AI adds none |
| `Gs1.Gs1RoundTrip` | src/Barcoder/DataMatrix/DataMatrixEncoder.cs:84-101 | the codewords read back as the assembled element string |
| `Gs1.Gs1Example` | src/Barcoder/DataMatrix/DataMatrixEncoder.cs:84-104 | with FNC1 = 232 and "01" of predefined length 16, "(01)12(21)3" gives [232, 131, 142, 232, 151, 52]: a separator after the first element, whose length differs, and none after the second, whose AI has no predefined length |
| `Padding.Filler` | src/Barcoder/DataMatrix/DataMatrixEncoder.cs:114-115 | a filler is at most 253 and never the pad codeword 129 |
| `Padding.FillerReduction` | src/Barcoder/DataMatrix/DataMatrixEncoder.cs:114-115 | pad plus pseudo-random number lies in [130, 382] and is reduced by 254 exactly when it reaches 254; at index 27 the sum is 254 and the filler 0 |
| `Padding.AddPadding` | src/Barcoder/DataMatrix/DataMatrixEncoder.cs:106-119 | the copy-and-append loop produces exactly `Padded(data, toCount)` |
| `Padding.PaddedStep` | src/Barcoder/DataMatrix/DataMatrixEncoder.cs:112-116 | padding one codeword further appends the filler for that position |
| `Padding.PaddedLayout` | src/Barcoder/DataMatrix/DataMatrixEncoder.cs:106-118 | data of at least `toCount` codewords is returned unchanged; shorter data keeps its place, is followed by 129 and then by the filler of each index, for exactly `toCount` codewords |
| `Padding.PaddingIndependentOfData` | src/Barcoder/DataMatrix/DataMatrixEncoder.cs:112-116 | what is appended depends on the length of the data only |
| `Padding.PaddedIdempotent` | src/Barcoder/DataMatrix/DataMatrixEncoder.cs:106-119 | padding twice to the same count equals padding once |
| `Padding.PaddedPrefix` | src/Barcoder/DataMatrix/DataMatrixEncoder.cs:106-119 | padding to a larger count extends the padding to a smaller one |
| `SizeSelection.FirstIndex` | src/Barcoder/DataMatrix/DataMatrixEncoder.cs:31 | `FirstOrDefault`: the index found satisfies the predicate and no earlier one does; none is found only when no element does |
| `SizeSelection.SmallestCodeSize` | src/Barcoder/DataMatrix/DataMatrixEncoder.cs:38-42 | fails with `NoSizeFits` if and only if no entry holds the data; otherwise gives the first entry that does |
| `SizeSelection.FixedCodeSize` | src/Barcoder/DataMatrix/DataMatrixEncoder.cs:29-36 | fails with `NoSizeWithRows` if and only if no entry has the rows; fails with `FixedSizeTooSmall` only when the first such entry is too small; otherwise gives that first entry, which holds the data |
| `SizeSelection.SmallestIsMinimal` | src/Barcoder/DataMatrix/DataMatrixEncoder.cs:38-42 | on a table sorted by capacity, automatic selection succeeds whenever some entry fits, and picks a capacity no larger than that entry's |
| `SizeSelection.ExactCapacitySelectsEntry` | src/Barcoder/DataMatrix/DataMatrixEncoder.cs:40 | a length equal to an entry's capacity selects that entry when all earlier entries are smaller (`>=`, not `>`) |
| `SizeSelection.FixedHasNoFallback` | src/Barcoder/DataMatrix/DataMatrixEncoder.cs:31-34 | when the first entry with the rows is too small, fixed selection fails, whatever later entries with those rows hold |
| `DataMatrixEncoder.Encode` | src/Barcoder/DataMatrix/DataMatrixEncoder.cs:11-21 | encoding, size selection and padding compute `DataStage`, errors included |
| `DataMatrixEncoder.DataStageFillsCapacity` | src/Barcoder/DataMatrix/DataMatrixEncoder.cs:17-21 | on success the size is a table entry with the requested rows (if any) that holds the content codewords, and the padded stream starts with them and has exactly its capacity |
| `DataMatrixEncoder.DataStageErrors` | src/Barcoder/DataMatrix/DataMatrixEncoder.cs:17-19 | each of the three failures happens exactly under its condition of the selector in use |
| `DataMatrixEncoder.EmptyContentSmallestSymbol` | src/Barcoder/DataMatrix/DataMatrixEncoder.cs:13-21 | in plain text mode, empty content selects the first table entry, whose data codewords are then 129 followed by fillers |
| `DataMatrixEncoder.DataStageRoundTrip` | src/Barcoder/DataMatrix/DataMatrixEncoder.cs:13-21 | reading the padded codewords up to the pad codeword recovers the content (plain mode, code units ≤ 382) or the assembled element string (GS1 mode) |
| `DataMatrixEncoder.PaddedRoundTrip` | src/Barcoder/DataMatrix/DataMatrixEncoder.cs:106-118 | padding the encodation of any text whose code units are at most 382 to any count leaves it readable: the reader stops at the pad codeword 129 and returns the text |

## Left out

- Error correction and placement (`ErrorCorrection.CalculateEcc`, `Render`, `CodeLayout`, lines 22-24 and 44-49): their code is not part of this model. The model ends at the padded data codewords.
- `code.Content = content` (line 25) and the `IBarcode`/`DataMatrixCode` result object: output plumbing.
- The contents of `CodeSizes.All` and of `Gs1Constants` are not part of this model. They are parameters of the model.
- The .NET `Regex` engine: replaced by the scanner `Gs1.Scan`, which reads the pattern of line 89 as stated above.
- Exception messages: a failure is a tagged `Error` value only.
- `List<byte>`/`StringBuilder` capacity and the final `ToArray` copies: the builders are `seq` values.
- `UnicodeEncoder` of the QR encoder is not part of this model. It depends on UTF-8 conversion and version tables that are not part of it either.
- Ascii.DecodeEncode: stated for code units up to 382 only, because the Upper Shift escape loses the higher bits of larger code units (see `Ascii.ExtendedWrapsModulo256`).
- Padding.Filler: computes `149 * (index + 1)` on unbounded integers. The source multiplies in 32-bit `int` (line 114), which wraps once `Count + 1` reaches 14,412,642, and C#'s `%` then gives a negative remainder. The model therefore agrees with the source only for indices below 14,412,641. Past that point the source's fillers differ, and can be 255 or the pad codeword 129, so the `b <= 253 && b != PadCodeword` contract does not hold of the source there. Every Data Matrix capacity is far below that bound; the largest symbol holds 1558 data codewords.
- Padding.AddPadding: agrees with the source loop only for `toCount <= 14,412,641`, the range where the 32-bit product at line 114 does not overflow (see `Padding.Filler`). The capacity table is a parameter, so the model does not enforce that bound.
