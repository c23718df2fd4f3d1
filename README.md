# Advent of Code 2020, days one to five: a verified model

This project models the puzzle-solving core of the `aoc2020` repository in
Dafny and proves properties of it.

- **Day one.** The expense report search looks for the first pair and the
  first trio of entries that sum to 2020. It walks the full cross product in
  row-major order, so an entry may pair with itself.
- **Day two.** The password database parses `low-high letter: password`
  lines and checks each entry under two policies:
  - the repetition range;
  - exactly one of two 1-based positions holds the letter.
- **Day three.** The slope atlas reads `#` (tree) and `.` (nothing) rows
  into contours and features. A toboggan trajectory is a starting position
  and a velocity. A stateful descender (a class) steps along it.
- **Day four.** A passport record maps eight attribute keys to their value
  text. A validated record adds these checks:
  - the three year ranges;
  - the eye-colour table;
  - the hair-colour, height and passport-id formats;
  - the order in which the checks run, and which error wins.
- **Day five.** A binary space is a half-open integer range that is halved
  by `Lower`/`Upper` partitions until one integer remains. A boarding pass
  decodes seven `F`/`B` row characters and three `L`/`R` column characters
  into a row, a column and a seat id `row * 8 + column`.

Modules follow the source's files. Shared pieces are in `wrappers.dfy` and
`text.dfy`:
- `Result`/`Option`, and `Collect` (Rust's `collect::<Result<Vec<_>>>`);
- Rust's `str::lines`;
- decimal digits;
- a predicate-driven scanner that stands in for the anchored regular
  expressions.

The imperative parts of the source stay imperative:
- `BinarySpaces.Partition` is the `for` loop over a mutable space.
- `PassportRecords.FromString` is the loop that inserts into a map.
- `TobogganTrajectories.TobogganTrajectoryDescender` is a class whose
  `Next` updates its fields.

Each of these is proved against a specification function. The Rust
constructor `TobogganTrajectory::new` is the datatype constructor
`TobogganTrajectory`.

On day five the code departs from the puzzle's stated format and from an
exact halving, and the model follows the code:
- **Seat string length.** The code does not require exactly ten
  characters. It decodes any string of at least ten characters whose first
  seven are `F`/`B` and whose rest are `L`/`R`, and ignores the column
  characters after the third. Strings of eight or nine such characters pass
  the length check but then fail: the column space is left uncollapsed and
  evaluating it reports `RangeNotCollapsed`. Strings under eight characters
  fail the length check.
- **Upper half.** The code's `Upper` half is not the larger half: for an
  odd width both halves have width `range / 2` (see Findings).
- **Error names.** Errors are named after the code's stages (`InvalidSeatString`, `InvalidRowChar`,
  `InvalidColumnChar`, `RowSpace`, `ColumnSpace`).

## Model

| member | source | states |
|---|---|---|
| BinarySpaces.New | five/src/binary/space/binary_space.rs:30-47 | Succeeds exactly when the end exceeds the start. The space then holds exactly the integers of `[start, end)`. Otherwise the error carries both bounds. |
| BinarySpaces.Evaluate | five/src/binary/space/binary_space.rs:51-60 | Succeeds exactly when the width is 1, yielding the space's only integer. Otherwise it reports the width. |
| BinarySpaces.Bisect | five/src/binary/space/binary_space.rs:70-81 | One halving. It keeps width `range / 2` and stays inside the space. `Lower` keeps the bottom end and `Upper` keeps the top end. |
| BinarySpaces.Partition | five/src/binary/space/binary_space.rs:64-86 | The loop's final space is the one the partitions give in order. Partitions after the space collapses are ignored. |
| BinarySpaces.BisectEven | five/src/binary/space/binary_space.rs:70-81 | For an even width, every integer lies in exactly one half. |
| BinarySpaces.BisectOdd | five/src/binary/space/binary_space.rs:70-81 | For an odd width, both halves have width `range / 2`. The middle integer lies in neither half; every other integer lies in exactly one. |
| BinarySpaces.BisectDropsMiddleExample | five/src/binary/space/binary_space.rs:76-80 | For width 3 from 0, the halves are `[0,1)` and `[2,3)`, so 1 is lost. |
| BinarySpaces.BisectCovering | five/src/binary/space/binary_space.rs:70-81 | The corrected halving. `Upper` takes the larger half, so the two widths add up to the whole. |
| BinarySpaces.BisectCoveringSplits | five/src/binary/space/binary_space.rs:70-81 | Under the corrected halving, every integer lies in exactly one half, whatever the parity. |
| BinarySpaces.BisectCoveringAgreesOnEven | five/src/binary/space/binary_space.rs:70-81 | On even widths the corrected halving equals the source's halving. |
| BinarySpaces.PartitionedCoveringPowerOfTwo | five/src/binary/space/binary_space.rs:64-86 | From a power-of-two width, the corrected and the source's partitioning give the same space. |
| BinarySpaces.Partitioned | five/src/binary/space/binary_space.rs:64-86 | Partitioning keeps a non-empty space non-empty, never widens it and never leaves it. |
| BinarySpaces.PartitionedCollapsed | five/src/binary/space/binary_space.rs:66-68 | A space of width below 2 ignores every partition. |
| BinarySpaces.PartitionedPowerOfTwo | five/src/binary/space/binary_space.rs:64-86 | `k` partitions collapse width `2^k` to `start` plus the binary value of the partitions (`Upper` = 1, most significant first). |
| BinarySpaces.PartitionedPowerOfTwoShort | five/src/binary/space/binary_space.rs:64-86 | Fewer than `k` partitions leave width `2^(k-n)`, at least 2, so the space cannot collapse. |
| BinarySpaces.BinaryPartitionsOfValue | five/src/binary/space/binary_space.rs:64-86 | Reading partitions as a number and writing that number back gives the same partitions. |
| BoardingPasses.Directives | five/src/boarding/pass/boarding_pass.rs:93-107 | The character table succeeds exactly on strings over its two characters. It maps each character position by position. Otherwise it fails with the first bad character. |
| BoardingPasses.DirectivesRoundTrip | five/src/boarding/pass/boarding_pass.rs:75-89 | The character table is a bijection between partition lists and strings over its two characters. |
| BoardingPasses.FromSeatStringDecodesBinary | five/src/boarding/pass/boarding_pass.rs:25-64 | Decoding succeeds exactly on seat strings. The row is the binary value of the first seven characters, and the column that of the next three. |
| BoardingPasses.FromSeatStringBounds | five/src/boarding/pass/boarding_pass.rs:56-69 | The row is in `[0,128)` and the column in `[0,8)`. The seat id is `row * 8 + column`, in `[0,1024)`. |
| BoardingPasses.FromSeatStringRowFirst | five/src/boarding/pass/boarding_pass.rs:26-41 | A string shorter than eight characters is `InvalidSeatString`. A bad row character is `InvalidRowChar`, reported before any column character is read. |
| BoardingPasses.FromSeatStringColumnErrors | five/src/boarding/pass/boarding_pass.rs:43-54 | With a good row, a bad column character is `InvalidColumnChar`. Fewer than three column characters leave the column space uncollapsed. |
| BoardingPasses.FromSeatStringExample | five/src/boarding/pass/boarding_pass.rs:25-64 | `FBFBBFFRLR` decodes to row 44, column 5, seat id 357. |
| BoardingPasses.FromSeatStringRejectsExamples | five/src/boarding/pass/boarding_pass.rs:26-33 | A leading `X` is a bad row character. A five-character string is too short. |
| BoardingPasses.FromSeatStringOfHalves | five/src/boarding/pass/boarding_pass.rs:25-69 | A ten-character string whose halves read as a row and a column decodes to their binary values, with seat id `row * 8 + column`. |
| BoardingPasses.SeatStringOfPartitions | five/src/boarding/pass/boarding_pass.rs:75-107 | The canonical seat string of the id that seven row and three column partitions read as spells out exactly those partitions. |
| BoardingPasses.SeatStringDecodes | five/src/boarding/pass/boarding_pass.rs:25-69 | Every seat id in `[0,1024)` is decoded from its canonical seat string. The decoded row and column are `id / 8` and `id % 8`. |
| BoardingPasses.SeatStringOfDecode | five/src/boarding/pass/boarding_pass.rs:25-69 | A ten-character seat string is the canonical string of the id it decodes to, so no two seat strings share an id. |
| BoardingPasses.CalculateSeatId | five/src/boarding/pass/boarding_pass.rs:67-69 | For a column in `[0, 8)` the id gives back the row as its quotient by 8 and the column as its remainder, so it determines both. |
| BoardingPasses.ListFromRowString | five/src/boarding/pass/boarding_pass.rs:93-107 | Succeeds exactly on strings of `F`/`B`, one partition per character with `B` as `Upper`. Otherwise it fails with `InvalidRowChar` of the first other character. |
| BoardingPasses.ListFromColumnString | five/src/boarding/pass/boarding_pass.rs:75-89 | Succeeds exactly on strings of `L`/`R`, one partition per character with `R` as `Upper`. Otherwise it fails with `InvalidColumnChar` of the first other character. |
| BoardingPasses.FromSeatString | five/src/boarding/pass/boarding_pass.rs:25-29 | A string of fewer than eight characters fails with `InvalidSeatString` before anything else is read. |
| PasswordDatabases.DoesLetterMatch | two/src/password_database.rs:144-150 | A position below 1 or past the password's end never matches. A match means the letter occurs in the password. |
| PasswordDatabases.IsValid | two/src/password_database.rs:81-118 | An inverted repetition range admits no password, and neither do two equal positions. |
| PasswordDatabases.FromText | two/src/password_database.rs:55-78 | A parsed entry has a lower-case letter, a non-empty lower-case password and two parameters in `[0, i64::MAX]`. A failure is `MalformedEntry` or `ParameterOverflow` of the line. |
| PasswordDatabases.FromFile | two/src/password_database.rs:31-38 | A parsed database has one entry per line. |
| PasswordDatabases.RepetitionsIsMultiplicity | two/src/password_database.rs:93-96 | The counted repetitions are the letter's multiplicity in the password. |
| PasswordDatabases.IsValidRepetitionRange | two/src/password_database.rs:83-99 | The range policy holds exactly when `low <= count <= high`. |
| PasswordDatabases.IsValidLetterPositions | two/src/password_database.rs:100-116 | The positions policy holds exactly when the two positions differ and exactly one of them holds the letter (1-based, positions below 1 never match). Equal positions never validate. |
| PasswordDatabases.IsValidExamples | two/src/password_database.rs:81-118 | The three puzzle entries validate as published under both policies. |
| PasswordDatabases.SplitEntry | two/src/password_database.rs:13-14 | A split entry is well formed, and its fields render back to the line. |
| PasswordDatabases.SplitEntryComplete | two/src/password_database.rs:13-14 | Every well-formed rendering is split back into its own fields. |
| PasswordDatabases.FromTextMatchesPattern | two/src/password_database.rs:55-78 | A line of the entry pattern's shape parses to the numbers, letter and password it spells. It fails with `ParameterOverflow` when either number exceeds `i64`. |
| PasswordDatabases.FromTextSound | two/src/password_database.rs:55-78 | Every line that parses has the entry pattern's shape, and the entry holds the numbers, letter and password it spells. |
| PasswordDatabases.FromTextRoundTrip | two/src/password_database.rs:55-78 | Formatting an entry with `i64` parameters and parsing it gives the entry back. |
| PasswordDatabases.FromTextExample | two/src/password_database.rs:55-78 | `2-9 c: ccccccccc` parses to `(2, 9)`, `c`, `ccccccccc`. |
| PasswordDatabases.FromFileEntries | two/src/password_database.rs:31-38 | The file parses exactly when every line does. Entries are in line order. Otherwise the error is the first bad line's. |
| ExpenseReports.Partner | one/src/main.rs:43-52 | Returns the first index from `from` on that completes the entry to the total, or none exists. |
| ExpenseReports.PairFrom | one/src/main.rs:40-54 | Returns the first index pair, row-major, from row `from` on, or none exists. |
| ExpenseReports.TrioFrom | one/src/main.rs:57-82 | Returns the first index triple, row-major, from row `from` on, or none exists. |
| ExpenseReports.FindExpenseReportEntryPair | one/src/main.rs:40-54 | None exactly when no two entries, possibly the same one, sum to 2020. Otherwise it returns the entries of the row-major first such index pair. |
| ExpenseReports.FindExpenseReportEntryTrio | one/src/main.rs:57-82 | None exactly when no three entries sum to 2020. Otherwise it returns the entries of the row-major first such index triple. |
| ExpenseReports.SelfPairExample | one/src/main.rs:40-82 | `[1010]` pairs with itself and forms no trio. |
| ExpenseReports.PairExample | one/src/main.rs:40-54 | The puzzle's report gives `(1721, 299)`. |
| ExpenseReports.TrioExample | one/src/main.rs:57-82 | The puzzle's report gives `(979, 366, 675)`. |
| PassportRecordAttributeKeys.FromString | four/src/passport/passport_record_attribute_key.rs:18-33 | A failure carries the rejected text. |
| PassportRecordAttributeKeys.FromStringOfCode | four/src/passport/passport_record_attribute_key.rs:19-27 | Each key's code reads back as that key. |
| PassportRecordAttributeKeys.FromStringIsCode | four/src/passport/passport_record_attribute_key.rs:19-27 | A text reads as a key exactly when it is that key's code. |
| PassportRecordAttributeKeys.FromStringRejects | four/src/passport/passport_record_attribute_key.rs:28-31 | Exactly the texts that are no key's code are rejected. |
| PassportRecordAttributeKeys.CodeInjective | four/src/passport/passport_record_attribute_key.rs:19-27 | Distinct keys have distinct codes. |
| PassportRecordAttributeKeys.FromStringExactExamples | four/src/passport/passport_record_attribute_key.rs:19-31 | Matching is case-sensitive and exact: `BYR` and `byr ` are rejected. |
| PassportRecordAttributeKeys.KeysBounded | four/src/passport/passport_record_attribute_key.rs:5-14 | Every set of keys lies among the eight keys. |
| PassportRecords.LastIndex | four/src/passport/passport_record.rs:30-35 | Returns the last attribute whose key text reads as the key, or none does. |
| PassportRecords.FromString | four/src/passport/passport_record.rs:27-38 | Fails exactly when some key text is unknown, with the first such text. Otherwise each key maps to the value of its last occurrence, and keys that never occur are absent. |
| PassportRecords.ValueOf | four/src/passport/passport_record.rs:51-53 | Returns a value exactly when the key is stored, and it is the stored one. |
| PassportRecords.IsComplete | four/src/passport/passport_record.rs:42-48 | A record is complete exactly when every key but the country id is present. |
| PassportRecords.IsCompleteIffRequiredKeys | four/src/passport/passport_record.rs:42-48 | For any key set, "eight keys, or seven without the country id" is equivalent to "every key but the country id is present". |
| PassportRecords.IsCompleteOnlyKeys | four/src/passport/passport_record.rs:42-48 | Completeness depends on which keys are present only. |
| PassportRecords.AttributeCount | four/src/passport/passport_record.rs:21 | A record holds at most eight attributes. |
| ValidatedPassportRecords.ParseU32 | four/src/passport/validated_passport_record.rs:54-56 | A parsed number fits in `u32`. |
| ValidatedPassportRecords.ParseU32RoundTrip | four/src/passport/validated_passport_record.rs:54-56 | Every `u32` parses back from its decimal text, with or without `+`. |
| ValidatedPassportRecords.ParseU32Rejects | four/src/passport/validated_passport_record.rs:54-56 | The empty text, `-1` and a lone `+` are not numbers. |
| ValidatedPassportRecords.Require | four/src/passport/validated_passport_record.rs:51-53 | Succeeds exactly when the key is present, with its value. Otherwise the error is `MissingAttribute` of that key. |
| ValidatedPassportRecords.Year | four/src/passport/validated_passport_record.rs:51-62 | Succeeds exactly when the attribute is present, is a `u32` and lies in `[low, high)`. |
| ValidatedPassportRecords.EyeColorFromString | four/src/passport/validated_passport_record.rs:203-217 | A colour read from a text has that text as its code. A failure is `InvalidEyeColor` of the text. |
| ValidatedPassportRecords.EyeColorFromStringIsCode | four/src/passport/validated_passport_record.rs:203-211 | A text is an eye colour exactly when it is that colour's code. |
| ValidatedPassportRecords.EyeColorFromStringRejects | four/src/passport/validated_passport_record.rs:212-216 | Exactly the texts that are no colour's code are rejected. |
| ValidatedPassportRecords.IsHairColor | four/src/passport/validated_passport_record.rs:8-9 | A hair colour is exactly a `#` followed by six characters from `0-9a-f`. |
| ValidatedPassportRecords.IsPassportId | four/src/passport/validated_passport_record.rs:21-22 | A passport id is exactly nine ASCII digits. |
| ValidatedPassportRecords.HairColorAndPassportIdExamples | four/src/passport/validated_passport_record.rs:8-22 | `#123abc` is a hair colour, while `#123abz` and `123abc` are not. `000000001` is a passport id, while `0123456789` is not. |
| ValidatedPassportRecords.MeasurementOfDigits | four/src/passport/validated_passport_record.rs:17-18 | A whole-number measurement reads as itself. |
| ValidatedPassportRecords.MeasurementOfDecimal | four/src/passport/validated_passport_record.rs:153-158 | A measurement with a fraction reads as its exact decimal value. |
| ValidatedPassportRecords.FractionValueExample | four/src/passport/validated_passport_record.rs:153-158 | The digits after the point count as tenths, then hundredths: `25` is 0.25. |
| ValidatedPassportRecords.HeightFromString | four/src/passport/validated_passport_record.rs:146-186 | A height is accepted only as centimetres in `[150,194)` or inches in `[59,77)`, with the unit its text ends in. |
| ValidatedPassportRecords.HeightFromStringWhole | four/src/passport/validated_passport_record.rs:160-180 | A whole number of centimetres or inches is accepted exactly within its unit's range. Otherwise the unit's range error carries the value. |
| ValidatedPassportRecords.HeightFromStringExamples | four/src/passport/validated_passport_record.rs:146-186 | `60in` and `190cm` are accepted. `190in` fails its range, and `190` has no unit. |
| ValidatedPassportRecords.FromPassportRecord | four/src/passport/validated_passport_record.rs:48-134 | A validated record has its three years in `[1920,2003)`, `[2020,2031)` and `[2010,2021)`. Its hair colour and passport id are the record's own values and match their patterns. |
| ValidatedPassportRecords.FromPassportRecordFirstError | four/src/passport/validated_passport_record.rs:48-134 | Validation succeeds exactly when every field check passes on its own. Otherwise the error is that of the first failing check, in source order. The country id is never checked. |
| ValidatedPassportRecords.FromPassportRecordFields | four/src/passport/validated_passport_record.rs:124-133 | On success the fields are the attribute values, read as their types. |
| ValidatedPassportRecords.ValidatedIsComplete | four/src/passport/validated_passport_record.rs:48-134 | A record that validates is complete. |
| SlopeFeatures.FromChar | three/src/slope/atlas/slope_feature.rs:12-21 | Succeeds exactly on `#` and `.`, and the feature read draws as that character. Any other character fails with itself. |
| SlopeFeatures.FromCharIsToChar | three/src/slope/atlas/slope_feature.rs:13-15 | `#` and `.` read as the features they stand for, and each feature's character reads back as it. |
| SlopeFeatures.FromCharRejects | three/src/slope/atlas/slope_feature.rs:16-19 | Every other character fails with itself. |
| SlopeContours.FromText | three/src/slope/atlas/slope_contour.rs:13-21 | A contour read from a line has one feature per character. |
| SlopeContours.Breadth | three/src/slope/atlas/slope_contour.rs:24-26 | The breadth is never negative and is the width of the contour as drawn. |
| SlopeContours.FeatureAt | three/src/slope/atlas/slope_contour.rs:29-33 | Returns a feature exactly for an index in `[0, breadth)`. Negative indices give none. |
| SlopeContours.FromTextFeatures | three/src/slope/atlas/slope_contour.rs:13-21 | A line parses exactly when all its characters are `#` or `.`. The breadth is its length, with one feature per character. Otherwise the first bad character is the error. |
| SlopeContours.FromTextOfRender | three/src/slope/atlas/slope_contour.rs:13-21 | Rendering a contour and parsing it gives the contour back. |
| SlopeContours.RenderOfFromText | three/src/slope/atlas/slope_contour.rs:13-21 | A parsed line renders back to itself. |
| SlopeContours.FromTextEmpty | three/src/slope/atlas/slope_contour.rs:13-21 | The empty line is a contour of breadth 0. |
| SlopeAtlases.FromFile | three/src/slope/atlas/slope_atlas.rs:12-20 | A parsed atlas has one contour per line of the file. |
| SlopeAtlases.Height | three/src/slope/atlas/slope_atlas.rs:22-24 | The height is never negative and is the number of lines of the atlas as drawn. |
| SlopeAtlases.FromFileContours | three/src/slope/atlas/slope_atlas.rs:12-20 | The file parses exactly when every line does. Contours are in line order. Otherwise the error is the first bad line's. |
| SlopeAtlases.FromFileHeight | three/src/slope/atlas/slope_atlas.rs:12-24 | The height is the number of lines: the newlines, plus one for an unterminated last line. |
| SlopeAtlases.FromFileOfRender | three/src/slope/atlas/slope_atlas.rs:12-20 | Rendering an atlas with a newline after each row and parsing it gives the atlas back. |
| SlopeAtlases.FromFileCarriageReturn | three/src/slope/atlas/slope_atlas.rs:13-14 | `\r\n` line endings give the same atlas as `\n`. |
| SlopeAtlases.FromFileEmpty | three/src/slope/atlas/slope_atlas.rs:12-24 | An empty file is an atlas of height 0. |
| TobogganTrajectories.TobogganTrajectoryDescender.Descend | three/src/toboggan/trajectory/toboggan_trajectory.rs:26-33 | A new descender stands at the starting position, with the trajectory's velocity and the flag unset. |
| TobogganTrajectories.TobogganTrajectoryDescender.Next | three/src/toboggan/trajectory/toboggan_trajectory.rs:52-63 | With the flag unset, the position advances by the velocity and the flag stays unset. With it set, the position stays. It always yields the new position. |
| TobogganTrajectories.Descent | three/src/toboggan/trajectory/toboggan_trajectory.rs:52-62 | The `k`-th position a fresh descent yields is the start plus `k + 1` velocities. |
| TobogganTrajectories.StartNeverYielded | three/src/toboggan/trajectory/toboggan_trajectory.rs:52-62 | A descent yields its starting position exactly when the velocity is zero. |

## Findings

| source | as written | input that shows it | evidently intended | confidence | as-written member | corrected member |
|---|---|---|---|---|---|---|
| five/src/binary/space/binary_space.rs:76-80 | `Upper` moves the start by `ceil(range/2)` and keeps width `range - ceil(range/2)`, so for an odd width both halves have width `floor(range/2)` and the middle integer is in neither | a space of width 3 from 0: `Lower` keeps `[0,1)`, `Upper` keeps `[2,3)`, 1 is lost | the two halves cover the space (`Upper` moves by `floor(range/2)`); the seat decoder only halves powers of two, where both agree | medium; not executed | BinarySpaces.BisectDropsMiddleExample | BinarySpaces.BisectCoveringSplits |

`BinarySpaces.PartitionedCoveringPowerOfTwo` shows that the corrected
halving gives the same seat decoding. The boarding-pass model therefore
keeps the source's halving.

## Left out

- Input files, the command-line `main` functions and their printing are left out. The contents of a file are a parameter.
- The `mod.rs` re-export files are left out; they declare no behaviour.
- `passport_record_batch.rs` is left out. It splits a file into records and calls functions not found among the modelled files.
- Error messages built with `anyhow` are left out, and so is `context` wrapping. Errors are tagged datatypes that carry the offending value.
- BinarySpaces.Bisect: the source halves through `f64` `floor`/`ceil`. The model uses integer halving, which agrees with it for widths up to 2^53.
- BinarySpaces.New: `i64` subtraction overflow is not modelled; integers are unbounded.
- ExpenseReports.FindExpenseReportEntryPair: entries are unbounded integers, so `i32` addition overflow (a panic in debug builds) is not modelled.
- ExpenseReports.FindExpenseReportEntryTrio: `i32` addition overflow is not modelled, as for the pair.
- TobogganTrajectories.TobogganTrajectoryDescender.Next: `i64` addition overflow is not modelled.
- TobogganTrajectories.TobogganTrajectoryDescender.Next: the infinite iterator is modelled by a `Next` that always yields. `Descent` takes a finite prefix of it.
- The descender's flag is never set, so the first position yielded is one step from the start, never the start itself. The model keeps this behaviour as written.
- PasswordDatabases.IsValid: the `count() as i64` cast and the `position - 1` wrap are modelled only as their mathematical results. A count never exceeds `i64`, and a position below 1 never matches.
- The regular expressions are modelled by character predicates and a scanner, not by a regex engine.
  - `\s` is Unicode white space.
  - `[a-z]` is ASCII lower case.
  - `\d` is modelled as ASCII digits. In the password and height patterns any other digit would fail the numeric parse anyway, so only the error tag differs.
- ValidatedPassportRecords.IsPassportId: the source's `\d{9}` also accepts non-ASCII Unicode decimal digits. The model accepts ASCII digits only.
- ValidatedPassportRecords.HeightFromString: the measurement is the exact decimal value of its text, not the nearest `f64`. The range checks can differ only for texts within `f64` rounding of a bound.
- ValidatedPassportRecords.FractionValueExample: the digits after the point are read one tenth at a time. That this equals the digits' value over a power of ten is shown on an example, not proved for every fraction.
- PassportRecords.FromString: takes the `(key, value)` pairs that the attribute pattern `([a-z]+):(#?[a-zA-Z0-9]+)` captures, in order. Scanning a record's text for those matches is not modelled.
- Lines follow Rust's `str::lines`: a `\r` is dropped only before `\n`, and a final newline adds no empty line.
- TextLines.Lines: follows the `str::lines` of current Rust standard libraries. The 2020-era standard library also dropped a `\r` that ended an unterminated last line. The two differ only for a file whose last line ends in a bare `\r`, and the model keeps that `\r`, so such a contour fails on it.
