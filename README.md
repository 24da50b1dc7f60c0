# chin: a verified model of the archive core

`chin` packs files and directories into a `.chin` archive. It can split the archive
into numbered parts, and it unpacks an archive or a set of parts again. This project
models its archive core in Dafny, taken from `main.go`, and proves properties of that
model.

- **Entry codec (`writeEntry`).** One record per walked object, laid out as
  `[pathLen uint16 LE][path][contentLen uint32 LE][content]`. A content length of 0
  marks a directory. Records are concatenated with no header, count or checksum. The
  `uint16`/`uint32` conversions wrap around, and the model writes that out
  (`Bytes.Uint16`, `Bytes.Uint32`). The writer is a class, `EntryCodec.ArchiveSink`,
  whose `data` grows by appending, field by field.
- **Writers (`compressToFile`, `compressWithSplit`, `compressMultipleToFile`,
  `compressMultipleWithSplit`).** A counting loop and a writing loop run over the walk,
  which is given as a sequence of walked objects. Both skip the output archive. With
  several sources, the counting loop walks each source from `os.Lstat`. The writing
  loop skips a source that `os.Stat` cannot open, walks a directory, and writes a
  file as one record.
- **Splitter (`splitDataToFiles`).** A loop cuts the archive positionally into parts of
  `maxSizeMB * 1024 * 1024` bytes, named `<name>-<i>.chin`.
- **Split locator and joiner (`decompressSplit`).**
  - It parses `(.+)-(\d+)\.chin$` and matches the directory's files against
    `^<base>-(\d+)\.chin$`.
  - It skips numbers that `strconv.Atoi` rejects.
  - It sorts, checks for gaps and appends the parts in order.
  - The two regular expressions are written as string predicates and parsers. They
    follow Go's semantics: `.` does not match a newline, and `\d` is ASCII.
- **Reader (`processDecompression`).**
  - The validate pass walks a cursor over the buffer and counts records. A length
    field that cannot be read ends it quietly. A declared length that runs past the
    end of the buffer fails it, and so does a count of zero.
  - The extract pass re-reads the buffer and performs `MkdirAll` / `MkdirParents` +
    `WriteFile` actions. Short reads and a missing content length are hard errors
    there.
- **Commands (`compress`, `compressMultiple`, `decompress`).** They derive the output
  name, choose between whole and split, and recognise split names. The host
  filesystem is replaced by inputs (walks, directory listings, file contents) and
  outputs (written files, extraction actions).

The main results:

- **Round trips.**
  - Encoding `n` encodable entries and decompressing the result validates to `n` and
    recreates each entry in order (`ArchiveReader.DecompressEncodedArchive`).
  - Splitting and joining gives back the archive, whatever part is named, whatever
    the directory order and whatever unrelated files lie beside the parts
    (`Chin.SplitJoinRoundTrip`).
  - `compress` followed by `decompress` recreates every walked object except the
    archive itself (`Chin.CompressDecompressRoundTrip`).
- **The gap check, exactly.** It passes if and only if no sorted number exceeds its
  position plus one (`SplitJoiner.NoGapIff`). For distinct positive numbers, that
  means exactly `1..k` (`SplitJoiner.ContiguousIff`).
- **The `entriesProcessed != totalEntries` warning cannot fire**
  (`ArchiveReader.NoCountMismatch`).

Behaviours of `main.go` that the model makes explicit:

- **Empty archive data is split into zero parts.** The part count `(0 + size - 1) / size`
  is 0, so no part file is written (`Splitter.EmptyDataNoParts`).
- **The gap check only compares each sorted number with its position.**
  - A missing *last* part is not detected (`SplitJoiner.MissingLastPartUndetected`).
  - Duplicate and zero part numbers are let through.
  - Before joining, each part is opened and its first 10 bytes are read
    (main.go:642-661). Nothing in that probe looks at part sizes.
- **A part number beyond Go's `int` range is skipped.** `strconv.Atoi` fails on it and
  the loop `continue`s (`SplitJoiner.PartOf`).
- **A split archive of a file whose whole name is an extension cannot be
  decompressed.** A file such as `.profile` is archived as `.chin`, and its parts
  `-1.chin`, `-2.chin`, … are recognised as part names. But `(.+)` needs a
  non-empty base name, so decompressing any of them reports an invalid split format
  (`Chin.DotfileSplitPartsRejected`).
- **With several sources, the announced count can exceed the records written.** The
  counting loop walks each source with `filepath.Walk`, which starts from `os.Lstat`.
  The writing loop first calls `os.Stat` and skips a source it cannot open. A
  dangling symbolic link given as a source is therefore counted but never written
  (`ArchiveWriter.DanglingSourceOvercounts`). The count is only used for the progress
  display.
- **A split archive of the root directory cannot be joined.** Its parts are written
  as `/-1.chin`, `/-2.chin`, …, so the base name `decompressSplit` parses is `/`. It
  then matches `^/-(\d+)\.chin$` against the names `os.ReadDir("/")` returns, such as
  `-1.chin`, finds no part and reports that there are no part files. `Chin.CompressDecompressRoundTrip`
  therefore requires a base name without '/'.
- **A split archive whose stem holds a newline cannot be joined under its own base.**
  `.` in `(.+)-(\d+)\.chin$` does not match '\n', so the parsed base is only the text
  after the last newline (`Naming.ParseSplitName`). `Chin.CompressDecompressRoundTrip`
  therefore requires a base name without '\n'.
- **Compressing the root directory names the archive `/.chin`.** `filepath.Abs` keeps
  that absolute name, so the walk skips the archive wherever the command runs
  (`Chin.RootArchiveSkipped`).

## Model

| member | source | states |
|---|---|---|
| Bytes.Uint16 | main.go:484 | `uint16(len)` is below 65536 and is the length itself when the length fits |
| Bytes.Uint32 | main.go:498 | `uint32(len)` is below 2^32 and is the length itself when the length fits |
| Bytes.Le16 | main.go:484-487 | `binary.Write` of a `uint16` in little-endian order writes two bytes, the low byte first |
| Bytes.Le32 | main.go:498-499 | `binary.Write` of a `uint32` in little-endian order writes four bytes, least significant first |
| Bytes.ReadLe16 | main.go:694-695 | the little-endian `uint16` read from the first two bytes is below 65536 |
| Bytes.ReadLe32 | main.go:705-706 | the little-endian `uint32` read from the first four bytes is below 2^32 |
| Bytes.LeRoundTrip | main.go:487 | reading back the k little-endian bytes written for a value below 256^k gives the value |
| Bytes.Le16RoundTrip | main.go:694-695 | `binary.Read` of a `uint16` written by `binary.Write` in little-endian order returns it |
| Bytes.Le32RoundTrip | main.go:705-706 | `binary.Read` of a `uint32` written by `binary.Write` in little-endian order returns it |
| Bytes.ReadLe16Prefix | main.go:695 | reading a `uint16` field depends only on its two bytes, not on what follows |
| Bytes.ReadLe32Prefix | main.go:706 | reading a `uint32` field depends only on its four bytes, not on what follows |
| Bytes.ConcatAppend | main.go:671-679 | appending the parts of two lists in order is appending the two results |
| EntryCodec.EncodeEntry | main.go:482-521 | a record is 2 + path length + 4 + content length bytes long, with no content for a directory |
| EntryCodec.EncodeArchive | main.go:265-281 | the archive holds at least six bytes per entry and is empty exactly when there is no entry |
| EntryCodec.EntryLayout | main.go:482-521 | for an encodable entry the record reads back as the path length, the path, the content length (0 for a directory) and the content, in that order |
| EntryCodec.LongPathLengthWraps | main.go:483-484 | a path of exactly 65536 bytes is recorded with path length 0, because `uint16` wraps |
| EntryCodec.EncodeArchiveConcat | main.go:265-281 | the archive of two lists of entries, one after the other, is their two archives back to back |
| EntryCodec.ExampleArchive | main.go:482-521 | file `a.txt` holding `hi` followed by directory `b` encodes to `05 00 'a.txt' 02 00 00 00 'hi' 01 00 'b' 00 00 00 00` |
| EntryCodec.ExampleFileRecord | main.go:490-500 | the record of `a.txt` holding `hi` is `05 00 'a.txt' 02 00 00 00 'hi'` |
| EntryCodec.ExampleDirRecord | main.go:490-492 | the record of directory `b` is `01 00 'b' 00 00 00 00` |
| EntryCodec.ArchiveSink.constructor | main.go:363 | a fresh buffer holds no bytes |
| EntryCodec.ArchiveSink.WriteEntry | main.go:482-521 | the four field writes append exactly the entry's record to the sink and change nothing else |
| Naming.TrimSuffix | main.go:194 | with the suffix present, the result followed by the suffix is the input; otherwise the input is unchanged |
| Naming.StripTrailingSlashes | main.go:192 | the result is a prefix of the path not ending in '/', and only '/' characters were removed |
| Naming.LastElement | main.go:192 | the result is a suffix of the path with no '/', preceded by a '/' when shorter than the path |
| Naming.Base | main.go:192 | `filepath.Base` never returns an empty name |
| Naming.Ext | main.go:194 | the extension is a suffix of the path that is empty or starts with its only '.', and holds no '/' |
| Naming.ExtOfSuffix | main.go:194 | a path ending in '.' followed by characters other than '.' and '/' has exactly that extension |
| Naming.NoExtNoDot | main.go:219-220 | a path without extension has no '.' in its last element, so the '.' test of `compressMultiple` and the extension agree |
| Naming.BaseOfPlainName | main.go:600 | a non-empty name without '/' is its own base name |
| Naming.ArchiveNameShape | main.go:191-195 | the archive name ends in ".chin"; its stem is the base name for a directory, and for a file the base name minus its extension |
| Naming.ArchiveName | main.go:189-195 | the output name of compress ends in ".chin" |
| Naming.MultiArchiveName | main.go:217-224 | the output name of compressMultiple ends in "-all.chin" |
| Naming.MultiArchiveNameShape | main.go:217-224 | its stem is the first source's base name, less its extension exactly when that name holds a '.' |
| Naming.DotfileArchiveName | main.go:194 | a file named like `.profile` is archived as ".chin" |
| Naming.NatToString | main.go:535 | `%d` of a number is a non-empty string of digits |
| Naming.NatToStringRoundTrip | main.go:603 | `strconv.Atoi` of the decimal form of n is n |
| Naming.DigitsValue | main.go:603 | the value `strconv.Atoi` gives a digit string: its last digit is the units digit, and it is 0 exactly when every digit is 0 |
| Naming.DigitsValueLeadingZero | main.go:603 | leading zeros do not change the part number `strconv.Atoi` reads |
| Naming.PartName | main.go:528-535 | a part name starts with the archive name less ".chin", ends in ".chin", and has room for "-" and at least one digit between |
| Naming.TrailingDigits | main.go:558 | the count is the length of the maximal run of digits ending the string |
| Naming.SplitNameMatches | main.go:558 | `-\d+\.chin$` matches exactly the names with a '-', one or more digits and a final ".chin", and that '-' is unique |
| Naming.IsSplitName | main.go:558 | a name taken for a part has at least a dash, a digit and ".chin" |
| Naming.LineStart | main.go:582 | the leftmost start of a `.+` match ending at the dash lies just after the last newline |
| Naming.ParseSplitName | main.go:582-588 | a parse exists only for split-looking names; the base is the text from the start of the dash's line up to the dash, the digits run from the dash to ".chin", and the parse fails exactly when that base would be empty |
| Naming.MatchPartNameIff | main.go:600-602 | a name matches `^<base>-(\d+)\.chin$` exactly when it is the base, '-', one or more digits and ".chin", and the digits are captured |
| Naming.MatchPartName | main.go:600-602 | a match yields non-empty digits, and the name is the base, "-", those digits and ".chin" |
| Naming.PartNameRoundTrip | main.go:582-588 | every part name the splitter writes for a non-empty base is detected as split and parses back to that base and the part number |
| Naming.EmptyBasePartName | main.go:582-588 | the part names of the archive ".chin" look split but do not parse |
| Naming.PartNamesDistinct | main.go:535 | different parts of one archive get different names |
| Splitter.PartSize | main.go:524 | a positive size in MiB is at least 1 MiB of bytes |
| Splitter.PartCountBounds | main.go:526 | the part count is 0 exactly for empty data, the parts cover the data, and the last part starts inside it |
| Splitter.PartCount | main.go:526 | `numParts`, the ceiling of the data size over the part size, is 0 exactly when there is no data |
| Splitter.Chunk | main.go:537-543 | every part holds between 1 and maxSize bytes |
| Splitter.ChunkAt | main.go:537-543 | part i is the data from i * maxSize to the next boundary or the end, whichever comes first |
| Splitter.Chunks | main.go:534-543 | there are ceil(len / maxSize) parts |
| Splitter.SplitParts | main.go:523-553 | one written file per part |
| Splitter.SplitDataToFiles | main.go:523-553 | the loop writes part i + 1 named `<name>-<i+1>.chin` with the bytes of part i, for every part |
| Splitter.ChunkSizes | main.go:537-543 | every part but the last holds exactly maxSize bytes, and the last holds the remainder |
| Splitter.EmptyDataNoParts | main.go:526 | empty data is written as no parts |
| Splitter.SmallDataOnePart | main.go:524-543 | data no larger than one part is written as a single part equal to it |
| Splitter.ChunksPrefix | main.go:534-543 | the first k parts concatenated are the first k * maxSize bytes of the data, or all of it |
| Splitter.ChunksConcat | main.go:534-543 | all parts concatenated in order are the data |
| Splitter.SplitPartsJoin | main.go:523-553 | the parts' contents in part order concatenate to the archive, and part i is named with number i + 1 |
| Splitter.ExampleCut | main.go:524-543 | 10000 bytes with parts of 4000 give 3 parts of 4000, 4000 and 2000 bytes |
| SplitJoiner.CollectParts | main.go:601-610 | the loop over the directory keeps, in directory order, a part for each matching name whose number Atoi accepts |
| SplitJoiner.Collected | main.go:601-610 | the parts found are no more than the files listed, and each part number is within Go's `int` range |
| SplitJoiner.PartOf | main.go:602-606 | a file yields a part only when its name matches, with a number within Go's int range and the file's own content |
| SplitJoiner.PartOfIff | main.go:600-606 | a file yields part n exactly when its name is base-digits.chin with digits denoting n, and n is within Go's int range |
| SplitJoiner.CollectedAppend | main.go:601-610 | the parts found in two listings one after the other are the parts of each, in order |
| SplitJoiner.CollectedPermutation | main.go:595-610 | the parts found do not depend on the directory order, up to their order |
| SplitJoiner.CollectedRemove | main.go:601-610 | the parts found are those without one file plus that file's own |
| SplitJoiner.Insert | main.go:617-622 | inserting keeps every part and adds one |
| SplitJoiner.InsertSorted | main.go:617-622 | inserting into a list sorted by number keeps it sorted |
| SplitJoiner.InsertNumbers | main.go:617-622 | inserting a part adds exactly its number to the part numbers |
| SplitJoiner.SortByNumber | main.go:617-622 | sorting keeps exactly the parts found |
| SplitJoiner.SortByNumberSorted | main.go:617-622 | the sorted parts are in ascending part-number order |
| SplitJoiner.SortedPartsUnique | main.go:617-622 | for distinct numbers, any sorted arrangement is the same, so the instability of `sort.Slice` cannot matter there |
| SplitJoiner.SortedNatsUnique | main.go:624 | any two sorted arrangements of the same numbers are equal |
| SplitJoiner.SortNumbers | main.go:617-624 | the sorted parts carry the same part numbers as those found |
| SplitJoiner.SortedNumbersAgree | main.go:617-624 | what `sort.Ints` makes of `partNumbers` is exactly the numbers of the parts as `sort.Slice` orders them |
| SplitJoiner.MissingRange | main.go:633-636 | the missing list runs from the expected number up to, but not including, the number found |
| SplitJoiner.SkipPresent | main.go:629-632 | positions already holding their expected number are passed over by the gap loop |
| SplitJoiner.AtLeastPosition | main.go:629-637 | strictly increasing positive numbers are each at least their position plus one |
| SplitJoiner.CheckMissing | main.go:629-640 | the loop reports the range missing before the first number above its position plus one, or nothing |
| SplitJoiner.FirstGap | main.go:629-637 | a reported gap is a non-empty run of consecutive numbers, all above the position the check started from |
| SplitJoiner.NoGapIff | main.go:629-640 | the check passes exactly when no number exceeds its position plus one; smaller numbers and duplicates are let through |
| SplitJoiner.GapAt | main.go:629-637 | a reported gap is at the first position whose number exceeds its expected value, and names the numbers in between |
| SplitJoiner.ReportedPartsAbsent | main.go:629-637 | on sorted numbers every part reported missing is positive and absent, and at least one is reported |
| SplitJoiner.ContiguousIff | main.go:629-640 | for distinct positive numbers the check passes if and only if they are exactly 1..k |
| SplitJoiner.OneMissingPart | main.go:629-637 | parts 1..k with only part m < k missing report exactly [m] |
| SplitJoiner.MissingLastPartUndetected | main.go:629-640 | parts 1..k-1 pass the check although part k may have existed |
| SplitJoiner.JoinParts | main.go:671-679 | the append loop yields the parts' contents concatenated in order |
| SplitJoiner.SplitJoin | main.go:578-679 | the format is invalid exactly when the name does not parse, and a reported gap is non-empty and names only positive numbers no part found carries |
| SplitJoiner.MissingPartsAbsent | main.go:617-637 | after sorting, every part reported missing is positive and absent from the parts found, and at least one is |
| SplitJoiner.DecompressSplit | main.go:578-684 | invalid name, no parts, missing parts, or the joined bytes, as the whole of `decompressSplit` up to `processDecompression` |
| ArchiveReader.SkipStep | main.go:693-716 | a record the validate loop skips consumes at least its six bytes of length fields |
| ArchiveReader.SkipEntry | main.go:694-715 | one iteration's reads and seeks end the loop, fail it or count one record, as the record count requires |
| ArchiveReader.CountRecords | main.go:693-716 | a count of n records comes from at least 6n bytes |
| ArchiveReader.Validation | main.go:693-720 | a validated count is positive and at most a sixth of the buffer, and a buffer shorter than one record is rejected |
| ArchiveReader.ValidatePass | main.go:693-720 | the validate loop returns the record count, which is positive, or the error that stops it |
| ArchiveReader.ExtractStep | main.go:732-776 | a record the extract loop reads consumes at least its six bytes of length fields |
| ArchiveReader.ReadEntry | main.go:733-762 | one iteration's reads end the loop, fail with the source's error, or return the record and the rest of the buffer |
| ArchiveReader.ParseRecords | main.go:732-776 | the records read take at least six bytes each |
| ArchiveReader.ExtractPass | main.go:727-782 | the extract loop performs the actions of every record read, counts files, directories and entries, and stops at the first error |
| ArchiveReader.RecordActions | main.go:750-772 | every action is on the record's path; a record with no content is created by MkdirAll and any other is written with its content as the last action, after its parent directories are made |
| ArchiveReader.FilesPlusDirs | main.go:750-775 | `extractedFiles + extractedDirs == entriesProcessed` |
| ArchiveReader.ActionsOfAppend | main.go:750-775 | each record read appends its own actions and increments exactly one of the file and directory counts |
| ArchiveReader.SkipEncodedEntry | main.go:693-716 | the validate loop skips exactly one written record |
| ArchiveReader.CountEncodedEntry | main.go:693-716 | a written record followed by any bytes counts as one record more than those bytes |
| ArchiveReader.ExtractEncodedEntry | main.go:732-776 | the extract loop reads a written record back as its path and content |
| ArchiveReader.ParseEncodedEntry | main.go:732-776 | a written record followed by any bytes is extracted as that record, then as those bytes |
| ArchiveReader.EncodedFields | main.go:694-762 | the slices both loops take of a written record are its path length, path, content length and content |
| ArchiveReader.CountEncodedArchive | main.go:693-716 | validating an archive followed by any bytes counts one record per entry, then continues as on those bytes |
| ArchiveReader.ParseEncodedArchive | main.go:732-776 | extracting an archive followed by any bytes reads every entry back in order, then continues as on those bytes |
| ArchiveReader.ExtractAgreesWithValidate | main.go:693-782 | after validation counts n records, extraction reads at most n, and exactly n when it ends without error |
| ArchiveReader.ValidationErrors | main.go:693-720 | validation fails only on a declared length exceeding the remaining bytes, or on a count of zero |
| ArchiveReader.CountErrors | main.go:699-712 | the counting loop fails only on a path or content length exceeding the remaining bytes |
| ArchiveReader.ProcessDecompression | main.go:686-790 | validate, and only on success extract; the outcome is the actions performed and the error or the counts reported |
| ArchiveReader.Decompression | main.go:686-790 | nothing is created unless validation succeeds, and a successful extraction counts each entry as a file or a directory |
| ArchiveReader.DecompressEncodedArchive | main.go:686-790 | the archive of n encodable entries validates to n and is extracted whole, in order, with n entries processed |
| ArchiveReader.NoCountMismatch | main.go:780-782 | when extraction succeeds it processes exactly the counted records, so the warning cannot fire |
| ArchiveReader.NoEmptyFileWritten | main.go:750-772 | no file is ever written with empty content |
| ArchiveReader.EmptyContentComesBackAsDirectory | main.go:750-755 | an entry without content, empty files included, is recreated as a directory and no empty file is written |
| ArchiveReader.DanglingTail | main.go:700-748 | any tail holding a path length, the whole non-empty remainder of the path and fewer than four bytes more ends validation quietly and is a missing-content-length error in extraction |
| ArchiveReader.DanglingRecordFailsOnlyInExtraction | main.go:700-748 | an archive followed by any such dangling tail validates, and extraction recreates every entry before failing on the tail's path |
| ArchiveWriter.KeptMembers | main.go:265-272 | exactly the walked objects other than the output archive are written |
| ArchiveWriter.Kept | main.go:265-272 | the objects written are no more than those walked, and none is the output archive |
| ArchiveWriter.ArchiveOf | main.go:265-281 | the archive is empty exactly when no walked object is written |
| ArchiveWriter.KeptAppend | main.go:312-354 | skipping keeps walk order across consecutive walks |
| ArchiveWriter.KeptAll | main.go:269-272 | a walk that does not meet the output archive is written whole |
| ArchiveWriter.ArchiveOfStep | main.go:265-281 | each walked object appends its record, or nothing when it is the output archive |
| ArchiveWriter.CountWalk | main.go:250-260 | the counting walk counts the objects that are not the output archive |
| ArchiveWriter.EmitWalk | main.go:265-281 | the writing walk appends one record per walked object except the output archive, in walk order |
| ArchiveWriter.EmitItem | main.go:269-277 | a walked object appends its record unless it is the output archive |
| ArchiveWriter.CompressToFile | main.go:239-282 | the archive is the records of the kept objects in walk order, and `totalEntries` is their number |
| ArchiveWriter.CompressWithSplit | main.go:360-407 | the parts are the split of that same archive, and `totalEntries` is the number of records in it |
| ArchiveWriter.CountSources | main.go:295-307 | the counting loop counts the objects its Lstat walks visit, over all sources, other than the output archive, a dangling symbolic link source included |
| ArchiveWriter.SourceWalk | main.go:296-353 | a file source is visited as itself and a directory by its walk in both loops; a source `os.Stat` cannot open contributes nothing to the writing loop |
| ArchiveWriter.MultiCounted | main.go:295-307 | the objects counted are no more than those the Lstat walks visit, and none is the output archive |
| ArchiveWriter.MultiKept | main.go:312-354 | the objects written are no more than those the writing loop walks, and none is the output archive |
| ArchiveWriter.MultiArchiveOf | main.go:312-354 | the archive is empty exactly when no object is written |
| ArchiveWriter.CountedCoversKept | main.go:295-323 | the count is never below the records written, and equals them when the Lstat walk visits nothing of the sources os.Stat cannot open |
| ArchiveWriter.DanglingSourceOvercounts | main.go:295-323 | a file and a dangling symbolic link as sources are counted as two entries, and one record is written |
| ArchiveWriter.EmitSources | main.go:312-354 | corrected: the writing loop appends the records of all sources' objects except the output archive, in order |
| ArchiveWriter.EmitSource | main.go:319-353 | corrected: one source appends nothing when inaccessible, its walk for a directory, its own record for a file unless it is the output archive |
| ArchiveWriter.SingleItemArchive | main.go:347-353 | a file source is its own record, or nothing when it is the output archive |
| ArchiveWriter.CompressMultipleToFile | main.go:285-357 | corrected: the archive holds every accessible source's objects except the output archive, and the count is that of the Lstat walks |
| ArchiveWriter.CompressMultipleWithSplit | main.go:410-479 | corrected: the parts are the split of that archive, and the count is that of the Lstat walks |
| ArchiveWriter.MultiKeptMembers | main.go:294-307 | the output archive is never among the objects counted and written, and every other walked object is |
| ArchiveWriter.FileSourceSelfInclusion | main.go:347-353 | as written: naming the output archive as a file source writes it into itself, one record more than counted |
| ArchiveWriter.AsWrittenItems | main.go:312-354 | as written: leaving out the output archive, the loop writes exactly what the corrected loop writes |
| Chin.Compress | main.go:182-213 | the archive is named after the source, the output archive is skipped by its absolute name, and the archive is written whole or in parts |
| Chin.AbsPath | main.go:245 | `filepath.Abs` keeps an absolute name, joins a relative one to the working directory, and the result ends with the name |
| Chin.RootArchiveSkipped | main.go:245-272 | compressing `/` writes `/.chin`, whose absolute name is itself, so the walk skips it |
| Chin.Compression | main.go:205-212 | the files written hold the archive of the kept objects, in order: one file named after the source, or parts named `<stem>-<i>.chin` |
| Chin.WrittenData | main.go:205-212 | a whole archive is one file with the output name, and a split one is its parts in order, named by part number |
| Chin.CompressMultiple | main.go:216-236 | corrected: the archive is named `<first source without extension>-all.chin` and written whole or in parts by the corrected writers; the as-written self-record is ArchiveWriter.FileSourceSelfInclusion |
| Chin.MultiCompression | main.go:227-235 | corrected: the files written hold the archive of all sources' kept objects, one file named `-all.chin` or its numbered parts |
| Chin.Decompress | main.go:556-565 | a split-looking name is joined from its parts before processing; any other name is processed as it is |
| Chin.Decompression | main.go:556-565 | only a split-looking name can fail to join, and it is rejected as an invalid format exactly when it does not parse |
| Chin.PartOfPartName | main.go:600-606 | a file named as part i of an archive is found as part i with its content |
| Chin.CollectNamedParts | main.go:595-610 | the joiner finds every part the splitter wrote, with its number |
| Chin.CollectOthers | main.go:600-610 | files whose names do not match the part pattern contribute no part |
| Chin.FoundSplitParts | main.go:595-610 | the parts found are the parts written, numbered, whatever the directory order and the unrelated files beside them |
| Chin.NumberedPartsPass | main.go:616-679 | parts numbered 1..k found in any order sort into number order, pass the gap check and join their contents in order |
| Chin.SplitJoinRoundTrip | main.go:578-684 | joining the parts the splitter wrote, named by any part, gives back the archive |
| Chin.CompressDecompressRoundTrip | main.go:556-565 | decompressing what compress wrote, whole or split, recreates every kept object in walk order, with the count announced |
| Chin.SplitLookingArchiveName | main.go:191-195 | as written: a file named `<stem>-<digits>.<ext>` is archived under the name of part `<digits>` of `<stem>.chin`, which `decompress` detects as split |
| Chin.FileArchiveName | main.go:194 | a plain file name with an extension is archived under its stem |
| Chin.SplitLookingArchiveFails | main.go:556-565 | as written: such an archive alone in its directory is never read; decompress reports parts 1..k-1 missing |
| Chin.LonePartGap | main.go:629-637 | a lone part numbered k >= 2 leaves parts 1..k-1 missing |
| Chin.CollectedOfSingleFile | main.go:601-610 | a directory of one file yields at most one part, with that file's content |
| Chin.JoinOfSingleFile | main.go:578-679 | a directory of one file can only join to that file's content |
| Chin.DotfileSplitPartsRejected | main.go:556-588 | as written: the parts of a split archive of `.profile` are taken for part names but rejected as an invalid split format |
| Chin.DecompressionWithFallback | main.go:556-565 | corrected: it agrees with decompress except where decompress reports a join error for a file that is itself a valid archive, which it reads instead |
| Chin.DecompressWithFallback | main.go:556-565 | corrected: the method computes that corrected decompression |
| Chin.LoneArchiveIsRead | main.go:556-565 | corrected: a valid archive alone in its directory is read whatever its name |
| Chin.CompressDecompressWholeRoundTrip | main.go:182-213 | corrected: an unsplit archive alone in its directory decompresses to every kept object, whatever name compress gave it |

## Left out

- Terminal output: colours, the `log*` helpers and `printUsage` (main.go:20-75). They only write to the terminal.
- `formatFileSize` and `formatDuration`: floating-point and time formatting for display.
- Argument parsing and timing in `main` (main.go:97-179). The commands take their inputs as parameters.
- The progress bar: an external library with an observational role only.
- CountSources: a source that is a symbolic link to a directory is counted once by the Lstat walk. The writing loop then walks it and `os.ReadFile` fails on the directory, which aborts the command. That abort is not modelled.
- Host filesystem calls. `os.Stat`, `filepath.Walk`, `os.ReadDir`, `os.ReadFile` and `os.Open` are replaced by inputs: the walk, the sources as `os.Stat` sees them, the directory listing with contents, and the file's content. `os.Create`, `os.WriteFile` and `os.MkdirAll` are replaced by outputs: the written files and the extraction actions. None of these is assumed to fail. Their errors, and the aborts they cause, are not modelled.
- `writeEntry`'s dispatch on the writer's type, its ignored write errors, and its `os.ReadFile` error (main.go:486-488, 494-497, 502-504). The model has one infallible append.
- The part liveness probe (main.go:642-661): it only opens and reads 10 bytes of each part.
- `filepath.Clean` (main.go:183) and `filepath.Rel`. The source path is taken as clean, and each walked object carries its relative path.
- `filepath.Abs` of the output name keeps an absolute name and otherwise joins the working directory and the name (`Chin.AbsPath`). The output name is always a single element, `/.chin` or `/-all.chin`, so the cleaning `filepath.Abs` does changes nothing. Walked objects carry their absolute paths.
- In-place sorting: `sort.Slice` on `partFiles` and `sort.Ints` on `partNumbers` are modelled on values.
- The `sort.Slice` comparator re-parses each number from the full path. It gets the same number as the collection loop, so it is not modelled separately.
- SplitJoiner.SortByNumber: `sort.Slice` is not stable, and the model uses a stable insertion sort. The order of parts with equal numbers may differ in Go. Equal numbers only come from names such as `x-1.chin` and `x-01.chin`, and such a pair passes the gap check.
- SplitJoiner.PartOf: part numbers above 2^63 - 1 are skipped, as `strconv.Atoi` rejects them on a 64-bit platform. On a 32-bit platform the bound would be 2^31 - 1.
- Splitter.PartSize: `maxSizeMB * 1024 * 1024` is computed without Go's 64-bit `int` overflow. Sizes of 2^43 MiB and above are not modelled.
- Bytes.Uint32: content longer than 2^32 - 1 bytes wraps in the length field. The round-trip lemmas assume it does not (`EntryCodec.Encodable`).
- ArchiveReader.ExtractPass: the actions are not applied to a real filesystem. What happens to a path with `..` or an absolute path, or to a file that already exists, is outside the model.
- Writing the archive while it is read: the content of the archive seen as a file source (`ArchiveWriter.FileSourceSelfInclusion`) is an input, not the bytes written so far.

## Findings

| source | as written | input that shows it | evidently intended | confidence | as-written member | corrected member |
|---|---|---|---|---|---|---|
| main.go:347-353 | the file-source branch of the multi-source writing loop writes the source without comparing it with the output archive. The counting loop (main.go:296-307) and the directory branch do skip it. | `chin a.txt a-all.chin`: `a-all.chin` is created first, then stored inside itself, and one record more is written than the count announced | the output archive is skipped for file sources too, as everywhere else | high (by reading, not executed) | ArchiveWriter.FileSourceSelfInclusion | ArchiveWriter.EmitSources |
| main.go:194, main.go:558 | a file whose stem ends in `-<digits>` is archived under a name matching `-\d+\.chin$`, and `decompress` then treats the unsplit archive as a part | `report-2023.pdf` is compressed to `report-2023.chin`; decompressing it alone fails with parts 1..2022 missing | an archive written whole can be decompressed: when no split archive can be joined, a file that is itself a valid archive is read as one | medium (by reading, not executed) | Chin.SplitLookingArchiveFails | Chin.DecompressionWithFallback |
