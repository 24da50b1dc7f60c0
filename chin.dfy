/** The commands: compress one source or several into a ".chin" archive, optionally
    split into parts, and decompress an archive or a split archive. The working
    directory, what os.Stat and filepath.Walk report, and the files that exist are
    inputs. */
module Chin {

  import opened Wrappers
  import opened Bytes
  import opened EntryCodec
  import opened Naming
  import opened Splitter
  import opened ArchiveWriter
  import opened ArchiveReader
  import opened SplitJoiner

  /** filepath.Abs of a name in the working directory cwd: an absolute name is kept as
      it is, a relative one is joined to cwd. */
  function AbsPath(cwd: string, name: string): (r: string)
    ensures HasSuffix(r, name)
    ensures (cwd != [] && cwd[0] == '/') || (name != [] && name[0] == '/') ==> r != [] && r[0] == '/'
  {
    if name != [] && name[0] == '/' then name
    else
      var dir := if cwd == "/" then "/" else cwd + "/";
      assert (dir + name)[|dir + name| - |name|..] == name;
      dir + name
  }

  /** The bytes of the files written, one file for a whole archive and each part in
      order for a split one. */
  lemma {:induction false} WrittenData(archive: seq<Byte>, outFile: string, maxSizeMB: int)
    ensures var written := if maxSizeMB > 0 then SplitParts(archive, outFile, maxSizeMB) else [WrittenFile(outFile, archive)];
      Concat(PartData(written)) == archive &&
      (maxSizeMB <= 0 ==> |written| == 1 && written[0].name == outFile) &&
      (maxSizeMB > 0 ==> forall i :: 0 <= i < |written| ==> written[i].name == PartName(outFile, i + 1))
  {
    if maxSizeMB > 0 {
      SplitPartsJoin(archive, outFile, maxSizeMB);
    } else {
      var written := [WrittenFile(outFile, archive)];
      assert PartData(written) == [archive];
      assert Concat([archive]) == Concat([]) + archive;
    }
  }

  /** The files compress would write for a source, as a function of its inputs. */
  function Compression(src: string, isDir: bool, walk: seq<WalkItem>, cwd: string, maxSizeMB: int): (r: seq<WrittenFile>)
    ensures Concat(PartData(r)) == ArchiveOf(walk, AbsPath(cwd, ArchiveName(src, isDir)))
    ensures maxSizeMB <= 0 ==> |r| == 1 && r[0].name == ArchiveName(src, isDir)
    ensures maxSizeMB > 0 ==> forall i :: 0 <= i < |r| ==> r[i].name == PartName(ArchiveName(src, isDir), i + 1)
  {
    var outFile := ArchiveName(src, isDir);
    var archive := ArchiveOf(walk, AbsPath(cwd, outFile));
    WrittenData(archive, outFile, maxSizeMB);
    if maxSizeMB > 0 then SplitParts(archive, outFile, maxSizeMB) else [WrittenFile(outFile, archive)]
  }

  /** compress: names the archive after the source and writes it whole or in parts. */
  method Compress(src: string, isDir: bool, walk: seq<WalkItem>, cwd: string, maxSizeMB: int)
    returns (outFile: string, written: seq<WrittenFile>, totalEntries: nat)
    ensures outFile == ArchiveName(src, isDir)
    ensures written == Compression(src, isDir, walk, cwd, maxSizeMB)
    ensures totalEntries == |Kept(walk, AbsPath(cwd, outFile))|
  {
    if isDir {
      outFile := Base(src) + SUFFIX;
    } else {
      outFile := TrimSuffix(Base(src), Ext(Base(src))) + SUFFIX;
    }
    var absOutFile := AbsPath(cwd, outFile);
    if maxSizeMB > 0 {
      written, totalEntries := CompressWithSplit(walk, outFile, absOutFile, maxSizeMB);
    } else {
      var archive;
      archive, totalEntries := CompressToFile(walk, absOutFile);
      written := [WrittenFile(outFile, archive)];
    }
  }

  function MultiCompression(sources: seq<string>, stats: seq<Source>, cwd: string, maxSizeMB: int): (r: seq<WrittenFile>)
    requires |sources| > 0
    ensures Concat(PartData(r)) == MultiArchiveOf(stats, AbsPath(cwd, MultiArchiveName(sources)))
    ensures maxSizeMB <= 0 ==> |r| == 1 && r[0].name == MultiArchiveName(sources)
    ensures maxSizeMB > 0 ==> forall i :: 0 <= i < |r| ==> r[i].name == PartName(MultiArchiveName(sources), i + 1)
  {
    var outFile := MultiArchiveName(sources);
    var archive := MultiArchiveOf(stats, AbsPath(cwd, outFile));
    WrittenData(archive, outFile, maxSizeMB);
    if maxSizeMB > 0 then SplitParts(archive, outFile, maxSizeMB) else [WrittenFile(outFile, archive)]
  }

  /** compressMultiple: sources are the command-line paths, stats what os.Stat and
      filepath.Walk report for each of them. It writes through the corrected writers,
      which skip the output archive among file sources too. */
  method CompressMultiple(sources: seq<string>, stats: seq<Source>, cwd: string, maxSizeMB: int)
    returns (outFile: string, written: seq<WrittenFile>, totalEntries: nat)
    requires |sources| > 0
    ensures outFile == MultiArchiveName(sources)
    ensures written == MultiCompression(sources, stats, cwd, maxSizeMB)
    ensures totalEntries == |MultiCounted(stats, AbsPath(cwd, outFile))|
  {
    var firstItem := Base(sources[0]);
    if '.' in firstItem {
      firstItem := TrimSuffix(firstItem, Ext(firstItem));
    }
    outFile := firstItem + ("-all" + SUFFIX);
    assert outFile == MultiArchiveName(sources);
    var absOutFile := AbsPath(cwd, outFile);
    if maxSizeMB > 0 {
      written, totalEntries := CompressMultipleWithSplit(stats, outFile, absOutFile, maxSizeMB);
    } else {
      var archive;
      archive, totalEntries := CompressMultipleToFile(stats, absOutFile);
      written := [WrittenFile(outFile, archive)];
    }
  }

  /** Compressing the root directory names the archive "/.chin", which filepath.Abs keeps
      as it is, so the walk skips the archive wherever the command runs. */
  lemma {:induction false} RootArchiveSkipped(cwd: string, walk: seq<WalkItem>)
    ensures ArchiveName("/", true) == "/.chin"
    ensures AbsPath(cwd, ArchiveName("/", true)) == "/.chin"
    ensures forall x :: x in Kept(walk, AbsPath(cwd, ArchiveName("/", true))) <==> x in walk && x.absPath != "/.chin"
  {
    assert StripTrailingSlashes("/") == [];
    KeptMembers(walk, "/.chin");
  }

  /** What decompress ends with: a split archive that could not be joined, or the
      outcome of processDecompression. */
  datatype Decompressed = JoinFailed(error: JoinError) | Processed(outcome: Outcome)

  /** decompress on src, given the content of src and the files of its directory. */
  function Decompression(src: string, content: seq<Byte>, files: seq<WrittenFile>): (r: Decompressed)
    ensures r.JoinFailed? ==> IsSplitName(src)
    ensures r == JoinFailed(InvalidSplitFormat) <==> IsSplitName(src) && ParseSplitName(src).None?
  {
    if IsSplitName(src) then
      match SplitJoin(src, files)
      case Failure(e) => JoinFailed(e)
      case Success(data) => Processed(ArchiveReader.Decompression(data))
    else Processed(ArchiveReader.Decompression(content))
  }

  /** decompress: a name ending in "-<digits>.chin" is taken for a part of a split
      archive; anything else is read as a whole archive. */
  method Decompress(src: string, content: seq<Byte>, files: seq<WrittenFile>) returns (r: Decompressed)
    ensures r == Decompression(src, content, files)
  {
    if IsSplitName(src) {
      var joined := DecompressSplit(src, files);
      if joined.Failure? {
        return JoinFailed(joined.error);
      }
      var o := ProcessDecompression(joined.value);
      return Processed(o);
    }
    var o := ProcessDecompression(content);
    return Processed(o);
  }

  /* ------------------------------------------------------------------ round trips */

  /** The parts in number order, as the joiner numbers them. */
  function NumberedParts(parts: seq<WrittenFile>): (c: seq<Part>)
    ensures |c| == |parts| && forall i :: 0 <= i < |parts| ==> c[i] == Part(i + 1, parts[i].data)
  {
    seq(|parts|, i requires 0 <= i < |parts| => Part(i + 1, parts[i].data))
  }

  /** A file named as part i of an archive is recognised as part i. */
  lemma {:induction false} PartOfPartName(outFile: string, i: nat, data: seq<Byte>)
    requires TrimSuffix(outFile, SUFFIX) != [] && '\n' !in TrimSuffix(outFile, SUFFIX)
    requires i <= MAX_INT
    ensures PartOf(WrittenFile(PartName(outFile, i), data), TrimSuffix(outFile, SUFFIX)) == Some(Part(i, data))
  {
    var base, digits := TrimSuffix(outFile, SUFFIX), NatToString(i);
    MatchPartNameIff(PartName(outFile, i), base, digits);
    NatToStringRoundTrip(i);
  }

  /** The joiner recognises every part the splitter wrote, with its number. */
  lemma {:induction false} CollectNamedParts(parts: seq<WrittenFile>, outFile: string)
    requires TrimSuffix(outFile, SUFFIX) != [] && '\n' !in TrimSuffix(outFile, SUFFIX)
    requires |parts| <= MAX_INT
    requires forall i :: 0 <= i < |parts| ==> parts[i].name == PartName(outFile, i + 1)
    ensures Collected(parts, TrimSuffix(outFile, SUFFIX)) == NumberedParts(parts)
  {
    if parts != [] {
      var k := |parts|;
      var init := parts[..k - 1];
      CollectNamedParts(init, outFile);
      CollectedLastPart(parts, outFile);
      NumberedPartsStep(parts);
    }
  }

  lemma {:induction false} CollectedLastPart(parts: seq<WrittenFile>, outFile: string)
    requires TrimSuffix(outFile, SUFFIX) != [] && '\n' !in TrimSuffix(outFile, SUFFIX)
    requires 0 < |parts| <= MAX_INT
    requires parts[|parts| - 1].name == PartName(outFile, |parts|)
    ensures Collected(parts, TrimSuffix(outFile, SUFFIX)) ==
      Collected(parts[..|parts| - 1], TrimSuffix(outFile, SUFFIX)) + [Part(|parts|, parts[|parts| - 1].data)]
  {
    var base, k := TrimSuffix(outFile, SUFFIX), |parts|;
    var last := parts[k - 1];
    assert last == WrittenFile(PartName(outFile, k), last.data);
    PartOfPartName(outFile, k, last.data);
    assert PartList(last, base) == [Part(k, last.data)];
  }

  lemma {:induction false} NumberedPartsStep(parts: seq<WrittenFile>)
    requires parts != []
    ensures NumberedParts(parts) == NumberedParts(parts[..|parts| - 1]) + [Part(|parts|, parts[|parts| - 1].data)]
  {
  }

  lemma {:induction false} CollectOthers(others: seq<WrittenFile>, base: string)
    requires forall i :: 0 <= i < |others| ==> MatchPartName(others[i].name, base).None?
    ensures Collected(others, base) == []
  {
    if others != [] {
      CollectOthers(others[..|others| - 1], base);
    }
  }

  /** The parts the joiner finds are the parts the splitter wrote, numbered, whatever the
      directory order and whatever non-matching files lie beside them. */
  lemma {:induction false} FoundSplitParts(data: seq<Byte>, outFile: string, maxSizeMB: nat,
                                           others: seq<WrittenFile>, files: seq<WrittenFile>)
    requires maxSizeMB > 0
    requires TrimSuffix(outFile, SUFFIX) != [] && '\n' !in TrimSuffix(outFile, SUFFIX)
    requires |SplitParts(data, outFile, maxSizeMB)| <= MAX_INT
    requires forall i :: 0 <= i < |others| ==> MatchPartName(others[i].name, TrimSuffix(outFile, SUFFIX)).None?
    requires multiset(files) == multiset(SplitParts(data, outFile, maxSizeMB) + others)
    ensures multiset(Collected(files, TrimSuffix(outFile, SUFFIX))) ==
      multiset(NumberedParts(SplitParts(data, outFile, maxSizeMB)))
  {
    var base := TrimSuffix(outFile, SUFFIX);
    var parts := SplitParts(data, outFile, maxSizeMB);
    SplitPartsJoin(data, outFile, maxSizeMB);
    CollectNamedParts(parts, outFile);
    CollectOthers(others, base);
    CollectedAppend(parts, others, base);
    assert Collected(parts + others, base) == NumberedParts(parts) + [];
    CollectedPermutation(files, parts + others, base);
  }

  /** Parts found with the numbers 1 to k, in any order, sort into number order, pass
      the gap check and join into the parts' data in order. */
  lemma {:induction false} NumberedPartsPass(found: seq<Part>, parts: seq<WrittenFile>)
    requires |parts| > 0
    requires multiset(found) == multiset(NumberedParts(parts))
    ensures found != []
    ensures SortByNumber(found) == NumberedParts(parts)
    ensures FirstGap(Numbers(SortByNumber(found)), 0) == None
    ensures DataOf(SortByNumber(found)) == PartData(parts)
  {
    assert NumberedParts(parts)[0] in multiset(found);
    SortByNumberSorted(found);
    SortedPartsUnique(SortByNumber(found), NumberedParts(parts));
    NoGapIff(Numbers(NumberedParts(parts)), 0);
    assert DataOf(NumberedParts(parts)) == PartData(parts);
  }

  /** Joining what the splitter wrote gives back the archive, whichever part is named,
      in whatever order the directory lists the files, and whatever other files whose
      names do not match the part pattern lie beside them. */
  lemma {:induction false} SplitJoinRoundTrip(data: seq<Byte>, outFile: string, maxSizeMB: nat,
                                               others: seq<WrittenFile>, files: seq<WrittenFile>, n: nat)
    requires maxSizeMB > 0 && |data| > 0
    requires TrimSuffix(outFile, SUFFIX) != [] && '/' !in TrimSuffix(outFile, SUFFIX)
    requires '\n' !in TrimSuffix(outFile, SUFFIX)
    requires |SplitParts(data, outFile, maxSizeMB)| <= MAX_INT
    requires forall i :: 0 <= i < |others| ==> MatchPartName(others[i].name, TrimSuffix(outFile, SUFFIX)).None?
    requires multiset(files) == multiset(SplitParts(data, outFile, maxSizeMB) + others)
    ensures SplitJoin(PartName(outFile, n), files) == Success(data)
  {
    var base := TrimSuffix(outFile, SUFFIX);
    var parts := SplitParts(data, outFile, maxSizeMB);
    PartNameRoundTrip(outFile, n);
    BaseOfPlainName(base);
    FoundSplitParts(data, outFile, maxSizeMB, others, files);
    PartCountBounds(|data|, PartSize(maxSizeMB));
    NumberedPartsPass(Collected(files, base), parts);
    SplitPartsJoin(data, outFile, maxSizeMB);
  }

  /** Compressing a source and decompressing the result, whole or split, recreates every
      walked object except the output archive, in walk order, with the announced number
      of entries: directories and empty files as directories, other files with their
      content. A whole archive must not itself look like a part name, and a split
      archive needs a non-empty base name without '/' or '\n': the parts of the root
      directory's archive are named `/-<i>.chin`, which no name os.ReadDir("/") returns
      can match, and `.` in the split-name pattern stops at a newline, so a base holding
      one is parsed as the text after it. */
  lemma {:induction false} CompressDecompressRoundTrip(src: string, isDir: bool, walk: seq<WalkItem>, cwd: string,
                                                       maxSizeMB: int, others: seq<WrittenFile>,
                                                       files: seq<WrittenFile>, n: nat)
    requires var outFile := ArchiveName(src, isDir);
      var kept := Kept(walk, AbsPath(cwd, outFile));
      var base := TrimSuffix(outFile, SUFFIX);
      |kept| > 0 && AllEncodable(EntriesOf(kept)) &&
      (maxSizeMB <= 0 ==> !IsSplitName(outFile)) &&
      (maxSizeMB > 0 ==>
        base != [] && '/' !in base && '\n' !in base &&
        |Compression(src, isDir, walk, cwd, maxSizeMB)| <= MAX_INT &&
        (forall i :: 0 <= i < |others| ==> MatchPartName(others[i].name, base).None?) &&
        multiset(files) == multiset(Compression(src, isDir, walk, cwd, maxSizeMB) + others))
    ensures var outFile := ArchiveName(src, isDir);
      var written := Compression(src, isDir, walk, cwd, maxSizeMB);
      var kept := Kept(walk, AbsPath(cwd, outFile));
      var rs := RecordsOf(EntriesOf(kept));
      var expected := Processed(Outcome(ActionsOf(rs), Success(Summary(FileCount(rs), DirCount(rs), |kept|, |kept|))));
      (maxSizeMB > 0 ==> Decompression(PartName(outFile, n), [], files) == expected) &&
      (maxSizeMB <= 0 ==> |written| == 1 && written[0].name == outFile &&
                          Decompression(outFile, written[0].data, files) == expected)
  {
    var outFile := ArchiveName(src, isDir);
    var archive := ArchiveOf(walk, AbsPath(cwd, outFile));
    var kept := Kept(walk, AbsPath(cwd, outFile));
    ArchiveReader.DecompressEncodedArchive(EntriesOf(kept));
    if maxSizeMB > 0 {
      assert |archive| > 0 by {
        assert EncodeArchive(EntriesOf(kept)) == EncodeEntry(EntriesOf(kept)[0]) + EncodeArchive(EntriesOf(kept)[1..]);
      }
      SplitJoinRoundTrip(archive, outFile, maxSizeMB, others, files, n);
      PartNameRoundTrip(outFile, n);
    }
  }

  /* ------------------------------------------------------- split-looking archive names */

  /** A file whose stem ends in "-<digits>" gives an archive name that has the shape of a
      part name: compress turns "report-2023.pdf" into "report-2023.chin", which is how
      part 2023 of "report.chin" is named, and decompress takes it for one. */
  lemma {:induction false} SplitLookingArchiveName(stem: string, k: nat, ext: string)
    requires stem != [] && '/' !in stem && '\n' !in stem
    requires ext != [] && ext[0] == '.'
    requires forall i :: 1 <= i < |ext| ==> ext[i] != '.' && ext[i] != '/'
    ensures ArchiveName(stem + "-" + NatToString(k) + ext, false) == PartName(stem + SUFFIX, k)
    ensures IsSplitName(ArchiveName(stem + "-" + NatToString(k) + ext, false))
  {
    var digits := NatToString(k);
    assert '/' !in digits by {
      forall i | 0 <= i < |digits| ensures digits[i] != '/' {
        assert IsDigit(digits[i]);
      }
    }
    assert '/' !in stem + "-" + digits;
    FileArchiveName(stem + "-" + digits, ext);
    assert stem + "-" + digits + ext == (stem + "-" + digits) + ext;
    TrimStem(stem);
    PartNameRoundTrip(stem + SUFFIX, k);
  }

  /** A plain file name with an extension is archived under its stem. */
  lemma {:induction false} FileArchiveName(stem: string, ext: string)
    requires stem != [] && '/' !in stem
    requires ext != [] && ext[0] == '.'
    requires forall i :: 1 <= i < |ext| ==> ext[i] != '.' && ext[i] != '/'
    ensures ArchiveName(stem + ext, false) == stem + SUFFIX
  {
    var src := stem + ext;
    assert '/' !in src by {
      forall i | 0 <= i < |src| ensures src[i] != '/' {
        if i < |stem| { assert src[i] == stem[i]; } else { assert src[i] == ext[i - |stem|]; }
      }
    }
    BaseOfPlainName(src);
    ExtOfSuffix(stem, ext);
    assert src[|src| - |ext|..] == ext;
    assert src[..|src| - |ext|] == stem;
  }

  /** A file whose whole name is an extension, such as ".profile", is archived as
      ".chin"; split, its parts are "-1.chin", "-2.chin", ..., which decompress takes for
      part names but cannot parse, since the base-name group of the pattern needs at
      least one character. */
  lemma {:induction false} DotfileSplitPartsRejected(name: string, i: nat, files: seq<WrittenFile>)
    requires name != [] && name[0] == '.'
    requires forall j :: 1 <= j < |name| ==> name[j] != '.' && name[j] != '/'
    ensures ArchiveName(name, false) == SUFFIX
    ensures IsSplitName(PartName(SUFFIX, i))
    ensures Decompression(PartName(SUFFIX, i), [], files) == JoinFailed(InvalidSplitFormat)
  {
    DotfileArchiveName(name);
    EmptyBasePartName(i);
  }

  /** The archive name of a stem, with ".chin" taken off again, is the stem. */
  lemma {:induction false} TrimStem(stem: string)
    ensures TrimSuffix(stem + SUFFIX, SUFFIX) == stem
  {
    assert (stem + SUFFIX)[|stem|..] == SUFFIX;
    assert (stem + SUFFIX)[..|stem|] == stem;
  }

  /** As written: an unsplit archive whose name looks like part k >= 2, alone in its
      directory, is not read at all; decompress reports parts 1 to k - 1 as missing. */
  lemma {:induction false} SplitLookingArchiveFails(stem: string, k: nat, content: seq<Byte>)
    requires stem != [] && '/' !in stem && '\n' !in stem
    requires 2 <= k <= MAX_INT
    ensures var name := PartName(stem + SUFFIX, k);
      Decompression(name, content, [WrittenFile(name, content)]) == JoinFailed(MissingParts(stem, MissingRange(1, k)))
  {
    var outFile := stem + SUFFIX;
    TrimStem(stem);
    var name := PartName(outFile, k);
    var f := WrittenFile(name, content);
    PartNameRoundTrip(outFile, k);
    BaseOfPlainName(stem);
    PartOfPartName(outFile, k, content);
    CollectedOfSingleFile(f, stem);
    assert Collected([f], stem) == [Part(k, content)];
    LonePartGap(k, content);
  }

  /** A lone part numbered k >= 2 leaves parts 1 to k - 1 missing. */
  lemma LonePartGap(k: nat, content: seq<Byte>)
    requires k >= 2
    ensures FirstGap(Numbers(SortByNumber([Part(k, content)])), 0) == Some(MissingRange(1, k))
  {
    var found := [Part(k, content)];
    var sorted := SortByNumber(found);
    assert sorted[0] in multiset(found);
    assert sorted == found;
    assert Numbers(sorted) == [k];
  }

  /** The parts found in a directory holding the single file f carry f's content. */
  lemma {:induction false} CollectedOfSingleFile(f: WrittenFile, base: string)
    ensures Collected([f], base) == PartList(f, base)
    ensures |Collected([f], base)| <= 1
    ensures forall i :: 0 <= i < |Collected([f], base)| ==> Collected([f], base)[i].data == f.data
  {
    assert [f][..0] == [];
    assert Collected([f], base) == [] + PartList(f, base);
  }

  /** A directory holding the single file f yields at most f's own content from the join. */
  lemma {:induction false} JoinOfSingleFile(src: string, f: WrittenFile)
    ensures SplitJoin(src, [f]).Success? ==> SplitJoin(src, [f]).value == f.data
  {
    match ParseSplitName(src)
    case None =>
    case Some(names) =>
      var found := Collected([f], Base(names.0));
      CollectedOfSingleFile(f, Base(names.0));
      if found != [] {
        var sorted := SortByNumber(found);
        assert sorted[0] in multiset(found);
        var datas := DataOf(sorted);
        assert datas == [f.data];
        assert Concat(datas) == Concat(datas[..0]) + f.data;
        assert datas[..0] == [];
      }
  }

  /** decompress with split-looking names resolved: when a name looks like a part but no
      archive can be joined from the parts, a file that passes validation on its own is
      read as a whole archive; only otherwise is the join error reported. It differs
      from decompress only where decompress reports a join error for a file that is
      itself a valid archive. */
  function DecompressionWithFallback(src: string, content: seq<Byte>, files: seq<WrittenFile>): (r: Decompressed)
    ensures Decompression(src, content, files).Processed? ==> r == Decompression(src, content, files)
    ensures r.JoinFailed? <==> Decompression(src, content, files).JoinFailed? && Validation(content).Failure?
    ensures r.JoinFailed? ==> r == Decompression(src, content, files)
    ensures r != Decompression(src, content, files) ==> r == Processed(ArchiveReader.Decompression(content))
  {
    if IsSplitName(src) then
      match SplitJoin(src, files)
      case Success(data) => Processed(ArchiveReader.Decompression(data))
      case Failure(e) =>
        if Validation(content).Success? then Processed(ArchiveReader.Decompression(content)) else JoinFailed(e)
    else Processed(ArchiveReader.Decompression(content))
  }

  /** The corrected decompress. */
  method DecompressWithFallback(src: string, content: seq<Byte>, files: seq<WrittenFile>) returns (r: Decompressed)
    ensures r == DecompressionWithFallback(src, content, files)
  {
    if IsSplitName(src) {
      var joined := DecompressSplit(src, files);
      if joined.Success? {
        var o := ProcessDecompression(joined.value);
        return Processed(o);
      }
      var counted := ValidatePass(content);
      if counted.Failure? {
        return JoinFailed(joined.error);
      }
    }
    var o := ProcessDecompression(content);
    return Processed(o);
  }

  /** Corrected: an archive alone in its directory is read as the archive it is,
      whatever its name. */
  lemma {:induction false} LoneArchiveIsRead(name: string, content: seq<Byte>)
    requires Validation(content).Success?
    ensures DecompressionWithFallback(name, content, [WrittenFile(name, content)]) ==
      Processed(ArchiveReader.Decompression(content))
  {
    JoinOfSingleFile(name, WrittenFile(name, content));
  }

  /** Corrected round trip for an unsplit archive: compressing a source and decompressing
      the archive, alone in its directory, recreates every walked object except the
      archive, whatever name compress chose. */
  lemma {:induction false} CompressDecompressWholeRoundTrip(src: string, isDir: bool, walk: seq<WalkItem>, cwd: string,
                                                            maxSizeMB: int)
    requires maxSizeMB <= 0
    requires var kept := Kept(walk, AbsPath(cwd, ArchiveName(src, isDir)));
      |kept| > 0 && AllEncodable(EntriesOf(kept))
    ensures var outFile := ArchiveName(src, isDir);
      var written := Compression(src, isDir, walk, cwd, maxSizeMB);
      var kept := Kept(walk, AbsPath(cwd, outFile));
      var rs := RecordsOf(EntriesOf(kept));
      written == [WrittenFile(outFile, written[0].data)] &&
      DecompressionWithFallback(outFile, written[0].data, written) ==
        Processed(Outcome(ActionsOf(rs), Success(Summary(FileCount(rs), DirCount(rs), |kept|, |kept|))))
  {
    var outFile := ArchiveName(src, isDir);
    var kept := Kept(walk, AbsPath(cwd, outFile));
    var archive := ArchiveOf(walk, AbsPath(cwd, outFile));
    var written := Compression(src, isDir, walk, cwd, maxSizeMB);
    assert written == [WrittenFile(outFile, archive)];
    ArchiveReader.DecompressEncodedArchive(EntriesOf(kept));
    LoneArchiveIsRead(outFile, archive);
  }
}
