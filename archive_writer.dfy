/** The writers: compressToFile, compressWithSplit, compressMultipleToFile and
    compressMultipleWithSplit. Each walks its sources twice, once to count the entries
    and once to append a record per walked object, skipping the output archive itself.
    The filesystem walk is an input: the objects filepath.Walk visits, in its order. */
module ArchiveWriter {

  import opened Bytes
  import opened EntryCodec
  import opened Naming
  import opened Splitter

  /** One object visited by the walk: its path relative to the walk's base (as bytes),
      its absolute path, whether it is a directory, and the bytes os.ReadFile returns
      for it (unused for a directory). */
  datatype WalkItem = WalkItem(relPath: seq<Byte>, absPath: string, isDir: bool, content: seq<Byte>)

  function EntryOf(item: WalkItem): Entry
  {
    Entry(item.relPath, item.isDir, item.content)
  }

  function EntriesOf(items: seq<WalkItem>): (es: seq<Entry>)
    ensures |es| == |items| && forall i :: 0 <= i < |items| ==> es[i] == EntryOf(items[i])
  {
    seq(|items|, i requires 0 <= i < |items| => EntryOf(items[i]))
  }

  /** The walked objects that are not the output archive, in walk order. */
  function Kept(walk: seq<WalkItem>, absOutFile: string): (r: seq<WalkItem>)
    ensures |r| <= |walk|
    ensures forall i :: 0 <= i < |r| ==> r[i].absPath != absOutFile
  {
    if walk == [] then []
    else
      var last := walk[|walk| - 1];
      Kept(walk[..|walk| - 1], absOutFile) + if last.absPath == absOutFile then [] else [last]
  }

  /** The archive written for a walk. */
  function ArchiveOf(walk: seq<WalkItem>, absOutFile: string): (r: seq<Byte>)
    ensures r == [] <==> Kept(walk, absOutFile) == []
  {
    EncodeArchive(EntriesOf(Kept(walk, absOutFile)))
  }

  /** The skip test keeps exactly the objects other than the output archive. */
  lemma {:induction false} KeptMembers(walk: seq<WalkItem>, absOutFile: string)
    ensures forall x :: x in Kept(walk, absOutFile) <==> x in walk && x.absPath != absOutFile
  {
    if walk != [] {
      var init := walk[..|walk| - 1];
      KeptMembers(init, absOutFile);
      assert walk == init + [walk[|walk| - 1]];
    }
  }

  /** Skipping keeps the walk order: what is kept of a concatenation is what is kept of
      each part, in order. */
  lemma {:induction false} KeptAppend(a: seq<WalkItem>, b: seq<WalkItem>, absOutFile: string)
    ensures Kept(a + b, absOutFile) == Kept(a, absOutFile) + Kept(b, absOutFile)
  {
    if b == [] {
      assert a + b == a;
    } else {
      var init, last := b[..|b| - 1], b[|b| - 1];
      KeptAppend(a, init, absOutFile);
      assert (a + b)[..|a + b| - 1] == a + init && (a + b)[|a + b| - 1] == last;
      AppendAssoc(Kept(a, absOutFile), Kept(init, absOutFile), if last.absPath == absOutFile then [] else [last]);
    }
  }

  /** A walk that does not meet the output archive is written whole. */
  lemma {:induction false} KeptAll(walk: seq<WalkItem>, absOutFile: string)
    requires forall i :: 0 <= i < |walk| ==> walk[i].absPath != absOutFile
    ensures Kept(walk, absOutFile) == walk
  {
    if walk != [] {
      KeptAll(walk[..|walk| - 1], absOutFile);
    }
  }

  lemma {:induction false} KeptStep(walk: seq<WalkItem>, i: nat, absOutFile: string)
    requires i < |walk|
    ensures Kept(walk[..i + 1], absOutFile) ==
      Kept(walk[..i], absOutFile) + if walk[i].absPath == absOutFile then [] else [walk[i]]
  {
    assert walk[..i + 1][..i] == walk[..i];
  }

  lemma {:induction false} EntriesOfAppend(a: seq<WalkItem>, b: seq<WalkItem>)
    ensures EntriesOf(a + b) == EntriesOf(a) + EntriesOf(b)
  {
  }

  /** The bytes the writing walk appends for one walked object. */
  function ItemRecord(item: WalkItem, absOutFile: string): seq<Byte>
  {
    if item.absPath == absOutFile then [] else EncodeEntry(EntryOf(item))
  }

  lemma {:induction false} ArchiveOfStep(walk: seq<WalkItem>, i: nat, absOutFile: string)
    requires i < |walk|
    ensures ArchiveOf(walk[..i + 1], absOutFile) == ArchiveOf(walk[..i], absOutFile) + ItemRecord(walk[i], absOutFile)
  {
    KeptStep(walk, i, absOutFile);
    var item := walk[i];
    var before := Kept(walk[..i], absOutFile);
    if item.absPath != absOutFile {
      EntriesOfAppend(before, [item]);
      assert EntriesOf([item]) == [EntryOf(item)];
      EncodeArchiveConcat(EntriesOf(before), [EntryOf(item)]);
      EncodeOne(EntryOf(item));
    } else {
      assert Kept(walk[..i + 1], absOutFile) == before;
    }
  }

  /** The counting walk: the number of walked objects that are not the output archive. */
  method CountWalk(walk: seq<WalkItem>, absOutFile: string) returns (totalEntries: nat)
    ensures totalEntries == |Kept(walk, absOutFile)|
  {
    totalEntries := 0;
    for i := 0 to |walk|
      invariant totalEntries == |Kept(walk[..i], absOutFile)|
    {
      KeptStep(walk, i, absOutFile);
      if walk[i].absPath != absOutFile {
        totalEntries := totalEntries + 1;
      }
    }
    assert walk[..|walk|] == walk;
  }

  /** The writing walk: one record per walked object, the output archive skipped. */
  method EmitWalk(sink: ArchiveSink, walk: seq<WalkItem>, absOutFile: string)
    modifies sink
    ensures sink.data == old(sink.data) + ArchiveOf(walk, absOutFile)
  {
    for i := 0 to |walk|
      invariant sink.data == old(sink.data) + ArchiveOf(walk[..i], absOutFile)
    {
      ArchiveOfStep(walk, i, absOutFile);
      EmitItem(sink, walk[i], absOutFile);
      AppendAssoc(old(sink.data), ArchiveOf(walk[..i], absOutFile), ItemRecord(walk[i], absOutFile));
    }
    assert walk[..|walk|] == walk;
  }

  /** One walked object: a record unless it is the output archive. */
  method EmitItem(sink: ArchiveSink, item: WalkItem, absOutFile: string)
    modifies sink
    ensures sink.data == old(sink.data) + ItemRecord(item, absOutFile)
  {
    if item.absPath != absOutFile {
      sink.WriteEntry(item.relPath, item.isDir, item.content);
    }
  }

  /** compressToFile: the archive bytes and the announced entry count, which is the
      number of records in the archive. */
  method CompressToFile(walk: seq<WalkItem>, absOutFile: string) returns (archive: seq<Byte>, totalEntries: nat)
    ensures archive == ArchiveOf(walk, absOutFile)
    ensures totalEntries == |Kept(walk, absOutFile)|
  {
    var f := new ArchiveSink();
    totalEntries := CountWalk(walk, absOutFile);
    EmitWalk(f, walk, absOutFile);
    assert f.data == [] + ArchiveOf(walk, absOutFile);
    archive := f.data;
    assert [] + ArchiveOf(walk, absOutFile) == ArchiveOf(walk, absOutFile);
  }

  /** compressWithSplit: the same archive, built in memory and cut into parts. */
  method CompressWithSplit(walk: seq<WalkItem>, outFile: string, absOutFile: string, maxSizeMB: nat)
    returns (parts: seq<WrittenFile>, totalEntries: nat)
    requires maxSizeMB > 0
    ensures parts == SplitParts(ArchiveOf(walk, absOutFile), outFile, maxSizeMB)
    ensures totalEntries == |Kept(walk, absOutFile)|
  {
    var buf := new ArchiveSink();
    totalEntries := CountWalk(walk, absOutFile);
    EmitWalk(buf, walk, absOutFile);
    assert buf.data == ArchiveOf(walk, absOutFile);
    parts := SplitDataToFiles(buf.data, outFile, maxSizeMB);
  }

  /* ------------------------------------------------------------ many sources */

  /** One command-line source as os.Stat sees it: inaccessible, a regular file, or a
      directory with its walk. An inaccessible source carries what the counting walk
      still visits of it: filepath.Walk starts from os.Lstat, which sees a dangling
      symbolic link where os.Stat fails. */
  datatype Source = Inaccessible(path: string, visited: seq<WalkItem>) | FileSource(item: WalkItem) | DirSource(walk: seq<WalkItem>)

  /** What filepath.Walk visits for a source, in the counting loop (counting) or in the
      writing loop: a file is visited as itself and a directory by its walk; a source
      os.Stat cannot open is skipped by the writing loop before any walk. */
  function SourceWalk(src: Source, counting: bool): (r: seq<WalkItem>)
    ensures src.Inaccessible? && !counting ==> r == []
    ensures src.FileSource? ==> r == [src.item]
    ensures src.DirSource? ==> r == src.walk
  {
    match src
    case Inaccessible(_, visited) => if counting then visited else []
    case FileSource(item) => [item]
    case DirSource(walk) => walk
  }

  /** The walks of all sources, one after the other. */
  function SourcesWalk(sources: seq<Source>, counting: bool): seq<WalkItem>
  {
    if sources == [] then []
    else SourcesWalk(sources[..|sources| - 1], counting) + SourceWalk(sources[|sources| - 1], counting)
  }

  /** The objects the multi-source writers should write: all the sources' walks, the
      output archive skipped wherever it appears. */
  function MultiKept(sources: seq<Source>, absOutFile: string): (r: seq<WalkItem>)
    ensures |r| <= |SourcesWalk(sources, false)|
    ensures forall i :: 0 <= i < |r| ==> r[i].absPath != absOutFile
  {
    Kept(SourcesWalk(sources, false), absOutFile)
  }

  /** The objects the counting loop counts: the same, but over the Lstat walks. */
  function MultiCounted(sources: seq<Source>, absOutFile: string): (r: seq<WalkItem>)
    ensures |r| <= |SourcesWalk(sources, true)|
    ensures forall i :: 0 <= i < |r| ==> r[i].absPath != absOutFile
  {
    Kept(SourcesWalk(sources, true), absOutFile)
  }

  function MultiArchiveOf(sources: seq<Source>, absOutFile: string): (r: seq<Byte>)
    ensures r == [] <==> MultiKept(sources, absOutFile) == []
  {
    EncodeArchive(EntriesOf(MultiKept(sources, absOutFile)))
  }

  lemma {:induction false} MultiKeptStep(sources: seq<Source>, i: nat, absOutFile: string, counting: bool)
    requires i < |sources|
    ensures Kept(SourcesWalk(sources[..i + 1], counting), absOutFile) ==
      Kept(SourcesWalk(sources[..i], counting), absOutFile) + Kept(SourceWalk(sources[i], counting), absOutFile)
  {
    assert sources[..i + 1][..i] == sources[..i];
    KeptAppend(SourcesWalk(sources[..i], counting), SourceWalk(sources[i], counting), absOutFile);
  }

  lemma {:induction false} MultiArchiveStep(sources: seq<Source>, i: nat, absOutFile: string)
    requires i < |sources|
    ensures MultiArchiveOf(sources[..i + 1], absOutFile) ==
      MultiArchiveOf(sources[..i], absOutFile) + ArchiveOf(SourceWalk(sources[i], false), absOutFile)
  {
    MultiKeptStep(sources, i, absOutFile, false);
    var before := MultiKept(sources[..i], absOutFile);
    var added := Kept(SourceWalk(sources[i], false), absOutFile);
    EntriesOfAppend(before, added);
    EncodeArchiveConcat(EntriesOf(before), EntriesOf(added));
  }

  /** The counting loop over all sources. */
  method CountSources(sources: seq<Source>, absOutFile: string) returns (totalEntries: nat)
    ensures totalEntries == |MultiCounted(sources, absOutFile)|
  {
    totalEntries := 0;
    for i := 0 to |sources|
      invariant totalEntries == |MultiCounted(sources[..i], absOutFile)|
    {
      MultiKeptStep(sources, i, absOutFile, true);
      var n := CountWalk(SourceWalk(sources[i], true), absOutFile);
      totalEntries := totalEntries + n;
    }
    assert sources[..|sources|] == sources;
  }

  /** The writing loop over all sources: an inaccessible source is skipped with a
      warning, a directory is walked, and a file is written as one record unless it is
      the output archive. */
  method EmitSources(sink: ArchiveSink, sources: seq<Source>, absOutFile: string)
    modifies sink
    ensures sink.data == old(sink.data) + MultiArchiveOf(sources, absOutFile)
  {
    for i := 0 to |sources|
      invariant sink.data == old(sink.data) + MultiArchiveOf(sources[..i], absOutFile)
    {
      MultiArchiveStep(sources, i, absOutFile);
      EmitSource(sink, sources[i], absOutFile);
      AppendAssoc(old(sink.data), MultiArchiveOf(sources[..i], absOutFile), ArchiveOf(SourceWalk(sources[i], false), absOutFile));
    }
    assert sources[..|sources|] == sources;
  }

  /** One source of the writing loop. */
  method EmitSource(sink: ArchiveSink, src: Source, absOutFile: string)
    modifies sink
    ensures sink.data == old(sink.data) + ArchiveOf(SourceWalk(src, false), absOutFile)
  {
    match src
    case Inaccessible(_, _) =>
    case DirSource(walk) =>
      EmitWalk(sink, walk, absOutFile);
    case FileSource(item) =>
      SingleItemArchive(item, absOutFile);
      EmitItem(sink, item, absOutFile);
  }

  /** A file source is written as its own record unless it is the output archive. */
  lemma {:induction false} SingleItemArchive(item: WalkItem, absOutFile: string)
    ensures ArchiveOf([item], absOutFile) == ItemRecord(item, absOutFile)
  {
    ArchiveOfStep([item], 0, absOutFile);
    assert [item][..1] == [item] && [item][..0] == [];
  }

  /** compressMultipleToFile, with the output archive skipped among file sources too. */
  method CompressMultipleToFile(sources: seq<Source>, absOutFile: string) returns (archive: seq<Byte>, totalEntries: nat)
    ensures archive == MultiArchiveOf(sources, absOutFile)
    ensures totalEntries == |MultiCounted(sources, absOutFile)|
  {
    var f := new ArchiveSink();
    totalEntries := CountSources(sources, absOutFile);
    EmitSources(f, sources, absOutFile);
    archive := f.data;
  }

  /** compressMultipleWithSplit, with the same correction. */
  method CompressMultipleWithSplit(sources: seq<Source>, outFile: string, absOutFile: string, maxSizeMB: nat)
    returns (parts: seq<WrittenFile>, totalEntries: nat)
    requires maxSizeMB > 0
    ensures parts == SplitParts(MultiArchiveOf(sources, absOutFile), outFile, maxSizeMB)
    ensures totalEntries == |MultiCounted(sources, absOutFile)|
  {
    var buf := new ArchiveSink();
    totalEntries := CountSources(sources, absOutFile);
    EmitSources(buf, sources, absOutFile);
    assert buf.data == MultiArchiveOf(sources, absOutFile);
    parts := SplitDataToFiles(buf.data, outFile, maxSizeMB);
  }

  /** The output archive is never among the objects written, and everything else that
      the sources' walks visit is. */
  lemma {:induction false} MultiKeptMembers(sources: seq<Source>, absOutFile: string)
    ensures forall x :: x in MultiKept(sources, absOutFile) <==> x in SourcesWalk(sources, false) && x.absPath != absOutFile
  {
    KeptMembers(SourcesWalk(sources, false), absOutFile);
  }

  /** The count announced is never below the number of records written, and equals it
      when the counting walk visits nothing of the sources os.Stat cannot open. */
  lemma {:induction false} CountedCoversKept(sources: seq<Source>, absOutFile: string)
    ensures |MultiKept(sources, absOutFile)| <= |MultiCounted(sources, absOutFile)|
    ensures (forall i :: 0 <= i < |sources| && sources[i].Inaccessible? ==> Kept(sources[i].visited, absOutFile) == [])
      ==> MultiCounted(sources, absOutFile) == MultiKept(sources, absOutFile)
  {
    if sources != [] {
      var k := |sources| - 1;
      var init, src := sources[..k], sources[k];
      CountedCoversKept(init, absOutFile);
      MultiKeptStep(sources, k, absOutFile, false);
      MultiKeptStep(sources, k, absOutFile, true);
      assert sources[..k + 1] == sources;
    }
  }

  /** A dangling symbolic link among the sources is counted but never written: with a
      file a and such a link, the count announces two entries and the archive holds one. */
  lemma {:induction false} DanglingSourceOvercounts(a: WalkItem, link: WalkItem, absOutFile: string)
    requires a.absPath != absOutFile && link.absPath != absOutFile
    ensures var sources := [FileSource(a), Inaccessible(link.absPath, [link])];
      |MultiCounted(sources, absOutFile)| == 2 && MultiKept(sources, absOutFile) == [a]
  {
    var dangling := Inaccessible(link.absPath, [link]);
    TwoSourcesWalk(FileSource(a), dangling, true);
    TwoSourcesWalk(FileSource(a), dangling, false);
    assert [a] + [link] == [a, link] && [a] + [] == [a];
    KeptAll([a, link], absOutFile);
    KeptAll([a], absOutFile);
  }

  /** Keeping what is already kept changes nothing. */
  lemma {:induction false} KeptKept(walk: seq<WalkItem>, absOutFile: string)
    ensures Kept(Kept(walk, absOutFile), absOutFile) == Kept(walk, absOutFile)
  {
    KeptAll(Kept(walk, absOutFile), absOutFile);
  }

  /* ----------------------------------------------------- the writing loop as written */

  /** The objects the writing loop of compressMultipleToFile and compressMultipleWithSplit
      writes as the source has it: a file source is written without comparing it with
      the output archive. Apart from the output archive, it writes what the corrected
      loop writes. */
  function AsWrittenItems(sources: seq<Source>, absOutFile: string): (r: seq<WalkItem>)
    ensures Kept(r, absOutFile) == MultiKept(sources, absOutFile)
  {
    if sources == [] then []
    else
      var k := |sources| - 1;
      var src := sources[k];
      var init := AsWrittenItems(sources[..k], absOutFile);
      var added := match src
        case FileSource(item) => [item]
        case _ => Kept(SourceWalk(src, false), absOutFile);
      KeptAppend(init, added, absOutFile);
      KeptKept(SourceWalk(src, false), absOutFile);
      MultiKeptStep(sources, k, absOutFile, false);
      assert sources[..k + 1] == sources;
      init + added
  }

  /** Naming the output archive among the sources, as in `chin a.txt a-all.chin` (the
      archive is created before the loop), makes the as-written loop store the archive
      inside itself, one record more than the counting loop announced; the corrected
      loop stores only a.txt. */
  lemma {:induction false} FileSourceSelfInclusion(a: WalkItem, self: WalkItem, absOutFile: string)
    requires self.absPath == absOutFile && a.absPath != absOutFile
    ensures var sources := [FileSource(a), FileSource(self)];
      AsWrittenItems(sources, absOutFile) == [a, self] &&
      |MultiCounted(sources, absOutFile)| == 1 &&
      MultiKept(sources, absOutFile) == [a]
  {
    AsWrittenTwoFiles(a, self, absOutFile);
    TwoSourcesWalk(FileSource(a), FileSource(self), true);
    TwoSourcesWalk(FileSource(a), FileSource(self), false);
    KeptSelfLast(a, self, absOutFile);
  }

  lemma {:induction false} KeptSelfLast(a: WalkItem, self: WalkItem, absOutFile: string)
    requires self.absPath == absOutFile && a.absPath != absOutFile
    ensures Kept([a, self], absOutFile) == [a]
  {
    KeptStep([a, self], 1, absOutFile);
    assert [a, self][..2] == [a, self] && [a, self][..1] == [a];
    KeptAll([a], absOutFile);
  }

  lemma {:induction false} TwoSourcesWalk(x: Source, y: Source, counting: bool)
    ensures SourcesWalk([x, y], counting) == SourceWalk(x, counting) + SourceWalk(y, counting)
  {
    var sources := [x, y];
    assert sources[..|sources| - 1] == [x] && [x][..0] == [];
    assert SourcesWalk([x], counting) == [] + SourceWalk(x, counting);
    assert SourcesWalk(sources, counting) == SourcesWalk([x], counting) + SourceWalk(y, counting);
  }

  lemma {:induction false} AsWrittenTwoFiles(a: WalkItem, b: WalkItem, absOutFile: string)
    ensures AsWrittenItems([FileSource(a), FileSource(b)], absOutFile) == [a, b]
  {
    var sources := [FileSource(a), FileSource(b)];
    assert sources[..|sources| - 1] == [FileSource(a)] && [FileSource(a)][..0] == [];
    assert AsWrittenItems([FileSource(a)], absOutFile) == [] + [a];
    assert AsWrittenItems(sources, absOutFile) == AsWrittenItems([FileSource(a)], absOutFile) + [b];
  }
}
