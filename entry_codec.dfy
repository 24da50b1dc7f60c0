/** The entry codec: one length-prefixed record per walked filesystem object,
    `[pathLen uint16 LE][path][contentLen uint32 LE][content]`, records concatenated
    with no header, count or checksum. A content length of zero marks a directory. */
module EntryCodec {
  import opened Bytes

  /** One walked object as the writer stores it: its relative path (as bytes), whether it
      is a directory, and the bytes of the file (ignored for a directory). */
  datatype Entry = Entry(path: seq<Byte>, isDir: bool, content: seq<Byte>)

  /** The content bytes a record carries: none for a directory. */
  function Payload(e: Entry): seq<Byte>
  {
    if e.isDir then [] else e.content
  }

  /** Both length fields of e fit their widths, so neither conversion wraps. */
  predicate Encodable(e: Entry)
  {
    |e.path| < U16_LIMIT && |Payload(e)| < U32_LIMIT
  }

  predicate AllEncodable(es: seq<Entry>)
  {
    forall i :: 0 <= i < |es| ==> Encodable(es[i])
  }

  /** The bytes writeEntry appends for e. The path length is converted with uint16(...)
      and the content length with uint32(...), both of which wrap around. */
  function EncodeEntry(e: Entry): (r: seq<Byte>)
    ensures |r| == 2 + |e.path| + 4 + |Payload(e)|
  {
    Le16(Uint16(|e.path|)) + e.path + Le32(Uint32(|Payload(e)|)) + Payload(e)
  }

  /** Record layout: for an encodable entry the record reads back as its path length,
      its path, its content length (0 for a directory) and its content, in that order. */
  lemma {:induction false} EntryLayout(e: Entry)
    requires Encodable(e)
    ensures var r, p := EncodeEntry(e), |e.path|;
      ReadLe16(r) == p && r[2..2 + p] == e.path &&
      ReadLe32(r[2 + p..]) == |Payload(e)| && r[6 + p..] == Payload(e)
  {
    var r, p := EncodeEntry(e), |e.path|;
    var head, len := Le16(p), Le32(|Payload(e)|);
    assert r == head + (e.path + (len + Payload(e)));
    ReadLe16Prefix(head, e.path + (len + Payload(e)));
    Le16RoundTrip(p);
    assert r[2 + p..] == len + Payload(e);
    ReadLe32Prefix(len, Payload(e));
    Le32RoundTrip(|Payload(e)|);
  }

  /** The uint16 conversion wraps: a path of exactly 65536 bytes is recorded with length 0. */
  lemma {:induction false} LongPathLengthWraps(e: Entry)
    requires |e.path| == U16_LIMIT
    ensures ReadLe16(EncodeEntry(e)) == 0
  {
    assert Uint16(|e.path|) == 0;
    assert EncodeEntry(e)[..2] == Le16(0);
  }

  /** The archive: the records of the entries, back to back, in order. */
  function EncodeArchive(es: seq<Entry>): (r: seq<Byte>)
    ensures |r| >= 6 * |es|
    ensures r == [] <==> es == []
  {
    if es == [] then [] else EncodeEntry(es[0]) + EncodeArchive(es[1..])
  }

  /** The archive of two lists of entries, one after the other, is the two archives
      back to back. */
  lemma {:induction false} EncodeArchiveConcat(a: seq<Entry>, b: seq<Entry>)
    ensures EncodeArchive(a + b) == EncodeArchive(a) + EncodeArchive(b)
  {
    if a == [] {
      assert a + b == b;
    } else {
      assert (a + b)[1..] == a[1..] + b;
      EncodeArchiveConcat(a[1..], b);
    }
  }

  /** File "a.txt" holding "hi" followed by directory "b". */
  lemma {:induction false} ExampleArchive()
    ensures EncodeArchive([Entry([0x61, 0x2e, 0x74, 0x78, 0x74], false, [0x68, 0x69]), Entry([0x62], true, [])])
      == [5, 0, 0x61, 0x2e, 0x74, 0x78, 0x74, 2, 0, 0, 0, 0x68, 0x69, 1, 0, 0x62, 0, 0, 0, 0]
  {
    var file, dir := Entry([0x61, 0x2e, 0x74, 0x78, 0x74], false, [0x68, 0x69]), Entry([0x62], true, []);
    EncodeTwo(file, dir);
    ExampleFileRecord();
    ExampleDirRecord();
  }

  lemma EncodeTwo(a: Entry, b: Entry)
    ensures EncodeArchive([a, b]) == EncodeEntry(a) + EncodeEntry(b)
  {
    assert [a, b][1..] == [b];
    EncodeOne(b);
  }

  lemma EncodeOne(e: Entry)
    ensures EncodeArchive([e]) == EncodeEntry(e)
  {
    assert [e][1..] == [];
    assert EncodeArchive([e]) == EncodeEntry(e) + [];
  }

  lemma {:induction false} ExampleFileRecord()
    ensures EncodeEntry(Entry([0x61, 0x2e, 0x74, 0x78, 0x74], false, [0x68, 0x69]))
      == [5, 0, 0x61, 0x2e, 0x74, 0x78, 0x74, 2, 0, 0, 0, 0x68, 0x69]
  {
    LeBytesSmall(5, 2);
    LeBytesSmall(2, 4);
    assert Le16(5) == [5, 0] && Le32(2) == [2, 0, 0, 0];
  }

  lemma {:induction false} ExampleDirRecord()
    ensures EncodeEntry(Entry([0x62], true, [])) == [1, 0, 0x62, 0, 0, 0, 0]
  {
    LeBytesSmall(1, 2);
    LeBytesSmall(0, 4);
    assert Le16(1) == [1, 0] && Le32(0) == [0, 0, 0, 0];
  }

  /** The destination of writeEntry: an os.File or a bytes.Buffer, both of which only
      ever grow by appending. */
  class ArchiveSink {
    var data: seq<Byte>

    constructor ()
      ensures data == []
    {
      data := [];
    }

    /** writeEntry: appends the record of one walked object, field by field. */
    method WriteEntry(relPath: seq<Byte>, isDir: bool, content: seq<Byte>)
      modifies this
      ensures data == old(data) + EncodeEntry(Entry(relPath, isDir, content))
    {
      ghost var e := Entry(relPath, isDir, content);
      ghost var head := Le16(Uint16(|relPath|)) + relPath;
      data := data + Le16(Uint16(|relPath|));
      data := data + relPath;
      AppendAssoc(old(data), Le16(Uint16(|relPath|)), relPath);
      if isDir {
        data := data + Le32(0);
        AppendAssoc(old(data), head, Le32(0));
        assert EncodeEntry(e) == head + Le32(0) + [];
      } else {
        data := data + Le32(Uint32(|content|));
        data := data + content;
        AppendAssoc(old(data), head, Le32(Uint32(|content|)));
        AppendAssoc(old(data), head + Le32(Uint32(|content|)), content);
      }
    }
  }
}
