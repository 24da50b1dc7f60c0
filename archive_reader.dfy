/** The two-pass reader of processDecompression: a validate pass that walks a cursor over
    the whole buffer counting records, then an extract pass that re-reads the buffer and
    materialises every record. The filesystem calls of the extract pass are modelled as
    the sequence of actions it performs. */
module ArchiveReader {
  import opened Wrappers
  import opened Bytes
  import opened EntryCodec

  datatype DecodeError =
    | PathLengthExceedsData(pathLen: nat, remaining: nat)
    | DataLengthExceedsData(dataLen: nat, remaining: nat)
    | NoEntries
    | ShortPathRead(expected: nat, got: nat)
    | MissingDataLength(path: seq<Byte>)
    | ShortDataRead(path: seq<Byte>, expected: nat, got: nat)

  function Min(a: nat, b: nat): nat
  {
    if a < b then a else b
  }

  /* ---------------------------------------------------------------- validate pass */

  /** k more records in front of a count. */
  function Plus(k: nat, r: Result<nat, DecodeError>): Result<nat, DecodeError>
  {
    match r
    case Success(n) => Success(n + k)
    case Failure(e) => Failure(e)
  }

  lemma {:induction false} PlusPlus(a: nat, b: nat, r: Result<nat, DecodeError>)
    ensures Plus(a, Plus(b, r)) == Plus(a + b, r)
  {
  }

  /** How one iteration of a reading loop ends: the loop stops without error, fails with
      an error, or consumes one record and leaves `rest` unread. */
  datatype Step<T> = Stop | Fail(error: DecodeError) | Next(item: T, rest: seq<Byte>)

  /** One iteration of the counting loop of the validate pass at the front of s. A length
      field that cannot be read ends the loop; a declared length that runs past the end of
      the buffer is an error. The path and the content are skipped (Seek), not read. */
  function SkipStep(s: seq<Byte>): (st: Step<()>)
    ensures st.Next? ==> |st.rest| + 6 <= |s|
  {
    if |s| < 2 then Stop
    else
      var pathLen, s1 := ReadLe16(s), s[2..];
      if pathLen > |s1| then Fail(PathLengthExceedsData(pathLen, |s1|))
      else
        var s2 := s1[pathLen..];
        if |s2| < 4 then Stop
        else
          var dataLen, s3 := ReadLe32(s2), s2[4..];
          if dataLen > |s3| then Fail(DataLengthExceedsData(dataLen, |s3|))
          else Next((), s3[dataLen..])
  }

  /** What the counting loop finds in s: the number of records before it stops, or the
      error it fails with. */
  function CountRecords(s: seq<Byte>): (r: Result<nat, DecodeError>)
    ensures r.Success? ==> 6 * r.value <= |s|
    decreases |s|
  {
    match SkipStep(s)
    case Stop => Success(0)
    case Fail(e) => Failure(e)
    case Next(_, rest) => Plus(1, CountRecords(rest))
  }

  /** The verdict of the validate pass: a buffer with no whole record is rejected. */
  function Validation(data: seq<Byte>): (r: Result<nat, DecodeError>)
    ensures r.Success? ==> 0 < r.value && 6 * r.value <= |data|
    ensures |data| < 6 ==> r.Failure?
  {
    match CountRecords(data)
    case Success(n) => if n == 0 then Failure(NoEntries) else Success(n)
    case Failure(e) => Failure(e)
  }

  /** The reads and seeks of one iteration of the validate loop: the path length, a seek
      over the path, the content length and a seek over the content. */
  method SkipEntry(unread: seq<Byte>, ghost data: seq<Byte>, ghost counted: nat) returns (st: Step<()>)
    requires CountRecords(data) == Plus(counted, CountRecords(unread))
    ensures st.Stop? ==> CountRecords(data) == Success(counted)
    ensures st.Fail? ==> CountRecords(data) == Failure(st.error)
    ensures st.Next? ==> |st.rest| < |unread| && CountRecords(data) == Plus(counted + 1, CountRecords(st.rest))
  {
    if |unread| < 2 {
      return Stop;
    }
    var pathLen := ReadLe16(unread);
    var rest := unread[2..];
    if pathLen > |rest| {
      return Fail(PathLengthExceedsData(pathLen, |rest|));
    }
    rest := rest[pathLen..];
    if |rest| < 4 {
      return Stop;
    }
    var dataLen := ReadLe32(rest);
    rest := rest[4..];
    if dataLen > |rest| {
      return Fail(DataLengthExceedsData(dataLen, |rest|));
    }
    PlusPlus(counted, 1, CountRecords(rest[dataLen..]));
    return Next((), rest[dataLen..]);
  }

  /** The first loop of processDecompression: counts the records, and rejects the
      buffer when a length runs past its end or when it holds no record. */
  method ValidatePass(data: seq<Byte>) returns (r: Result<nat, DecodeError>)
    ensures r == Validation(data)
    ensures r.Success? ==> r.value > 0
  {
    var unread := data;
    var totalEntries: nat := 0;
    while true
      invariant CountRecords(data) == Plus(totalEntries, CountRecords(unread))
      decreases |unread|
    {
      var st := SkipEntry(unread, data, totalEntries);
      if st.Stop? {
        break;
      } else if st.Fail? {
        return Failure(st.error);
      }
      totalEntries := totalEntries + 1;
      unread := st.rest;
    }
    if totalEntries == 0 {
      return Failure(NoEntries);
    }
    return Success(totalEntries);
  }

  /* ----------------------------------------------------------------- extract pass */

  /** A record as the extract pass reads it back. */
  datatype Record = Record(path: seq<Byte>, content: seq<Byte>)

  /** The records the extract loop reads before it stops, and the error it stops with
      (None when it stops at a length field that cannot be read). */
  datatype Parse = Parse(records: seq<Record>, failure: Option<DecodeError>)

  function Prepend(r: Record, p: Parse): Parse
  {
    Parse([r] + p.records, p.failure)
  }

  /** One iteration of the extract loop at the front of s. A path-length field that cannot
      be read ends the loop; a short read of the path or the content, or a missing
      content-length field, is an error. bytes.Reader.Read reports io.EOF when nothing is
      left even for an empty destination, so a zero-length path with nothing after it is a
      short read too. */
  function ExtractStep(s: seq<Byte>): (st: Step<Record>)
    ensures st.Next? ==> |st.rest| + 6 <= |s|
  {
    if |s| < 2 then Stop
    else
      var pathLen, s1 := ReadLe16(s), s[2..];
      if |s1| == 0 || pathLen > |s1| then Fail(ShortPathRead(pathLen, Min(pathLen, |s1|)))
      else
        var path, s2 := s1[..pathLen], s1[pathLen..];
        if |s2| < 4 then Fail(MissingDataLength(path))
        else
          var dataLen, s3 := ReadLe32(s2), s2[4..];
          if dataLen > |s3| then Fail(ShortDataRead(path, dataLen, |s3|))
          else Next(Record(path, s3[..dataLen]), s3[dataLen..])
  }

  /** What the extract loop reads from s before it stops or fails. */
  function ParseRecords(s: seq<Byte>): (p: Parse)
    ensures 6 * |p.records| <= |s|
    decreases |s|
  {
    match ExtractStep(s)
    case Stop => Parse([], None)
    case Fail(e) => Parse([], Some(e))
    case Next(r, rest) => Prepend(r, ParseRecords(rest))
  }

  /** The filesystem calls of the extract pass. MkdirParents(p) is
      os.MkdirAll(filepath.Dir(p)). */
  datatype Action = MkdirAll(path: seq<Byte>) | MkdirParents(path: seq<Byte>) | WriteFile(path: seq<Byte>, data: seq<Byte>)

  /** A record with no content is a directory; any other record is a file whose parent
      directories are created before it is written. */
  function RecordActions(r: Record): (acts: seq<Action>)
    ensures forall a :: a in acts ==> a.path == r.path
    ensures MkdirAll(r.path) in acts <==> |r.content| == 0
    ensures WriteFile(r.path, r.content) in acts <==> |r.content| > 0
    ensures forall a :: a in acts && a.WriteFile? ==> a == acts[|acts| - 1]
  {
    if |r.content| == 0 then [MkdirAll(r.path)] else [MkdirParents(r.path), WriteFile(r.path, r.content)]
  }

  function ActionsOf(rs: seq<Record>): seq<Action>
  {
    if rs == [] then [] else RecordActions(rs[0]) + ActionsOf(rs[1..])
  }

  function FileCount(rs: seq<Record>): nat
  {
    if rs == [] then 0 else (if |rs[0].content| == 0 then 0 else 1) + FileCount(rs[1..])
  }

  function DirCount(rs: seq<Record>): nat
  {
    if rs == [] then 0 else (if |rs[0].content| == 0 then 1 else 0) + DirCount(rs[1..])
  }

  lemma {:induction false} ActionsOfAppend(rs: seq<Record>, r: Record)
    ensures ActionsOf(rs + [r]) == ActionsOf(rs) + RecordActions(r)
    ensures FileCount(rs + [r]) == FileCount(rs) + (if |r.content| == 0 then 0 else 1)
    ensures DirCount(rs + [r]) == DirCount(rs) + (if |r.content| == 0 then 1 else 0)
  {
    if rs == [] {
      assert [r][1..] == [];
    } else {
      assert (rs + [r])[1..] == rs[1..] + [r];
      ActionsOfAppend(rs[1..], r);
    }
  }

  /** Every record extracted is either a file or a directory. */
  lemma {:induction false} FilesPlusDirs(rs: seq<Record>)
    ensures FileCount(rs) + DirCount(rs) == |rs|
  {
    if rs != [] {
      FilesPlusDirs(rs[1..]);
    }
  }

  /** What the extract loop has done when it stops. */
  datatype Extraction = Extraction(actions: seq<Action>, files: nat, dirs: nat, processed: nat, failure: Option<DecodeError>)

  /** The parse of a buffer whose first records have already been read. */
  function Resume(done: seq<Record>, p: Parse): Parse
  {
    Parse(done + p.records, p.failure)
  }

  lemma {:induction false} ResumePrepend(done: seq<Record>, r: Record, p: Parse)
    ensures Resume(done, Prepend(r, p)) == Resume(done + [r], p)
  {
    assert done + ([r] + p.records) == (done + [r]) + p.records;
  }

  /** The reads of one iteration of the extract loop: the path length, the path, the
      content length and, for a file, the content. */
  method ReadEntry(unread: seq<Byte>) returns (st: Step<Record>)
    ensures st == ExtractStep(unread)
  {
    if |unread| < 2 {
      return Stop;
    }
    var pathLen := ReadLe16(unread);
    var rest := unread[2..];
    if |rest| == 0 || pathLen > |rest| {
      return Fail(ShortPathRead(pathLen, Min(pathLen, |rest|)));
    }
    var relPath := rest[..pathLen];
    rest := rest[pathLen..];
    if |rest| < 4 {
      return Fail(MissingDataLength(relPath));
    }
    var dataLen := ReadLe32(rest);
    rest := rest[4..];
    if dataLen == 0 {
      return Next(Record(relPath, rest[..0]), rest[0..]);
    }
    if dataLen > |rest| {
      return Fail(ShortDataRead(relPath, dataLen, |rest|));
    }
    return Next(Record(relPath, rest[..dataLen]), rest[dataLen..]);
  }

  /** The second loop of processDecompression, on a fresh reader over the same buffer. A
      record with no content is created as a directory; any other has its parent
      directories created and is then written. The actions performed before an error
      stay performed: extraction is not transactional. */
  method ExtractPass(data: seq<Byte>) returns (x: Extraction)
    ensures var p := ParseRecords(data);
      x == Extraction(ActionsOf(p.records), FileCount(p.records), DirCount(p.records), |p.records|, p.failure)
  {
    var unread := data;
    var actions: seq<Action> := [];
    var entriesProcessed, extractedFiles, extractedDirs: nat := 0, 0, 0;
    var failure: Option<DecodeError> := None;
    ghost var done: seq<Record> := [];
    assert Resume([], ParseRecords(data)) == ParseRecords(data);
    while true
      invariant ParseRecords(data) == Resume(done, ParseRecords(unread))
      invariant actions == ActionsOf(done) && extractedFiles == FileCount(done)
      invariant extractedDirs == DirCount(done) && entriesProcessed == |done|
      invariant failure == None
      decreases |unread|
    {
      var st := ReadEntry(unread);
      if st.Stop? {
        assert ParseRecords(data) == Parse(done + [], None);
        break;
      }
      if st.Fail? {
        failure := Some(st.error);
        assert ParseRecords(data) == Parse(done + [], failure);
        break;
      }
      var r := st.item;
      RecordStep(done, r);
      if |r.content| == 0 {
        actions := actions + [MkdirAll(r.path)];
        extractedDirs := extractedDirs + 1;
      } else {
        actions := actions + [MkdirParents(r.path)];
        actions := actions + [WriteFile(r.path, r.content)];
        extractedFiles := extractedFiles + 1;
      }
      ResumePrepend(done, r, ParseRecords(st.rest));
      done := done + [r];
      entriesProcessed := entriesProcessed + 1;
      unread := st.rest;
    }
    assert done + [] == done;
    return Extraction(actions, extractedFiles, extractedDirs, entriesProcessed, failure);
  }

  /* ------------------------------------------------------- reading what was written */

  /** The record the extract pass reads back for an entry: a directory, and equally a file
      with no content, comes back with no content. */
  function RecordOf(e: Entry): Record
  {
    Record(e.path, Payload(e))
  }

  function RecordsOf(es: seq<Entry>): (rs: seq<Record>)
    ensures |rs| == |es|
    ensures forall i :: 0 <= i < |es| ==> rs[i] == RecordOf(es[i])
  {
    if es == [] then [] else [RecordOf(es[0])] + RecordsOf(es[1..])
  }

  /** The fields of an encoded entry, seen through the three slices both loops take. */
  lemma {:induction false} EncodedFields(e: Entry, t: seq<Byte>)
    requires Encodable(e)
    ensures var s, p, n := EncodeEntry(e) + t, |e.path|, |Payload(e)|;
      |s| >= 6 && ReadLe16(s) == p && s[2..][..p] == e.path &&
      ReadLe32(s[2..][p..]) == n && s[2..][p..][4..] == Payload(e) + t
  {
    var s, p, n := EncodeEntry(e) + t, |e.path|, |Payload(e)|;
    EntryLayout(e);
    var r := EncodeEntry(e);
    assert s[..|r|] == r;
    ReadLe16Prefix(r, t);
    assert s[2..][..p] == r[2..2 + p];
    assert s[2..][p..] == r[2 + p..] + t;
    ReadLe32Prefix(r[2 + p..], t);
    assert s[2..][p..][4..] == r[6 + p..] + t;
  }

  /** The validate pass skips exactly one record for each encoded entry. */
  lemma {:induction false} SkipEncodedEntry(e: Entry, t: seq<Byte>)
    requires Encodable(e)
    ensures SkipStep(EncodeEntry(e) + t) == Next((), t)
  {
    EncodedFields(e, t);
    var s3 := Payload(e) + t;
    assert s3[|Payload(e)|..] == t;
  }

  /** The extract pass reads exactly the entry's path and content back. */
  lemma {:induction false} ExtractEncodedEntry(e: Entry, t: seq<Byte>)
    requires Encodable(e)
    ensures ExtractStep(EncodeEntry(e) + t) == Next(RecordOf(e), t)
  {
    EncodedFields(e, t);
    var s3 := Payload(e) + t;
    assert s3[..|Payload(e)|] == Payload(e);
    assert s3[|Payload(e)|..] == t;
  }

  lemma {:induction false} CountEncodedEntry(e: Entry, t: seq<Byte>)
    requires Encodable(e)
    ensures CountRecords(EncodeEntry(e) + t) == Plus(1, CountRecords(t))
  {
    SkipEncodedEntry(e, t);
  }

  lemma {:induction false} ParseEncodedEntry(e: Entry, t: seq<Byte>)
    requires Encodable(e)
    ensures ParseRecords(EncodeEntry(e) + t) == Prepend(RecordOf(e), ParseRecords(t))
  {
    ExtractEncodedEntry(e, t);
  }

  /** Validating an archive followed by any bytes t counts one record per entry, then
      goes on as it would on t alone. */
  lemma {:induction false} CountEncodedArchive(es: seq<Entry>, t: seq<Byte>)
    requires AllEncodable(es)
    ensures CountRecords(EncodeArchive(es) + t) == Plus(|es|, CountRecords(t))
  {
    if es == [] {
      assert EncodeArchive(es) + t == t;
      assert CountRecords(t) == Plus(0, CountRecords(t)) by {
        match CountRecords(t) { case Success(_) => case Failure(_) => }
      }
    } else {
      CountFirstEntry(es, t);
      CountEncodedArchive(es[1..], t);
      PlusPlus(1, |es| - 1, CountRecords(t));
    }
  }

  lemma {:induction false} CountFirstEntry(es: seq<Entry>, t: seq<Byte>)
    requires es != [] && AllEncodable(es)
    ensures AllEncodable(es[1..])
    ensures CountRecords(EncodeArchive(es) + t) == Plus(1, CountRecords(EncodeArchive(es[1..]) + t))
  {
    var tail := EncodeArchive(es[1..]) + t;
    assert EncodeArchive(es) + t == EncodeEntry(es[0]) + tail;
    CountEncodedEntry(es[0], tail);
  }

  /** Extracting an archive followed by any bytes t reads back one record per entry, in
      order, then goes on as it would on t alone. */
  lemma {:induction false} ParseEncodedArchive(es: seq<Entry>, t: seq<Byte>)
    requires AllEncodable(es)
    ensures ParseRecords(EncodeArchive(es) + t) == Resume(RecordsOf(es), ParseRecords(t))
  {
    if es == [] {
      assert EncodeArchive(es) + t == t;
      assert RecordsOf(es) + ParseRecords(t).records == ParseRecords(t).records;
    } else {
      var tail := EncodeArchive(es[1..]) + t;
      assert EncodeArchive(es) + t == EncodeEntry(es[0]) + tail;
      ParseEncodedEntry(es[0], tail);
      ParseEncodedArchive(es[1..], t);
      var p := ParseRecords(t);
      assert RecordsOf(es) == [RecordOf(es[0])] + RecordsOf(es[1..]);
      AppendAssoc([RecordOf(es[0])], RecordsOf(es[1..]), p.records);
    }
  }

  /** Whenever the validate pass has counted n records of a buffer, the extract pass reads
      at most n of them, and exactly n when it ends without error. */
  lemma {:induction false} ExtractAgreesWithValidate(s: seq<Byte>, n: nat)
    requires CountRecords(s) == Success(n)
    ensures |ParseRecords(s).records| <= n
    ensures ParseRecords(s).failure == None ==> |ParseRecords(s).records| == n
    decreases |s|
  {
    match SkipStep(s)
    case Stop =>
    case Next(_, rest) =>
      assert ExtractStep(s).Next? && ExtractStep(s).rest == rest;
      ExtractAgreesWithValidate(rest, n - 1);
  }

  /** The validate pass fails only on a declared length that overruns the buffer, or on a
      buffer in which it counts no record at all. */
  lemma {:induction false} ValidationErrors(data: seq<Byte>)
    requires Validation(data).Failure?
    ensures var e := Validation(data).error;
      (e.PathLengthExceedsData? && e.pathLen > e.remaining) ||
      (e.DataLengthExceedsData? && e.dataLen > e.remaining) ||
      (e == NoEntries && CountRecords(data) == Success(0))
  {
    if CountRecords(data).Failure? {
      CountErrors(data);
    }
  }

  lemma {:induction false} CountErrors(s: seq<Byte>)
    requires CountRecords(s).Failure?
    ensures var e := CountRecords(s).error;
      (e.PathLengthExceedsData? && e.pathLen > e.remaining) ||
      (e.DataLengthExceedsData? && e.dataLen > e.remaining)
    decreases |s|
  {
    match SkipStep(s)
    case Fail(_) =>
    case Next(_, rest) => CountErrors(rest);
  }

  /* ------------------------------------------------------ processDecompression */

  datatype Summary = Summary(files: nat, dirs: nat, processed: nat, expected: nat)

  /** The actions processDecompression performs and what it reports. */
  datatype Outcome = Outcome(actions: seq<Action>, result: Result<Summary, DecodeError>)

  /** Validate, then extract; nothing is touched unless validation succeeds. */
  function Decompression(data: seq<Byte>): (o: Outcome)
    ensures o.actions != [] ==> Validation(data).Success?
    ensures o.result.Success? ==> o.result.value.files + o.result.value.dirs == o.result.value.processed
  {
    match Validation(data)
    case Failure(e) => Outcome([], Failure(e))
    case Success(n) =>
      var p := ParseRecords(data);
      FilesPlusDirs(p.records);
      Outcome(ActionsOf(p.records),
        if p.failure.Some? then Failure(p.failure.value)
        else Success(Summary(FileCount(p.records), DirCount(p.records), |p.records|, n)))
  }

  /** processDecompression. A summary whose processed count differs from the expected
      count carries the warning of the source. */
  method ProcessDecompression(data: seq<Byte>) returns (o: Outcome)
    ensures o == Decompression(data)
  {
    var validated := ValidatePass(data);
    if validated.Failure? {
      return Outcome([], Failure(validated.error));
    }
    var totalEntries := validated.value;
    var x := ExtractPass(data);
    if x.failure.Some? {
      return Outcome(x.actions, Failure(x.failure.value));
    }
    return Outcome(x.actions, Success(Summary(x.files, x.dirs, x.processed, totalEntries)));
  }

  /* ----------------------------------------------------------------- properties */

  /** Round trip: the archive of n encodable entries validates to n, and extraction
      recreates every entry in order, with the warning of the source never raised. */
  lemma {:induction false} DecompressEncodedArchive(es: seq<Entry>)
    requires |es| > 0 && AllEncodable(es)
    ensures var rs := RecordsOf(es);
      Decompression(EncodeArchive(es)) ==
        Outcome(ActionsOf(rs), Success(Summary(FileCount(rs), DirCount(rs), |es|, |es|)))
  {
    var data := EncodeArchive(es);
    assert data + [] == data;
    CountEncodedArchive(es, []);
    ParseEncodedArchive(es, []);
    assert CountRecords([]) == Success(0) && ParseRecords([]) == Parse([], None);
    assert RecordsOf(es) + [] == RecordsOf(es);
    DecompressionOfWhole(data, |es|, RecordsOf(es));
  }

  /** A buffer that validates with n records and extracts n records without error. */
  lemma DecompressionOfWhole(data: seq<Byte>, n: nat, rs: seq<Record>)
    requires n > 0 && CountRecords(data) == Success(n) && ParseRecords(data) == Parse(rs, None)
    ensures Decompression(data) == Outcome(ActionsOf(rs), Success(Summary(FileCount(rs), DirCount(rs), |rs|, n)))
  {
  }

  /** Whenever extraction completes on a validated buffer, it has processed exactly the
      counted records, each as a file or a directory: the mismatch warning cannot fire. */
  lemma {:induction false} NoCountMismatch(data: seq<Byte>)
    requires Decompression(data).result.Success?
    ensures var summary := Decompression(data).result.value;
      summary.processed == summary.expected && summary.files + summary.dirs == summary.processed
  {
    var n := Validation(data).value;
    ExtractAgreesWithValidate(data, n);
    FilesPlusDirs(ParseRecords(data).records);
  }

  /** One more record, with its actions spelled out as the extract loop performs them. */
  lemma {:induction false} RecordStep(rs: seq<Record>, r: Record)
    ensures ActionsOf(rs + [r]) == ActionsOf(rs) +
      (if |r.content| == 0 then [MkdirAll(r.path)] else [MkdirParents(r.path), WriteFile(r.path, r.content)])
    ensures FileCount(rs + [r]) == FileCount(rs) + (if |r.content| == 0 then 0 else 1)
    ensures DirCount(rs + [r]) == DirCount(rs) + (if |r.content| == 0 then 1 else 0)
  {
    ActionsOfAppend(rs, r);
  }

  /** A record with no content is always created as a directory, never as an empty file. */
  lemma {:induction false} NoEmptyFileWritten(rs: seq<Record>)
    ensures forall a :: a in ActionsOf(rs) && a.WriteFile? ==> |a.data| > 0
  {
    if rs != [] {
      NoEmptyFileWritten(rs[1..]);
    }
  }

  lemma {:induction false} ActionsOfContains(rs: seq<Record>, i: nat)
    requires i < |rs|
    ensures forall a :: a in RecordActions(rs[i]) ==> a in ActionsOf(rs)
  {
    if i > 0 {
      ActionsOfContains(rs[1..], i - 1);
    }
  }

  /** An entry without content, an empty regular file included, comes back as a
      directory: extraction creates a directory at its path and writes no file there. */
  lemma {:induction false} EmptyContentComesBackAsDirectory(es: seq<Entry>, i: nat)
    requires |es| > 0 && AllEncodable(es) && i < |es| && Payload(es[i]) == []
    ensures MkdirAll(es[i].path) in Decompression(EncodeArchive(es)).actions
    ensures forall a :: a in Decompression(EncodeArchive(es)).actions && a.WriteFile? ==> a.data != []
  {
    DecompressEncodedArchive(es);
    ActionsOfContains(RecordsOf(es), i);
    NoEmptyFileWritten(RecordsOf(es));
  }

  /** The two passes treat a dangling final record differently: a path with no content
      length after it ends validation quietly, but is an error in extraction, which by
      then has already recreated every preceding entry. */
  lemma {:induction false} DanglingRecordFailsOnlyInExtraction(es: seq<Entry>, t: seq<Byte>)
    requires |es| > 0 && AllEncodable(es)
    requires 2 < |t| && 2 + ReadLe16(t) <= |t| < 6 + ReadLe16(t)
    ensures Validation(EncodeArchive(es) + t).Success?
    ensures Decompression(EncodeArchive(es) + t) ==
      Outcome(ActionsOf(RecordsOf(es)), Failure(MissingDataLength(t[2..2 + ReadLe16(t)])))
  {
    var data := EncodeArchive(es) + t;
    DanglingTail(t);
    CountEncodedArchive(es, t);
    ParseEncodedArchive(es, t);
    assert RecordsOf(es) + [] == RecordsOf(es);
    DecompressionOfBroken(data, |es|, RecordsOf(es), MissingDataLength(t[2..2 + ReadLe16(t)]));
  }

  /** A path length, the whole path and fewer than four bytes after it: validation stops
      there without a record, and extraction fails for want of a content length. With
      nothing after the length field (a zero-length path at the very end) extraction
      fails earlier, on the path read, so that case is left out. */
  lemma {:induction false} DanglingTail(t: seq<Byte>)
    requires 2 < |t| && 2 + ReadLe16(t) <= |t| < 6 + ReadLe16(t)
    ensures CountRecords(t) == Success(0)
    ensures ParseRecords(t) == Parse([], Some(MissingDataLength(t[2..2 + ReadLe16(t)])))
  {
    var p := ReadLe16(t);
    assert SkipStep(t) == Stop;
    assert t[2..][..p] == t[2..2 + p];
    assert ExtractStep(t) == Fail(MissingDataLength(t[2..2 + p]));
  }

  /** A buffer that validates with n records but whose extraction stops with an error. */
  lemma DecompressionOfBroken(data: seq<Byte>, n: nat, rs: seq<Record>, err: DecodeError)
    requires n > 0 && CountRecords(data) == Success(n) && ParseRecords(data) == Parse(rs, Some(err))
    ensures Validation(data) == Success(n)
    ensures Decompression(data) == Outcome(ActionsOf(rs), Failure(err))
  {
  }
}
