/** splitDataToFiles: cutting a finished archive into numbered parts of at most
    maxSizeMB MiB each, written next to each other as "<name>-<i>.chin". */
module Splitter {

  import opened Bytes
  import opened Naming

  /** A file written to disk: its name and its content. */
  datatype WrittenFile = WrittenFile(name: string, data: seq<Byte>)

  /** maxSizeMB * 1024 * 1024 bytes. */
  function PartSize(maxSizeMB: nat): (size: nat)
    ensures maxSizeMB > 0 ==> size >= 0x10_0000
  {
    maxSizeMB * 1024 * 1024
  }

  /** (totalSize + maxSize - 1) / maxSize: the number of parts. */
  function PartCount(total: nat, size: nat): (r: nat)
    requires size > 0
    ensures r == 0 <==> total == 0
  {
    CeilingBounds(total, size);
    (total + size - 1) / size
  }

  lemma {:induction false} CeilingBounds(total: nat, size: nat)
    requires size > 0
    ensures (total + size - 1) / size == 0 <==> total == 0
  {
    var m := total + size - 1;
    assert m == m / size * size + m % size;
  }

  lemma {:induction false} MulMonotonic(a: nat, b: nat, size: nat)
    requires a <= b
    ensures a * size <= b * size
  {
    assert b * size == a * size + (b - a) * size;
  }

  /** The parts are just enough to hold the data: every part starts inside the data, and
      together they reach its end. There are no parts for empty data. */
  lemma {:induction false} PartCountBounds(total: nat, size: nat)
    requires size > 0
    ensures var c := PartCount(total, size);
      (c == 0 <==> total == 0) && total <= c * size &&
      (c > 0 ==> (c - 1) * size < total)
  {
    var c := PartCount(total, size);
    var m := total + size - 1;
    assert m == c * size + m % size;
    if c > 0 {
      assert (c - 1) * size == c * size - size;
    }
  }

  /** Part i (counted from 0) of the data: the bytes from i * size up to (i + 1) * size,
      or to the end of the data for the last part. */
  function Chunk(data: seq<Byte>, size: nat, i: nat): (chunk: seq<Byte>)
    requires size > 0 && i < PartCount(|data|, size)
    ensures 0 < |chunk| <= size
  {
    PartCountBounds(|data|, size);
    MulMonotonic(i, PartCount(|data|, size) - 1, size);
    var start := i * size;
    var end := if start + size > |data| then |data| else start + size;
    data[start..end]
  }

  /** The parts of the data, in order. */
  function Chunks(data: seq<Byte>, size: nat): (chunks: seq<seq<Byte>>)
    requires size > 0
    ensures |chunks| == PartCount(|data|, size)
  {
    seq(PartCount(|data|, size), i requires 0 <= i < PartCount(|data|, size) => Chunk(data, size, i))
  }

  /** The files splitDataToFiles writes for the archive bytes meant for outFile. */
  function SplitParts(data: seq<Byte>, outFile: string, maxSizeMB: nat): (parts: seq<WrittenFile>)
    requires maxSizeMB > 0
    ensures |parts| == PartCount(|data|, PartSize(maxSizeMB))
  {
    var size := PartSize(maxSizeMB);
    seq(PartCount(|data|, size), i requires 0 <= i < PartCount(|data|, size) =>
      WrittenFile(PartName(outFile, i + 1), Chunk(data, size, i)))
  }

  /** The part loop of splitDataToFiles: part i + 1 holds the bytes from i * maxSize up
      to (i + 1) * maxSize, cut at the end of the data. */
  method SplitDataToFiles(data: seq<Byte>, outFile: string, maxSizeMB: nat) returns (parts: seq<WrittenFile>)
    requires maxSizeMB > 0
    ensures parts == SplitParts(data, outFile, maxSizeMB)
  {
    var maxSize := maxSizeMB * 1024 * 1024;
    var totalSize := |data|;
    var count := (totalSize + maxSize - 1) / maxSize;
    var baseFileName := TrimSuffix(outFile, SUFFIX);
    parts := [];
    for i := 0 to count
      invariant parts == SplitParts(data, outFile, maxSizeMB)[..i]
    {
      var partFileName := baseFileName + "-" + NatToString(i + 1) + SUFFIX;
      var start := i * maxSize;
      var end := start + maxSize;
      if end > totalSize {
        end := totalSize;
      }
      ChunkAt(data, maxSize, i);
      ghost var all := SplitParts(data, outFile, maxSizeMB);
      assert all[i] == WrittenFile(partFileName, data[start..end]);
      assert all[..i + 1] == all[..i] + [all[i]];
      parts := parts + [WrittenFile(partFileName, data[start..end])];
    }
  }

  /** Part i begins at i * size, inside the data, and ends a full part later or at the
      end of the data, whichever comes first. */
  lemma {:induction false} ChunkAt(data: seq<Byte>, size: nat, i: nat)
    requires size > 0 && i < PartCount(|data|, size)
    ensures i * size < |data| && (i + 1) * size == i * size + size
    ensures Chunk(data, size, i) == data[i * size..if i * size + size > |data| then |data| else i * size + size]
  {
    PartCountBounds(|data|, size);
    MulMonotonic(i, PartCount(|data|, size) - 1, size);
  }

  /** Every part but the last is full; the last holds between one byte and a full part. */
  lemma {:induction false} ChunkSizes(data: seq<Byte>, size: nat, i: nat)
    requires size > 0 && i < PartCount(|data|, size)
    ensures i + 1 < PartCount(|data|, size) ==> |Chunk(data, size, i)| == size
    ensures i + 1 == PartCount(|data|, size) ==> |Chunk(data, size, i)| == |data| - i * size
  {
    PartCountBounds(|data|, size);
    if i + 1 < PartCount(|data|, size) {
      MulMonotonic(i + 1, PartCount(|data|, size) - 1, size);
    }
  }

  /** Empty data is written as no parts at all. */
  lemma {:induction false} EmptyDataNoParts(outFile: string, maxSizeMB: nat)
    requires maxSizeMB > 0
    ensures SplitParts([], outFile, maxSizeMB) == []
  {
    PartCountBounds(0, PartSize(maxSizeMB));
  }

  /** Data that fits in one part is written as a single part equal to it. */
  lemma {:induction false} SmallDataOnePart(data: seq<Byte>, outFile: string, maxSizeMB: nat)
    requires maxSizeMB > 0 && 0 < |data| <= PartSize(maxSizeMB)
    ensures SplitParts(data, outFile, maxSizeMB) == [WrittenFile(PartName(outFile, 1), data)]
  {
    var size := PartSize(maxSizeMB);
    var c := PartCount(|data|, size);
    PartCountBounds(|data|, size);
    if c >= 2 {
      MulMonotonic(1, c - 1, size);
    }
    assert c == 1;
    assert Chunk(data, size, 0) == data;
  }

  /** The first k parts, joined, are the first k * size bytes of the data (or all of it). */
  lemma {:induction false} ChunksPrefix(data: seq<Byte>, size: nat, k: nat)
    requires size > 0 && k <= PartCount(|data|, size)
    ensures Concat(Chunks(data, size)[..k]) == data[..if k * size > |data| then |data| else k * size]
  {
    var chunks := Chunks(data, size);
    if k == 0 {
      assert chunks[..0] == [];
    } else {
      ChunksPrefix(data, size, k - 1);
      ChunkAt(data, size, k - 1);
      var lo := (k - 1) * size;
      ConcatStep(chunks, data, k, lo, if k * size > |data| then |data| else k * size);
    }
  }

  /** One more part extends the joined prefix to the end of that part. */
  lemma {:induction false} ConcatStep(chunks: seq<seq<Byte>>, data: seq<Byte>, k: nat, lo: nat, hi: nat)
    requires 0 < k <= |chunks| && lo <= hi <= |data|
    requires Concat(chunks[..k - 1]) == data[..lo] && chunks[k - 1] == data[lo..hi]
    ensures Concat(chunks[..k]) == data[..hi]
  {
    assert chunks[..k][..k - 1] == chunks[..k - 1];
    assert data[..hi] == data[..lo] + data[lo..hi];
  }

  /** Joining all the parts in order gives back the data. */
  lemma {:induction false} ChunksConcat(data: seq<Byte>, size: nat)
    requires size > 0
    ensures Concat(Chunks(data, size)) == data
  {
    var chunks := Chunks(data, size);
    ChunksPrefix(data, size, |chunks|);
    PartCountBounds(|data|, size);
    assert chunks[..|chunks|] == chunks;
  }

  /** The data of the parts written by the splitter. */
  function PartData(parts: seq<WrittenFile>): (datas: seq<seq<Byte>>)
    ensures |datas| == |parts| && forall i :: 0 <= i < |parts| ==> datas[i] == parts[i].data
  {
    seq(|parts|, i requires 0 <= i < |parts| => parts[i].data)
  }

  /** Splitting loses and reorders nothing: the parts, in part-number order, concatenate
      to the archive; each is named after the archive and its part number. */
  lemma {:induction false} SplitPartsJoin(data: seq<Byte>, outFile: string, maxSizeMB: nat)
    requires maxSizeMB > 0
    ensures Concat(PartData(SplitParts(data, outFile, maxSizeMB))) == data
    ensures forall i :: 0 <= i < |SplitParts(data, outFile, maxSizeMB)| ==>
      SplitParts(data, outFile, maxSizeMB)[i].name == PartName(outFile, i + 1)
  {
    assert PartData(SplitParts(data, outFile, maxSizeMB)) == Chunks(data, PartSize(maxSizeMB));
    ChunksConcat(data, PartSize(maxSizeMB));
  }

  /** A 10000-byte archive cut at 4000 bytes gives parts of 4000, 4000 and 2000 bytes. */
  lemma {:induction false} ExampleCut(data: seq<Byte>)
    requires |data| == 10000
    ensures PartCount(|data|, 4000) == 3
    ensures |Chunk(data, 4000, 0)| == 4000 && |Chunk(data, 4000, 1)| == 4000
    ensures |Chunk(data, 4000, 2)| == 2000
  {
  }
}
