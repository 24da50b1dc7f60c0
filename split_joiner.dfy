/** decompressSplit: from the name of any one part, find the parts of a split archive
    among the files of its directory, order them by part number, refuse the set when a
    part number is missing below the highest one, and join their contents. The
    directory listing (names and contents) is an input. */
module SplitJoiner {

  import opened Wrappers
  import opened Bytes
  import opened Naming
  import opened Splitter

  /** A part found in the directory: its number and its content. */
  datatype Part = Part(number: nat, data: seq<Byte>)

  datatype JoinError =
    | InvalidSplitFormat
    | NoPartFiles(baseFileName: string)
    | MissingParts(base: string, missing: seq<nat>)

  /* ---------------------------------------------------------------- collection */

  /** What the part pattern and strconv.Atoi make of one file of the directory: a part,
      or nothing when the name does not match or the number overflows an int. */
  function PartOf(f: WrittenFile, base: string): (r: Option<Part>)
    ensures r.Some? ==> MatchPartName(f.name, base).Some? && r.value.number <= MAX_INT && r.value.data == f.data
  {
    match MatchPartName(f.name, base)
    case None => None
    case Some(digits) =>
      if DigitsValue(digits) > MAX_INT then None else Some(Part(DigitsValue(digits), f.data))
  }

  function PartList(f: WrittenFile, base: string): seq<Part>
  {
    match PartOf(f, base)
    case None => []
    case Some(p) => [p]
  }

  /** The parts found, in directory order. */
  function Collected(files: seq<WrittenFile>, base: string): (r: seq<Part>)
    ensures |r| <= |files|
    ensures forall k :: 0 <= k < |r| ==> r[k].number <= MAX_INT
  {
    if files == [] then []
    else Collected(files[..|files| - 1], base) + PartList(files[|files| - 1], base)
  }

  /** The loop over the directory's files. */
  method CollectParts(files: seq<WrittenFile>, base: string) returns (parts: seq<Part>)
    ensures parts == Collected(files, base)
  {
    parts := [];
    for i := 0 to |files|
      invariant parts == Collected(files[..i], base)
    {
      ghost var before := parts;
      match MatchPartName(files[i].name, base) {
        case None =>
        case Some(digits) =>
          var partNumber := DigitsValue(digits);
          if partNumber <= MAX_INT {
            parts := parts + [Part(partNumber, files[i].data)];
          }
      }
      assert parts == before + PartList(files[i], base);
      CollectedStep(files, i, base);
    }
    assert files[..|files|] == files;
  }

  /** One more file adds its own part, if any, to the parts found so far. */
  lemma {:induction false} CollectedStep(files: seq<WrittenFile>, i: nat, base: string)
    requires i < |files|
    ensures Collected(files[..i + 1], base) == Collected(files[..i], base) + PartList(files[i], base)
  {
    assert files[..i + 1][..i] == files[..i];
  }

  /** A file contributes a part exactly when its name is the base, '-', digits and
      ".chin", and the digits denote a number no larger than the largest int; the
      part carries that number and the file's content. */
  lemma {:induction false} PartOfIff(f: WrittenFile, base: string, n: nat)
    ensures PartOf(f, base) == Some(Part(n, f.data)) <==>
      exists digits :: f.name == base + "-" + digits + SUFFIX && digits != [] && AllDigits(digits)
        && DigitsValue(digits) == n && n <= MAX_INT
  {
    match MatchPartName(f.name, base)
    case None =>
      forall digits | f.name == base + "-" + digits + SUFFIX && digits != [] && AllDigits(digits)
        ensures false
      {
        MatchPartNameIff(f.name, base, digits);
      }
    case Some(d) =>
      MatchPartNameIff(f.name, base, d);
      forall digits | f.name == base + "-" + digits + SUFFIX && digits != [] && AllDigits(digits)
        ensures digits == d
      {
        MatchPartNameIff(f.name, base, digits);
      }
  }

  lemma {:induction false} CollectedAppend(a: seq<WrittenFile>, b: seq<WrittenFile>, base: string)
    ensures Collected(a + b, base) == Collected(a, base) + Collected(b, base)
  {
    if b == [] {
      assert a + b == a;
    } else {
      var init, last := b[..|b| - 1], b[|b| - 1];
      CollectedAppend(a, init, base);
      assert (a + b)[..|a + b| - 1] == a + init && (a + b)[|a + b| - 1] == last;
      AppendAssoc(Collected(a, base), Collected(init, base), PartList(last, base));
    }
  }

  /** The parts found do not depend on the order of the directory listing. */
  lemma {:induction false} CollectedPermutation(a: seq<WrittenFile>, b: seq<WrittenFile>, base: string)
    requires multiset(a) == multiset(b)
    ensures multiset(Collected(a, base)) == multiset(Collected(b, base))
    decreases |a|
  {
    if a != [] {
      var init, x := a[..|a| - 1], a[|a| - 1];
      assert x in multiset(b);
      var k :| 0 <= k < |b| && b[k] == x;
      MultisetLast(a);
      MultisetRemove(b, k);
      CollectedPermutation(init, b[..k] + b[k + 1..], base);
      CollectedRemove(b, k, base);
    }
  }

  /** The parts found in b are those found without its k-th file, plus that file's. */
  lemma {:induction false} CollectedRemove(b: seq<WrittenFile>, k: nat, base: string)
    requires k < |b|
    ensures multiset(Collected(b, base)) ==
      multiset(Collected(b[..k] + b[k + 1..], base)) + multiset(PartList(b[k], base))
  {
    var b1, x, b2 := b[..k], b[k], b[k + 1..];
    assert b == (b1 + [x]) + b2;
    CollectedAppend(b1 + [x], b2, base);
    CollectedAppend(b1, [x], base);
    CollectedAppend(b1, b2, base);
    assert [x][..0] == [];
    assert Collected([x], base) == PartList(x, base);
  }

  /* ------------------------------------------------------------------- sorting */

  lemma {:induction false} MultisetRemove<T>(s: seq<T>, k: nat)
    requires k < |s|
    ensures multiset(s[..k] + s[k + 1..]) == multiset(s) - multiset{s[k]}
  {
    assert s == s[..k] + [s[k]] + s[k + 1..];
  }

  lemma {:induction false} MultisetTail<T>(s: seq<T>)
    requires s != []
    ensures multiset(s[1..]) == multiset(s) - multiset{s[0]}
  {
    assert s == [s[0]] + s[1..];
  }

  lemma {:induction false} MultisetLast<T>(s: seq<T>)
    requires s != []
    ensures multiset(s[..|s| - 1]) == multiset(s) - multiset{s[|s| - 1]}
  {
    MultisetRemove(s, |s| - 1);
    assert s[..|s| - 1] + s[|s|..] == s[..|s| - 1];
  }

  predicate SortedByNumber(parts: seq<Part>)
  {
    forall i, j :: 0 <= i < j < |parts| ==> parts[i].number <= parts[j].number
  }

  predicate StrictlyIncreasing(parts: seq<Part>)
  {
    forall i, j :: 0 <= i < j < |parts| ==> parts[i].number < parts[j].number
  }

  /** Inserts p after every part whose number is not larger. */
  function Insert(p: Part, s: seq<Part>): (r: seq<Part>)
    ensures |r| == |s| + 1 && multiset(r) == multiset(s) + multiset{p}
  {
    if s == [] then [p]
    else if p.number < s[0].number then [p] + s
    else
      assert s == [s[0]] + s[1..];
      [s[0]] + Insert(p, s[1..])
  }

  lemma {:induction false} InsertSorted(p: Part, s: seq<Part>)
    requires SortedByNumber(s)
    ensures SortedByNumber(Insert(p, s))
  {
    if s != [] && p.number >= s[0].number {
      var t := s[1..];
      assert SortedByNumber(t) by {
        forall i, j | 0 <= i < j < |t| ensures t[i].number <= t[j].number {
          assert t[i] == s[i + 1] && t[j] == s[j + 1];
        }
      }
      InsertSorted(p, t);
      var rest := Insert(p, t);
      forall x | x in rest
        ensures s[0].number <= x.number
      {
        assert x in multiset(rest);
        if x != p {
          assert x in multiset(t);
          var k :| 0 <= k < |t| && t[k] == x;
          assert x == s[k + 1];
        }
      }
      ConsSorted(s[0], rest);
    }
  }

  /** A part no later than any of a sorted list, put in front of it, keeps it sorted. */
  lemma {:induction false} ConsSorted(x: Part, r: seq<Part>)
    requires SortedByNumber(r) && forall y | y in r :: x.number <= y.number
    ensures SortedByNumber([x] + r)
  {
    var c := [x] + r;
    forall i, j | 0 <= i < j < |c| ensures c[i].number <= c[j].number {
      assert c[j] == r[j - 1] && c[j] in r;
      if i > 0 {
        assert c[i] == r[i - 1];
      }
    }
  }

  /** The order sort.Slice gives the part files: by part number. sort.Slice is not
      stable; this insertion sort keeps parts with equal numbers in directory order,
      which is one of the orders it may produce. */
  function SortByNumber(parts: seq<Part>): (r: seq<Part>)
    ensures multiset(r) == multiset(parts) && |r| == |parts|
  {
    if parts == [] then []
    else
      assert parts == parts[..|parts| - 1] + [parts[|parts| - 1]];
      Insert(parts[|parts| - 1], SortByNumber(parts[..|parts| - 1]))
  }

  lemma {:induction false} SortByNumberSorted(parts: seq<Part>)
    ensures SortedByNumber(SortByNumber(parts))
  {
    if parts != [] {
      SortByNumberSorted(parts[..|parts| - 1]);
      InsertSorted(parts[|parts| - 1], SortByNumber(parts[..|parts| - 1]));
    }
  }

  /** A sorted arrangement of parts with distinct numbers is unique. */
  lemma {:induction false} SortedPartsUnique(y: seq<Part>, c: seq<Part>)
    requires SortedByNumber(y) && StrictlyIncreasing(c) && multiset(y) == multiset(c)
    ensures y == c
  {
    assert |y| == |multiset(y)| == |c|;
    if y != [] {
      SortedPartsHead(y, c);
      MultisetTail(y);
      MultisetTail(c);
      assert SortedByNumber(y[1..]) by {
        forall i, j | 0 <= i < j < |y[1..]| ensures y[1..][i].number <= y[1..][j].number {
          assert y[1..][i] == y[i + 1] && y[1..][j] == y[j + 1];
        }
      }
      assert StrictlyIncreasing(c[1..]) by {
        forall i, j | 0 <= i < j < |c[1..]| ensures c[1..][i].number < c[1..][j].number {
          assert c[1..][i] == c[i + 1] && c[1..][j] == c[j + 1];
        }
      }
      SortedPartsUnique(y[1..], c[1..]);
      assert y == [y[0]] + y[1..] && c == [c[0]] + c[1..];
    }
  }

  /** Both arrangements start with the part of least number. */
  lemma {:induction false} SortedPartsHead(y: seq<Part>, c: seq<Part>)
    requires y != [] && SortedByNumber(y) && StrictlyIncreasing(c) && multiset(y) == multiset(c)
    ensures c != [] && y[0] == c[0]
  {
    assert y[0] in multiset(c);
    var k :| 0 <= k < |c| && c[k] == y[0];
    assert c[0] in multiset(y);
    var m :| 0 <= m < |y| && y[m] == c[0];
    assert y[0].number <= y[m].number;
    assert k == 0;
  }

  function Numbers(parts: seq<Part>): (nums: seq<nat>)
    ensures |nums| == |parts| && forall i :: 0 <= i < |parts| ==> nums[i] == parts[i].number
  {
    seq(|parts|, i requires 0 <= i < |parts| => parts[i].number)
  }

  predicate SortedNats(nums: seq<nat>)
  {
    forall i, j :: 0 <= i < j < |nums| ==> nums[i] <= nums[j]
  }

  /** A sorted arrangement of numbers is unique. */
  lemma {:induction false} SortedNatsUnique(a: seq<nat>, b: seq<nat>)
    requires SortedNats(a) && SortedNats(b) && multiset(a) == multiset(b)
    ensures a == b
  {
    assert |a| == |multiset(a)| == |b|;
    if a != [] {
      SortedNatsHead(a, b);
      MultisetTail(a);
      MultisetTail(b);
      SortedNatsTail(a);
      SortedNatsTail(b);
      SortedNatsUnique(a[1..], b[1..]);
      assert a == [a[0]] + a[1..] && b == [b[0]] + b[1..];
    }
  }

  lemma {:induction false} SortedNatsTail(a: seq<nat>)
    requires a != [] && SortedNats(a)
    ensures SortedNats(a[1..])
  {
    forall i, j | 0 <= i < j < |a[1..]| ensures a[1..][i] <= a[1..][j] {
      assert a[1..][i] == a[i + 1] && a[1..][j] == a[j + 1];
    }
  }

  /** Both arrangements start with the least number. */
  lemma {:induction false} SortedNatsHead(a: seq<nat>, b: seq<nat>)
    requires a != [] && SortedNats(a) && SortedNats(b) && multiset(a) == multiset(b)
    ensures b != [] && a[0] == b[0]
  {
    assert a[0] in multiset(b);
    var k :| 0 <= k < |b| && b[k] == a[0];
    assert b[0] in multiset(a);
    var m :| 0 <= m < |a| && a[m] == b[0];
    assert a[0] <= a[m] && b[0] <= b[k];
  }

  lemma NumbersLastMultiset(s: seq<Part>)
    requires s != []
    ensures multiset(Numbers(s)) == multiset(Numbers(s[..|s| - 1])) + multiset{s[|s| - 1].number}
  {
    assert Numbers(s) == Numbers(s[..|s| - 1]) + [s[|s| - 1].number];
  }

  lemma NumbersConsMultiset(x: Part, s: seq<Part>)
    ensures multiset(Numbers([x] + s)) == multiset{x.number} + multiset(Numbers(s))
  {
    NumbersCons(x, s);
  }

  lemma {:induction false} NumbersCons(x: Part, s: seq<Part>)
    ensures Numbers([x] + s) == [x.number] + Numbers(s)
  {
  }

  lemma {:induction false} InsertNumbers(p: Part, s: seq<Part>)
    ensures multiset(Numbers(Insert(p, s))) == multiset(Numbers(s)) + multiset{p.number}
  {
    if s == [] {
      NumbersConsMultiset(p, s);
    } else if p.number < s[0].number {
      NumbersConsMultiset(p, s);
    } else {
      var t := s[1..];
      assert s == [s[0]] + t;
      InsertNumbers(p, t);
      NumbersConsMultiset(s[0], Insert(p, t));
      NumbersConsMultiset(s[0], t);
    }
  }

  lemma {:induction false} SortNumbers(parts: seq<Part>)
    ensures multiset(Numbers(SortByNumber(parts))) == multiset(Numbers(parts))
  {
    if parts != [] {
      var init, p := parts[..|parts| - 1], parts[|parts| - 1];
      SortNumbers(init);
      InsertNumbers(p, SortByNumber(init));
      NumbersLastMultiset(parts);
    }
  }

  /** The part numbers of the sorted part files are exactly what sort.Ints makes of the
      collected part numbers: any sorted arrangement of those numbers. */
  lemma {:induction false} SortedNumbersAgree(parts: seq<Part>, sortedInts: seq<nat>)
    requires SortedNats(sortedInts) && multiset(sortedInts) == multiset(Numbers(parts))
    ensures sortedInts == Numbers(SortByNumber(parts))
  {
    SortByNumberSorted(parts);
    SortNumbers(parts);
    SortedNatsUnique(sortedInts, Numbers(SortByNumber(parts)));
  }

  /* ----------------------------------------------------------- missing parts */

  function MissingRange(lo: nat, hi: nat): (r: seq<nat>)
    requires lo <= hi
    ensures |r| == hi - lo && forall k :: 0 <= k < |r| ==> r[k] == lo + k
  {
    seq(hi - lo, k requires 0 <= k < hi - lo => lo + k)
  }

  /** The report of the gap check from position i on: at the first position whose number
      exceeds its expected value i + 1, the numbers from i + 1 below it. */
  function FirstGap(nums: seq<nat>, i: nat): (r: Option<seq<nat>>)
    requires i <= |nums|
    ensures r.Some? ==>
      (r.value != [] && i < r.value[0] &&
       forall k :: 0 < k < |r.value| ==> r.value[k] == r.value[k - 1] + 1)
    decreases |nums| - i
  {
    if i == |nums| then None
    else if nums[i] > i + 1 then Some(MissingRange(i + 1, nums[i]))
    else FirstGap(nums, i + 1)
  }

  /** The loop that checks the sorted part numbers for missing parts. */
  method CheckMissing(partNumbers: seq<nat>) returns (missing: Option<seq<nat>>)
    ensures missing == FirstGap(partNumbers, 0)
  {
    var i := 0;
    while i < |partNumbers|
      invariant i <= |partNumbers| && FirstGap(partNumbers, 0) == FirstGap(partNumbers, i)
    {
      var partNum, expectedNum := partNumbers[i], i + 1;
      if partNum != expectedNum {
        if partNum > expectedNum {
          var missingParts: seq<nat> := [];
          for j := expectedNum to partNum
            invariant missingParts == MissingRange(expectedNum, j)
          {
            missingParts := missingParts + [j];
          }
          return Some(missingParts);
        }
      }
      i := i + 1;
    }
    return None;
  }

  /** The check passes exactly when no number exceeds its position plus one: numbers
      below their expected value, duplicates included, are let through. */
  lemma {:induction false} NoGapIff(nums: seq<nat>, i: nat)
    requires i <= |nums|
    ensures FirstGap(nums, i) == None <==> forall j :: i <= j < |nums| ==> nums[j] <= j + 1
    decreases |nums| - i
  {
    if i < |nums| {
      NoGapIff(nums, i + 1);
    }
  }

  /** Where the check stops: the first position g whose number exceeds g + 1. */
  lemma {:induction false} GapAt(nums: seq<nat>, i: nat) returns (g: nat)
    requires i <= |nums| && FirstGap(nums, i).Some?
    ensures i <= g < |nums| && nums[g] > g + 1
    ensures forall j :: i <= j < g ==> nums[j] <= j + 1
    ensures FirstGap(nums, i) == Some(MissingRange(g + 1, nums[g]))
    decreases |nums| - i
  {
    if nums[i] > i + 1 {
      g := i;
    } else {
      g := GapAt(nums, i + 1);
    }
  }

  /** On sorted numbers every part the check reports missing is indeed absent, and at
      least one is reported. */
  lemma {:induction false} ReportedPartsAbsent(nums: seq<nat>)
    requires SortedNats(nums) && FirstGap(nums, 0).Some?
    ensures FirstGap(nums, 0).value != []
    ensures forall x :: x in FirstGap(nums, 0).value ==> 1 <= x && x !in nums
  {
    var g := GapAt(nums, 0);
    var m := FirstGap(nums, 0).value;
    forall x | x in m
      ensures 1 <= x && x !in nums
    {
      forall j | 0 <= j < |nums|
        ensures nums[j] != x
      {
        if j >= g {
          assert nums[g] <= nums[j];
        }
      }
    }
  }

  /** For distinct positive numbers the check passes exactly when they are 1, 2, ..., n. */
  lemma {:induction false} ContiguousIff(nums: seq<nat>)
    requires forall i, j :: 0 <= i < j < |nums| ==> nums[i] < nums[j]
    requires forall i :: 0 <= i < |nums| ==> nums[i] >= 1
    ensures FirstGap(nums, 0) == None <==> forall i :: 0 <= i < |nums| ==> nums[i] == i + 1
  {
    NoGapIff(nums, 0);
    AtLeastPosition(nums, |nums|);
  }

  lemma {:induction false} AtLeastPosition(nums: seq<nat>, k: nat)
    requires k <= |nums|
    requires forall i, j :: 0 <= i < j < |nums| ==> nums[i] < nums[j]
    requires forall i :: 0 <= i < |nums| ==> nums[i] >= 1
    ensures forall i :: 0 <= i < k ==> nums[i] >= i + 1
  {
    if k > 0 {
      AtLeastPosition(nums, k - 1);
      if k > 1 {
        assert nums[k - 2] < nums[k - 1];
      }
    }
  }

  /** Parts 1 to m - 1 and m + 1 to k present, part m missing (m < k): part m alone is
      reported. */
  lemma {:induction false} OneMissingPart(nums: seq<nat>, m: nat)
    requires 1 <= m < |nums| + 1
    requires forall i :: 0 <= i < m - 1 ==> nums[i] == i + 1
    requires forall i :: m - 1 <= i < |nums| ==> nums[i] == i + 2
    ensures FirstGap(nums, 0) == Some([m])
  {
    SkipPresent(nums, 0, m - 1);
    assert MissingRange(m, m + 1) == [m];
  }

  lemma {:induction false} SkipPresent(nums: seq<nat>, i: nat, g: nat)
    requires i <= g <= |nums|
    requires forall j :: i <= j < g ==> nums[j] == j + 1
    ensures FirstGap(nums, i) == FirstGap(nums, g)
    decreases g - i
  {
    if i < g {
      SkipPresent(nums, i + 1, g);
    }
  }

  /** The check does not see a missing last part: parts 1 to k - 1 pass. */
  lemma {:induction false} MissingLastPartUndetected(k: nat)
    requires k >= 2
    ensures FirstGap(seq(k - 1, i requires 0 <= i < k - 1 => (i + 1) as nat), 0) == None
  {
    NoGapIff(seq(k - 1, i requires 0 <= i < k - 1 => (i + 1) as nat), 0);
  }

  /* ------------------------------------------------------------------- joining */

  function DataOf(parts: seq<Part>): (datas: seq<seq<Byte>>)
    ensures |datas| == |parts| && forall i :: 0 <= i < |parts| ==> datas[i] == parts[i].data
  {
    seq(|parts|, i requires 0 <= i < |parts| => parts[i].data)
  }

  /** A reported gap is non-empty and names only positive numbers that no part found
      carries. */
  lemma {:induction false} MissingPartsAbsent(parts: seq<Part>)
    requires FirstGap(Numbers(SortByNumber(parts)), 0).Some?
    ensures FirstGap(Numbers(SortByNumber(parts)), 0).value != []
    ensures forall x :: x in FirstGap(Numbers(SortByNumber(parts)), 0).value ==> 1 <= x && x !in Numbers(parts)
  {
    var nums := Numbers(SortByNumber(parts));
    SortByNumberSorted(parts);
    SortNumbers(parts);
    ReportedPartsAbsent(nums);
    forall x | x in FirstGap(nums, 0).value
      ensures x !in Numbers(parts)
    {
      assert x !in multiset(nums);
    }
  }

  /** The loop that reads the parts in order and appends their contents. */
  method JoinParts(parts: seq<Part>) returns (combinedData: seq<Byte>)
    ensures combinedData == Concat(DataOf(parts))
  {
    combinedData := [];
    for i := 0 to |parts|
      invariant combinedData == Concat(DataOf(parts[..i]))
    {
      assert DataOf(parts[..i + 1])[..i] == DataOf(parts[..i]);
      combinedData := combinedData + parts[i].data;
    }
    assert parts[..|parts|] == parts;
  }

  /** decompressSplit up to the joined archive bytes. */
  function SplitJoin(src: string, files: seq<WrittenFile>): (r: Result<seq<Byte>, JoinError>)
    ensures r == Failure(InvalidSplitFormat) <==> ParseSplitName(src).None?
    ensures r.Failure? && r.error.MissingParts? ==>
      r.error.missing != [] &&
      forall x :: x in r.error.missing ==> 1 <= x && x !in Numbers(Collected(files, r.error.base))
  {
    match ParseSplitName(src)
    case None => Failure(InvalidSplitFormat)
    case Some(names) =>
      var baseFileName := names.0;
      var base := Base(baseFileName);
      var parts := Collected(files, base);
      if parts == [] then Failure(NoPartFiles(baseFileName))
      else
        var sorted := SortByNumber(parts);
        match FirstGap(Numbers(sorted), 0)
        case Some(missing) =>
          MissingPartsAbsent(parts);
          Failure(MissingParts(base, missing))
        case None => Success(Concat(DataOf(sorted)))
  }

  method DecompressSplit(src: string, files: seq<WrittenFile>) returns (r: Result<seq<Byte>, JoinError>)
    ensures r == SplitJoin(src, files)
  {
    var names := ParseSplitName(src);
    if names.None? {
      return Failure(InvalidSplitFormat);
    }
    var baseFileName := names.value.0;
    var base := Base(baseFileName);
    var parts := CollectParts(files, base);
    if |parts| == 0 {
      return Failure(NoPartFiles(baseFileName));
    }
    assert parts == Collected(files, base) != [];
    var sorted := SortByNumber(parts);
    var missing := CheckMissing(Numbers(sorted));
    if missing.Some? {
      return Failure(MissingParts(base, missing.value));
    }
    var combinedData := JoinParts(sorted);
    return Success(combinedData);
  }
}
