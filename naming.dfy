/** File names of the archive tool: the output name of a compression, the names of split
    parts, and the two fixed patterns that recognise and parse a part name. Paths follow
    Go's path/filepath on a host whose separator is '/'. */
module Naming {

  import opened Wrappers

  const SUFFIX: string := ".chin"

  /* ------------------------------------------------------------- strings and paths */

  predicate HasSuffix(s: string, suffix: string)
  {
    |suffix| <= |s| && s[|s| - |suffix|..] == suffix
  }

  /** strings.TrimSuffix */
  function TrimSuffix(s: string, suffix: string): (r: string)
    ensures HasSuffix(s, suffix) ==> r + suffix == s
    ensures !HasSuffix(s, suffix) ==> r == s
  {
    if HasSuffix(s, suffix) then s[..|s| - |suffix|] else s
  }

  /** s without its trailing '/' characters. */
  function StripTrailingSlashes(s: string): (r: string)
    ensures |r| <= |s| && r == s[..|r|]
    ensures r == [] || r[|r| - 1] != '/'
    ensures forall i :: |r| <= i < |s| ==> s[i] == '/'
  {
    if s != [] && s[|s| - 1] == '/' then StripTrailingSlashes(s[..|s| - 1]) else s
  }

  /** The part of s after its last '/', or all of s when it has none. */
  function LastElement(s: string): (r: string)
    ensures |r| <= |s| && r == s[|s| - |r|..]
    ensures '/' !in r
    ensures |r| < |s| ==> s[|s| - |r| - 1] == '/'
  {
    if s == [] || s[|s| - 1] == '/' then [] else LastElement(s[..|s| - 1]) + [s[|s| - 1]]
  }

  /** filepath.Base: the last element of a path, trailing slashes ignored; "." for the
      empty path and "/" for a path of slashes only. */
  function Base(path: string): (r: string)
    ensures r != []
    ensures r == "/" || '/' !in r
  {
    if path == [] then "."
    else
      var stripped := StripTrailingSlashes(path);
      if stripped == [] then "/" else LastElement(stripped)
  }

  /** filepath.Ext: the suffix from the last '.' of the last path element, or "". */
  function Ext(path: string): (r: string)
    ensures |r| <= |path| && r == path[|path| - |r|..]
    ensures r != [] ==> r[0] == '.' && '/' !in r && '.' !in r[1..]
  {
    if path == [] || path[|path| - 1] == '/' then []
    else if path[|path| - 1] == '.' then "."
    else
      var e := Ext(path[..|path| - 1]);
      if e == [] then [] else e + [path[|path| - 1]]
  }

  /** A path ending in an extension has that extension. */
  lemma {:induction false} ExtOfSuffix(p: string, e: string)
    requires e != [] && e[0] == '.'
    requires forall i :: 1 <= i < |e| ==> e[i] != '.' && e[i] != '/'
    ensures Ext(p + e) == e
    decreases |e|
  {
    if |e| == 1 {
      assert (p + e)[|p + e| - 1] == '.';
    } else {
      var init, last := e[..|e| - 1], e[|e| - 1];
      ExtOfSuffix(p, init);
      assert p + e == (p + init) + [last];
      ExtAppendChar(p + init, last);
      assert init + [last] == e;
    }
  }

  /** A character other than '/' and '.' extends an extension. */
  lemma {:induction false} ExtAppendChar(q: string, c: char)
    requires c != '/' && c != '.' && Ext(q) != []
    ensures Ext(q + [c]) == Ext(q) + [c]
  {
    assert (q + [c])[..|q|] == q;
  }

  /** With no extension, the last path element has no '.'. */
  lemma {:induction false} NoExtNoDot(path: string)
    requires Ext(path) == []
    ensures '.' !in LastElement(path)
  {
    if path != [] && path[|path| - 1] != '/' {
      NoExtNoDot(path[..|path| - 1]);
    }
  }

  /** A path with no '/' is its own base name. */
  lemma {:induction false} BaseOfPlainName(name: string)
    requires name != [] && '/' !in name
    ensures Base(name) == name
  {
    assert StripTrailingSlashes(name) == name;
    PlainLastElement(name);
  }

  lemma {:induction false} PlainLastElement(s: string)
    requires '/' !in s
    ensures LastElement(s) == s
  {
    if s != [] {
      var init := s[..|s| - 1];
      assert s[|s| - 1] != '/';
      PlainLastElement(init);
      assert LastElement(s) == LastElement(init) + [s[|s| - 1]];
      assert init + [s[|s| - 1]] == s;
    }
  }

  /* ------------------------------------------------------------ output names */

  /** The name of the archive compress writes for one source, placed in the current
      directory: a directory keeps its name, a file loses its extension. */
  function ArchiveName(src: string, isDir: bool): (r: string)
    ensures HasSuffix(r, SUFFIX)
  {
    if isDir then Base(src) + SUFFIX
    else TrimSuffix(Base(src), Ext(Base(src))) + SUFFIX
  }

  /** The name of the archive compressMultiple writes: the first source's base name, its
      extension removed when it contains a '.', followed by "-all.chin". */
  function MultiArchiveName(sources: seq<string>): (r: string)
    requires |sources| > 0
    ensures HasSuffix(r, "-all" + SUFFIX)
  {
    var first := Base(sources[0]);
    var stem := if '.' in first then TrimSuffix(first, Ext(first)) else first;
    var tail := "-all" + SUFFIX;
    assert (stem + tail)[|stem + tail| - |tail|..] == tail;
    stem + tail
  }

  /** Naming of a file source: the stem is the base name up to its extension, and the
      stem keeps no '.' from the extension; a directory's name is kept whole. */
  lemma {:induction false} ArchiveNameShape(src: string, isDir: bool)
    ensures HasSuffix(ArchiveName(src, isDir), SUFFIX)
    ensures var b := Base(src); var stem := TrimSuffix(ArchiveName(src, isDir), SUFFIX);
      if isDir then stem == b
      else stem + Ext(b) == b && (Ext(b) == [] || Ext(b)[0] == '.')
  {
    var r := ArchiveName(src, isDir);
    assert r[|r| - |SUFFIX|..] == SUFFIX;
    var b := Base(src);
    if !isDir {
      assert HasSuffix(b, Ext(b)) by {
        assert b[|b| - |Ext(b)|..] == Ext(b);
      }
    }
  }

  /** Naming of several sources: the first source's base name, its extension removed
      exactly when it has a '.', followed by "-all.chin". */
  lemma {:induction false} MultiArchiveNameShape(sources: seq<string>)
    requires |sources| > 0
    ensures var b := Base(sources[0]);
      var stem := TrimSuffix(MultiArchiveName(sources), "-all" + SUFFIX);
      ('.' !in b ==> stem == b) &&
      ('.' in b ==> Ext(b) != [] && Ext(b)[0] == '.' && stem + Ext(b) == b)
  {
    var b := Base(sources[0]);
    var r := MultiArchiveName(sources);
    var stem := if '.' in b then TrimSuffix(b, Ext(b)) else b;
    assert r == stem + ("-all" + SUFFIX);
    assert r[..|r| - |"-all" + SUFFIX|] == stem;
    if '.' in b {
      if Ext(b) == [] {
        NoExtNoDot(b);
        if b != "/" {
          PlainLastElement(b);
        }
        assert false;
      }
      assert HasSuffix(b, Ext(b)) by {
        assert b[|b| - |Ext(b)|..] == Ext(b);
      }
    }
  }

  /* ----------------------------------------------------------------- decimals */

  predicate IsDigit(c: char)
  {
    '0' <= c <= '9'
  }

  predicate AllDigits(s: string)
  {
    forall i :: 0 <= i < |s| ==> IsDigit(s[i])
  }

  /** strconv.Atoi on a string of decimal digits, without its 64-bit range check. */
  function DigitsValue(s: string): (r: nat)
    requires AllDigits(s)
    ensures s != [] ==> r % 10 == (s[|s| - 1] - '0') as nat
    ensures r == 0 <==> forall i :: 0 <= i < |s| ==> s[i] == '0'
  {
    if s == [] then 0 else 10 * DigitsValue(s[..|s| - 1]) + (s[|s| - 1] - '0') as nat
  }

  /** strconv.Atoi ignores leading zeros: "-01.chin" names part 1. */
  lemma {:induction false} DigitsValueLeadingZero(s: string)
    requires AllDigits(s)
    ensures AllDigits("0" + s) && DigitsValue("0" + s) == DigitsValue(s)
  {
    if s != [] {
      var init := s[..|s| - 1];
      DigitsValueLeadingZero(init);
      assert ("0" + s)[..|s|] == "0" + init;
    }
  }

  /** fmt's %d of a non-negative number. */
  function NatToString(n: nat): (r: string)
    ensures r != [] && AllDigits(r)
  {
    if n < 10 then [('0' as int + n) as char]
    else NatToString(n / 10) + [('0' as int + n % 10) as char]
  }

  /** Parsing the decimal form of n gives n back. */
  lemma {:induction false} NatToStringRoundTrip(n: nat)
    ensures DigitsValue(NatToString(n)) == n
  {
    var s := NatToString(n);
    if n >= 10 {
      NatToStringRoundTrip(n / 10);
      assert s[..|s| - 1] == NatToString(n / 10);
    }
  }

  /** The largest number strconv.Atoi accepts. */
  const MAX_INT: nat := 0x7fff_ffff_ffff_ffff

  /* --------------------------------------------------------------- part names */

  /** The name of part i of a split archive: the archive name without ".chin", then
      "-<i>.chin". */
  function PartName(outFile: string, i: nat): (r: string)
    ensures HasSuffix(r, SUFFIX) && |r| > |TrimSuffix(outFile, SUFFIX)| + 1 + |SUFFIX|
    ensures r[..|TrimSuffix(outFile, SUFFIX)|] == TrimSuffix(outFile, SUFFIX)
  {
    TrimSuffix(outFile, SUFFIX) + "-" + NatToString(i) + SUFFIX
  }

  /** The length of the run of digits at the end of s. */
  function TrailingDigits(s: string): (n: nat)
    ensures n <= |s|
    ensures forall i :: |s| - n <= i < |s| ==> IsDigit(s[i])
    ensures n < |s| ==> !IsDigit(s[|s| - n - 1])
  {
    if s != [] && IsDigit(s[|s| - 1]) then TrailingDigits(s[..|s| - 1]) + 1 else 0
  }

  /** Where a match of "-\d+\.chin$" puts its '-': at k, with only digits, at least one,
      between it and the ".chin" that ends s. */
  ghost predicate DashAt(s: string, k: int)
  {
    HasSuffix(s, SUFFIX) && 0 <= k < |s| - |SUFFIX| - 1 && s[k] == '-' &&
    forall i :: k < i < |s| - |SUFFIX| ==> IsDigit(s[i])
  }

  /** The position of the only '-' a match of "-\d+\.chin$" can use: the one just before
      the digits that precede the final ".chin". */
  function DashIndex(s: string): int
    requires HasSuffix(s, SUFFIX)
  {
    var body := s[..|s| - |SUFFIX|];
    |body| - TrailingDigits(body) - 1
  }

  /** regexp.MatchString(`-\d+\.chin$`, s): the test decompress uses to treat an input as
      a part of a split archive. */
  predicate IsSplitName(s: string)
    ensures IsSplitName(s) ==> |s| >= 2 + |SUFFIX|
  {
    HasSuffix(s, SUFFIX) &&
    var body, k := s[..|s| - |SUFFIX|], DashIndex(s);
    k + 1 < |body| && 0 <= k && body[k] == '-'
  }

  /** The pattern matches exactly the names that have a '-' followed by one or more
      digits and the final ".chin", and that '-' is the one DashIndex finds. */
  lemma {:induction false} SplitNameMatches(s: string)
    ensures IsSplitName(s) <==> exists k :: DashAt(s, k)
    ensures forall k :: DashAt(s, k) ==> k == DashIndex(s)
  {
    if IsSplitName(s) {
      assert DashAt(s, DashIndex(s));
    }
  }

  /** The position just after the last '\n' of s, or 0: the leftmost start of a match of
      ".+" that ends at |s|, since '.' does not match a newline. */
  function LineStart(s: string): (p: nat)
    ensures p <= |s|
    ensures '\n' !in s[p..]
    ensures p > 0 ==> s[p - 1] == '\n'
  {
    if s == [] || s[|s| - 1] == '\n' then |s|
    else
      var p := LineStart(s[..|s| - 1]);
      assert s[p..] == s[..|s| - 1][p..] + [s[|s| - 1]];
      p
  }

  /** regexp `(.+)-(\d+)\.chin$` and FindStringSubmatch as decompressSplit uses it: the
      base name (group 1) and the part number's digits (group 2), or None when the name
      has no such match. */
  function ParseSplitName(s: string): (r: Option<(string, string)>)
    ensures r.Some? ==> IsSplitName(s) && r.value.0 != [] && r.value.1 != []
    ensures r.Some? ==> AllDigits(r.value.1) && '\n' !in r.value.0
    ensures r.Some? ==>
      (HasSuffix(s, r.value.0 + "-" + r.value.1 + SUFFIX) &&
       DashIndex(s) == |s| - |SUFFIX| - |r.value.1| - 1 &&
       LineStart(s[..DashIndex(s)]) == DashIndex(s) - |r.value.0|)
    ensures IsSplitName(s) && r.None? ==> LineStart(s[..DashIndex(s)]) == DashIndex(s)
  {
    if !IsSplitName(s) then None
    else
      var k := DashIndex(s);
      var p := LineStart(s[..k]);
      if p == k then None
      else
        var base, digits := s[p..k], s[k + 1..|s| - |SUFFIX|];
        assert s[p..] == base + "-" + digits + SUFFIX;
        Some((base, digits))
  }

  /** The pattern `^<base>-(\d+)\.chin$` decompressSplit matches the files of the
      directory against: the digits of the part number, when name is one. */
  function MatchPartName(name: string, base: string): (r: Option<string>)
    ensures r.Some? ==> r.value != [] && AllDigits(r.value) && name == base + "-" + r.value + SUFFIX
  {
    if |name| >= |base| + 1 + 1 + |SUFFIX| && name[..|base|] == base && name[|base|] == '-'
      && HasSuffix(name, SUFFIX) && AllDigits(name[|base| + 1..|name| - |SUFFIX|])
    then Some(name[|base| + 1..|name| - |SUFFIX|])
    else None
  }

  /** A name matches the part pattern of a base exactly when it is that base, '-', one or
      more digits and ".chin"; the digits are returned. */
  lemma {:induction false} MatchPartNameIff(name: string, base: string, digits: string)
    ensures MatchPartName(name, base) == Some(digits) <==>
      (name == base + "-" + digits + SUFFIX && digits != [] && AllDigits(digits))
  {
    if name == base + "-" + digits + SUFFIX && digits != [] && AllDigits(digits) {
      assert name[..|base|] == base;
      assert name[|base| + 1..|name| - |SUFFIX|] == digits;
      assert name[|name| - |SUFFIX|..] == SUFFIX;
    }
    if MatchPartName(name, base) == Some(digits) {
      assert name == name[..|base|] + "-" + name[|base| + 1..|name| - |SUFFIX|] + name[|name| - |SUFFIX|..];
    }
  }

  /** Every part name the splitter writes is recognised as split and parses back to the
      archive's base name and the part number, provided the base name is not empty and
      has no newline. */
  lemma {:induction false} PartNameRoundTrip(outFile: string, i: nat)
    requires TrimSuffix(outFile, SUFFIX) != [] && '\n' !in TrimSuffix(outFile, SUFFIX)
    ensures IsSplitName(PartName(outFile, i))
    ensures ParseSplitName(PartName(outFile, i)) == Some((TrimSuffix(outFile, SUFFIX), NatToString(i)))
    ensures DigitsValue(NatToString(i)) == i
  {
    var base, digits := TrimSuffix(outFile, SUFFIX), NatToString(i);
    var s := PartName(outFile, i);
    var k := |base|;
    assert s[|s| - |SUFFIX|..] == SUFFIX;
    assert DashAt(s, k) by {
      assert s[k + 1..|s| - |SUFFIX|] == digits;
    }
    SplitNameMatches(s);
    assert DashIndex(s) == k;
    assert s[..k] == base;
    LineStartOfLine(base);
    assert s[0..k] == base;
    NatToStringRoundTrip(i);
  }

  /** A name that is all extension, such as ".profile", leaves an empty stem. */
  lemma {:induction false} DotfileArchiveName(name: string)
    requires name != [] && name[0] == '.'
    requires forall j :: 1 <= j < |name| ==> name[j] != '.' && name[j] != '/'
    ensures ArchiveName(name, false) == SUFFIX
  {
    assert '/' !in name by {
      forall j | 0 <= j < |name| ensures name[j] != '/' {
        if j == 0 { assert name[0] == '.'; }
      }
    }
    BaseOfPlainName(name);
    ExtOfSuffix([], name);
    assert [] + name == name;
  }

  /** The part names of the archive ".chin" have the shape of part names but no base name
      for `(.+)` to capture. */
  lemma {:induction false} EmptyBasePartName(i: nat)
    ensures IsSplitName(PartName(SUFFIX, i))
    ensures ParseSplitName(PartName(SUFFIX, i)) == None
  {
    var s := PartName(SUFFIX, i);
    var digits := NatToString(i);
    assert TrimSuffix(SUFFIX, SUFFIX) == [];
    assert s == "-" + digits + SUFFIX;
    assert s[|s| - |SUFFIX|..] == SUFFIX;
    assert DashAt(s, 0) by {
      assert s[1..|s| - |SUFFIX|] == digits;
    }
    SplitNameMatches(s);
  }

  lemma {:induction false} LineStartOfLine(s: string)
    requires '\n' !in s
    ensures LineStart(s) == 0
  {
    if s != [] {
      assert '\n' !in s[..|s| - 1];
      LineStartOfLine(s[..|s| - 1]);
    }
  }

  /** The names the splitter writes for different parts of one archive differ. */
  lemma {:induction false} PartNamesDistinct(outFile: string, i: nat, j: nat)
    requires TrimSuffix(outFile, SUFFIX) != [] && '\n' !in TrimSuffix(outFile, SUFFIX)
    requires i != j
    ensures PartName(outFile, i) != PartName(outFile, j)
  {
    PartNameRoundTrip(outFile, i);
    PartNameRoundTrip(outFile, j);
  }
}
