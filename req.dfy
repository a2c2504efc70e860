/** The requirements-filename generator of vip.

    For a prefix such as `devel` and a version such as (2, 7, 3) it produces,
    in this order,

      requirements.txt, requirements-2.txt, requirements-27.txt, requirements-273.txt,
      devel-requirements.txt, devel-requirements-2.txt, ..., devel-requirements-273.txt

    optionally joined onto a source directory. Python's `None` and `''` are
    both false for `prefix` and `source_dir`, so both are modelled as `""`.
 */
module Req {

  /** One element of the `version` iterable: an integer (as in a version tuple)
      or a string (as the characters of a version string are). */
  datatype VersionItem = Int(n: int) | Str(s: string)

  /** Python truthiness of a version element. */
  predicate Truthy(v: VersionItem) {
    match v
    case Int(n) => n != 0
    case Str(s) => s != ""
  }

  predicate IsDigit(c: char) {
    '0' <= c <= '9'
  }

  function DigitChar(d: nat): (c: char)
    requires d < 10
    ensures IsDigit(c) && c as int - '0' as int == d
  {
    ['0', '1', '2', '3', '4', '5', '6', '7', '8', '9'][d]
  }

  /** Decimal digits of a natural number, most significant first. */
  function NatToString(n: nat): (r: string)
    ensures r != [] && forall k :: 0 <= k < |r| ==> IsDigit(r[k])
    ensures n < 10 <==> |r| == 1
  {
    if n < 10 then [DigitChar(n)] else NatToString(n / 10) + [DigitChar(n % 10)]
  }

  /** Python `str` of an int. */
  function IntToString(n: int): string {
    if n < 0 then "-" + NatToString(-n) else NatToString(n)
  }

  /** The value of a decimal digit character. */
  function DigitValue(c: char): int {
    c as int - '0' as int
  }

  /** The number a string of decimal digits denotes, read from the left: each
      digit multiplies the value read so far by ten and adds its own value. */
  function DecimalValue(s: string): int {
    if s == [] then 0 else DecimalValue(s[..|s| - 1]) * 10 + DigitValue(s[|s| - 1])
  }

  /** The digits of `n` denote `n`. */
  lemma {:induction false} NatToStringValue(n: nat)
    ensures DecimalValue(NatToString(n)) == n
  {
    var s := NatToString(n);
    if n < 10 {
      assert s[..0] == [];
    } else {
      NatToStringValue(n / 10);
      assert s[..|s| - 1] == NatToString(n / 10);
    }
  }

  /** A number of two or more digits does not start with `0`. */
  lemma {:induction false} NatToStringNoLeadingZero(n: nat)
    requires n >= 10
    ensures NatToString(n)[0] != '0'
  {
    var high := NatToString(n / 10);
    assert NatToString(n)[0] == high[0];
    if n / 10 >= 10 {
      NatToStringNoLeadingZero(n / 10);
    } else {
      assert high == [DigitChar(n / 10)];
    }
  }

  /** `str` of a non-negative int is its digits; of a negative int, a minus
      sign followed by the digits of its magnitude. */
  lemma IntToStringValue(n: int)
    ensures n >= 0 ==> DecimalValue(IntToString(n)) == n
    ensures n < 0 ==> |IntToString(n)| >= 2 && IntToString(n)[0] == '-'
                      && DecimalValue(IntToString(n)[1..]) == -n
    ensures forall k :: (if n < 0 then 1 else 0) <= k < |IntToString(n)| ==> IsDigit(IntToString(n)[k])
  {
    if n < 0 {
      NatToStringValue(-n);
      assert IntToString(n)[1..] == NatToString(-n);
    } else {
      NatToStringValue(n);
    }
  }

  /** `str(-3)` is `"-3"` and `str(10)` is `"10"`. */
  lemma IntToStringExamples()
    ensures IntToString(-3) == "-3"
    ensures IntToString(10) == "10"
  {
    assert NatToString(1) == "1";
    assert NatToString(0) == "0";
  }

  /** Python `str` of a version element. */
  function ItemToString(v: VersionItem): string {
    match v
    case Int(n) => IntToString(n)
    case Str(s) => s
  }

  /** Iterating a Python string yields its characters as one-character strings. */
  function FromString(s: string): seq<VersionItem> {
    seq(|s|, k requires 0 <= k < |s| => Str([s[k]]))
  }

  /** Whether the comprehension keeps the element: truthy and not `'.'`. */
  predicate Kept(v: VersionItem) {
    Truthy(v) && v != Str(".")
  }

  /** The string of every kept version element, in order. */
  function Segments(version: seq<VersionItem>): (r: seq<string>)
    ensures |r| <= |version|
    ensures forall k :: 0 <= k < |r| ==> r[k] != "" && r[k] != "."
  {
    if version == [] then []
    else if Kept(version[0]) then [ItemToString(version[0])] + Segments(version[1..])
    else Segments(version[1..])
  }

  /** The segments written one after another. */
  function Concat(segs: seq<string>): string {
    if segs == [] then "" else Concat(segs[..|segs| - 1]) + segs[|segs| - 1]
  }

  /** The empty suffix, then for each segment a dash followed by that segment
      and every segment before it. */
  function Suffixes(segs: seq<string>): (r: seq<string>)
    ensures |r| == |segs| + 1 && r[0] == ""
  {
    [""] + seq(|segs|, i requires 0 <= i < |segs| => "-" + Concat(segs[..i + 1]))
  }

  /** The empty prefix, then the prefix followed by a dash when it is non-empty. */
  function Prefixes(prefix: string): (r: seq<string>)
    ensures |r| == (if prefix == "" then 1 else 2)
    ensures r[0] == ""
    ensures prefix != "" ==> r[1] == prefix + "-"
  {
    if prefix == "" then [""] else [""] + [prefix + "-"]
  }

  /** The pairs of `p` with each of `vs`, in order. */
  function Pairs(p: string, vs: seq<string>): seq<(string, string)> {
    seq(|vs|, j requires 0 <= j < |vs| => (p, vs[j]))
  }

  /** Every pair of a prefix and a suffix, the prefix varying slowest. */
  function Product(ps: seq<string>, vs: seq<string>): seq<(string, string)> {
    if ps == [] then [] else Pairs(ps[0], vs) + Product(ps[1..], vs)
  }

  /** A candidate filename: the prefix, the word `requirements`, the suffix,
      a dot and the extension. */
  function FormatName(p: string, v: string, extension: string): string {
    p + "requirements" + v + "." + extension
  }

  /** POSIX `os.path.join(a, b)` for two arguments. */
  function PosixJoin(a: string, b: string): string {
    if |b| > 0 && b[0] == '/' then b
    else if a == "" || a[|a| - 1] == '/' then a + b
    else a + "/" + b
  }

  /** The filename joined onto `sourceDir` when it is non-empty. */
  function Place(sourceDir: string, name: string): string {
    if sourceDir != "" then PosixJoin(sourceDir, name) else name
  }

  /** Every filename `get_requirements_filenames` yields, in order. */
  function RequirementsFilenames(sourceDir: string, prefix: string, version: seq<VersionItem>,
                                 extension: string): seq<string>
  {
    var pairs := Product(Prefixes(prefix), Suffixes(Segments(version)));
    seq(|pairs|, k requires 0 <= k < |pairs| =>
      Place(sourceDir, FormatName(pairs[k].0, pairs[k].1, extension)))
  }

  // ---------------------------------------------------------------------------
  // The generator

  /** `get_requirements_filenames`: collects the names the generator yields. */
  method GetRequirementsFilenames(sourceDir: string, prefix: string, version: seq<VersionItem>,
                                  extension: string)
    returns (names: seq<string>)
    ensures names == RequirementsFilenames(sourceDir, prefix, version, extension)
  {
    var prefixes := [""];
    if prefix != "" {
      prefixes := prefixes + [prefix + "-"];
    }
    var suffixes := Suffixes(Segments(version));
    var pairs := Product(prefixes, suffixes);
    names := [];
    for k := 0 to |pairs|
      invariant |names| == k
      invariant forall m :: 0 <= m < k ==>
                  names[m] == Place(sourceDir, FormatName(pairs[m].0, pairs[m].1, extension))
    {
      var (p, v) := pairs[k];
      var filename := FormatName(p, v, extension);
      if sourceDir != "" {
        filename := PosixJoin(sourceDir, filename);
      }
      names := names + [filename];
    }
  }

  // ---------------------------------------------------------------------------
  // Version segments

  /** An element is turned into a segment exactly when it is kept, and the
      kept elements appear in order: with nothing to drop, the segments are
      the stringified elements one for one. */
  lemma {:induction false} SegmentsAllKept(version: seq<VersionItem>)
    requires forall k :: 0 <= k < |version| ==> Kept(version[k])
    ensures |Segments(version)| == |version|
    ensures forall k :: 0 <= k < |version| ==> Segments(version)[k] == ItemToString(version[k])
  {
    if version != [] {
      SegmentsAllKept(version[1..]);
    }
  }

  /** With every element dropped there are no segments. */
  lemma {:induction false} SegmentsNoneKept(version: seq<VersionItem>)
    requires forall k :: 0 <= k < |version| ==> !Kept(version[k])
    ensures Segments(version) == []
  {
    if version != [] {
      SegmentsNoneKept(version[1..]);
    }
  }

  /** Segments of concatenated versions are the concatenated segments. */
  lemma {:induction false} SegmentsAppend(a: seq<VersionItem>, b: seq<VersionItem>)
    ensures Segments(a + b) == Segments(a) + Segments(b)
  {
    if a == [] {
      assert a + b == b;
    } else {
      assert (a + b)[0] == a[0];
      assert (a + b)[1..] == a[1..] + b;
      SegmentsAppend(a[1..], b);
    }
  }

  /** The version string "2.1" gives the segments 2 and 1. */
  lemma VersionStringSegments()
    ensures Segments(FromString("2.1")) == ["2", "1"]
  {
    var v := FromString("2.1");
    assert v == [Str("2"), Str("."), Str("1")];
    assert v[1..] == [Str("."), Str("1")];
    assert v[1..][1..] == [Str("1")];
  }

  /** The characters of `s` other than `.`, in order. */
  function WithoutDots(s: string): string {
    if s == [] then [] else (if s[0] == '.' then [] else [s[0]]) + WithoutDots(s[1..])
  }

  /** Joining a list whose first element is `x` gives `x` followed by the
      join of the rest. */
  lemma {:induction false} ConcatCons(x: string, rest: seq<string>)
    ensures Concat([x] + rest) == x + Concat(rest)
  {
    if rest != [] {
      var t := [x] + rest;
      assert t[..|t| - 1] == [x] + rest[..|rest| - 1];
      ConcatCons(x, rest[..|rest| - 1]);
    } else {
      assert ([x] + rest)[..0] == [];
    }
  }

  /** A version string's kept segments are its characters other than `.`:
      joined together they give the string with its dots removed, and the
      string itself when it has none. */
  lemma {:induction false} VersionStringText(s: string)
    ensures Concat(Segments(FromString(s))) == WithoutDots(s)
    ensures (forall k :: 0 <= k < |s| ==> s[k] != '.') ==> Concat(Segments(FromString(s))) == s
  {
    if s == [] {
      assert FromString(s) == [];
    } else {
      var v := FromString(s);
      assert v[1..] == FromString(s[1..]);
      VersionStringText(s[1..]);
      if s[0] == '.' {
        assert !Kept(v[0]);
      } else {
        assert Kept(v[0]);
        ConcatCons([s[0]], Segments(v[1..]));
      }
      if forall k :: 0 <= k < |s| ==> s[k] != '.' {
        assert forall k :: 0 <= k < |s[1..]| ==> s[1..][k] == s[k + 1];
        assert [s[0]] + s[1..] == s;
      }
    }
  }

  /** A zero in a version tuple is false in Python and is dropped. */
  lemma ZeroSegmentDropped()
    ensures Segments([Int(3), Int(0), Int(1)]) == ["3", "1"]
  {
    var v := [Int(3), Int(0), Int(1)];
    assert v[1..] == [Int(0), Int(1)];
    assert v[1..][1..] == [Int(1)];
    assert IntToString(3) == "3";
    assert IntToString(1) == "1";
  }

  // ---------------------------------------------------------------------------
  // Version suffixes

  /** Every suffix but the first starts with a dash. */
  lemma SuffixesDashed(segs: seq<string>)
    ensures forall i :: 1 <= i <= |segs| ==> Suffixes(segs)[i][0] == '-'
  {
  }

  /** Each suffix after the empty one extends the previous one by the next
      segment: "-2", "-27", "-273". */
  lemma SuffixesExtend(segs: seq<string>, i: nat)
    requires i < |segs|
    ensures Suffixes(segs)[i + 1] == (if i == 0 then "-" else Suffixes(segs)[i]) + segs[i]
  {
    var s := Suffixes(segs);
    assert segs[..i + 1][..i] == segs[..i];
    assert Concat(segs[..i + 1]) == Concat(segs[..i]) + segs[i];
    if i == 0 {
      assert segs[..0] == [];
    }
  }

  /** Every non-empty suffix is a prefix of all that follow it. */
  lemma {:induction false} SuffixesNested(segs: seq<string>, i: nat, j: nat)
    requires 1 <= i <= j <= |segs|
    ensures Suffixes(segs)[i] <= Suffixes(segs)[j]
    decreases j - i
  {
    if i < j {
      var s := Suffixes(segs);
      SuffixesNested(segs, i, j - 1);
      SuffixesExtend(segs, j - 1);
      assert s[j] == s[j - 1] + segs[j - 1];
      assert s[j][..|s[j - 1]|] == s[j - 1];
    }
  }

  // ---------------------------------------------------------------------------
  // The product

  lemma {:induction false} ProductLength(ps: seq<string>, vs: seq<string>)
    ensures |Product(ps, vs)| == |ps| * |vs|
  {
    if ps != [] {
      ProductLength(ps[1..], vs);
      MulPred(|ps|, |vs|);
    }
  }

  /** `a * b == b + (a - 1) * b` for positive `a`. */
  lemma MulPred(a: nat, b: nat)
    requires a > 0
    ensures a * b == b + (a - 1) * b
  {
  }

  /** Pair number `i * |vs| + j` is `(ps[i], vs[j])`: prefix-major order. */
  lemma {:induction false} ProductAt(ps: seq<string>, vs: seq<string>, i: nat, j: nat)
    requires i < |ps| && j < |vs|
    ensures i * |vs| + j < |Product(ps, vs)|
    ensures Product(ps, vs)[i * |vs| + j] == (ps[i], vs[j])
  {
    var head := Pairs(ps[0], vs);
    var tail := Product(ps[1..], vs);
    assert Product(ps, vs) == head + tail;
    if i == 0 {
      assert Product(ps, vs)[j] == head[j];
    } else {
      ProductAt(ps[1..], vs, i - 1, j);
      var k := (i - 1) * |vs| + j;
      MulPred(i, |vs|);
      assert i * |vs| + j == |vs| + k;
      assert Product(ps, vs)[|vs| + k] == tail[k];
    }
  }

  // ---------------------------------------------------------------------------
  // The filenames

  /** There are |prefixes| * (n + 1) names for n kept segments. */
  lemma FilenamesLength(sourceDir: string, prefix: string, version: seq<VersionItem>, extension: string)
    ensures |RequirementsFilenames(sourceDir, prefix, version, extension)|
         == (if prefix == "" then 1 else 2) * (|Segments(version)| + 1)
  {
    ProductLength(Prefixes(prefix), Suffixes(Segments(version)));
  }

  /** Name number `i * (n + 1) + j` is built from prefix `i` and suffix `j`. */
  lemma FilenameAt(sourceDir: string, prefix: string, version: seq<VersionItem>, extension: string,
                   i: nat, j: nat)
    requires i < |Prefixes(prefix)| && j <= |Segments(version)|
    ensures var names := RequirementsFilenames(sourceDir, prefix, version, extension);
            var n := |Segments(version)|;
            i * (n + 1) + j < |names|
            && names[i * (n + 1) + j]
               == Place(sourceDir, FormatName(Prefixes(prefix)[i], Suffixes(Segments(version))[j], extension))
  {
    var ps, vs := Prefixes(prefix), Suffixes(Segments(version));
    var pairs := Product(ps, vs);
    var k := i * |vs| + j;
    ProductAt(ps, vs, i, j);
    assert pairs[k] == (ps[i], vs[j]);
    var names := RequirementsFilenames(sourceDir, prefix, version, extension);
    assert |names| == |pairs|;
    assert names[k] == Place(sourceDir, FormatName(pairs[k].0, pairs[k].1, extension));
  }

  /** The name built from the empty prefix and the empty suffix. */
  lemma PlainName(extension: string)
    ensures FormatName("", "", extension) == "requirements." + extension
  {
    assert "" + "requirements" + "" == "requirements";
  }

  /** The first name is always `requirements.<extension>` (placed in `sourceDir`). */
  lemma FirstFilename(sourceDir: string, prefix: string, version: seq<VersionItem>, extension: string)
    ensures var names := RequirementsFilenames(sourceDir, prefix, version, extension);
            |names| > 0 && names[0] == Place(sourceDir, "requirements." + extension)
  {
    FilenameAt(sourceDir, prefix, version, extension, 0, 0);
    PlainName(extension);
  }

  /** Without a prefix, the names are the suffixed names in order, and nothing else. */
  lemma FilenamesWithoutPrefix(sourceDir: string, version: seq<VersionItem>, extension: string)
    ensures var names := RequirementsFilenames(sourceDir, "", version, extension);
            var suffixes := Suffixes(Segments(version));
            |names| == |suffixes|
            && forall j :: 0 <= j < |suffixes| ==> names[j] == Place(sourceDir, FormatName("", suffixes[j], extension))
  {
    var names := RequirementsFilenames(sourceDir, "", version, extension);
    var suffixes := Suffixes(Segments(version));
    FilenamesLength(sourceDir, "", version, extension);
    forall j | 0 <= j < |suffixes|
      ensures names[j] == Place(sourceDir, FormatName("", suffixes[j], extension))
    {
      FilenameAt(sourceDir, "", version, extension, 0, j);
    }
  }

  /** With a prefix, all unprefixed names come first, then all prefixed ones. */
  lemma FilenamesWithPrefix(sourceDir: string, prefix: string, version: seq<VersionItem>,
                            extension: string)
    requires prefix != ""
    ensures var names := RequirementsFilenames(sourceDir, prefix, version, extension);
            var suffixes := Suffixes(Segments(version));
            var m := |suffixes|;
            |names| == 2 * m
            && (forall j :: 0 <= j < m ==> names[j] == Place(sourceDir, FormatName("", suffixes[j], extension)))
            && (forall j :: 0 <= j < m ==>
                  names[m + j] == Place(sourceDir, FormatName(prefix + "-", suffixes[j], extension)))
  {
    var names := RequirementsFilenames(sourceDir, prefix, version, extension);
    var suffixes := Suffixes(Segments(version));
    var m := |suffixes|;
    FilenamesLength(sourceDir, prefix, version, extension);
    forall j | 0 <= j < m
      ensures names[j] == Place(sourceDir, FormatName("", suffixes[j], extension))
    {
      FilenameAt(sourceDir, prefix, version, extension, 0, j);
    }
    forall j | 0 <= j < m
      ensures names[m + j] == Place(sourceDir, FormatName(prefix + "-", suffixes[j], extension))
    {
      FilenameAt(sourceDir, prefix, version, extension, 1, j);
    }
  }

  /** With a source directory, every name is the bare name joined onto it. */
  lemma FilenamesInSourceDir(sourceDir: string, prefix: string, version: seq<VersionItem>,
                             extension: string)
    requires sourceDir != ""
    ensures var names := RequirementsFilenames(sourceDir, prefix, version, extension);
            var bare := RequirementsFilenames("", prefix, version, extension);
            |names| == |bare| && forall k :: 0 <= k < |bare| ==> names[k] == PosixJoin(sourceDir, bare[k])
  {
  }

  /** Joining a relative name onto a directory without a trailing slash puts
      one slash between them. */
  lemma PosixJoinRelative(a: string, b: string)
    requires a != "" && a[|a| - 1] != '/'
    requires b == [] || b[0] != '/'
    ensures PosixJoin(a, b) == a + "/" + b
  {
  }

  /** Whatever directory it is placed in, a name keeps its own text at the end. */
  lemma PlaceEndsWith(sourceDir: string, name: string)
    ensures var r := Place(sourceDir, name);
            |r| >= |name| && r[|r| - |name|..] == name
  {
    var r := Place(sourceDir, name);
    if sourceDir != "" && !(|name| > 0 && name[0] == '/') {
      var front := if sourceDir[|sourceDir| - 1] == '/' then sourceDir else sourceDir + "/";
      assert r == front + name;
    }
  }

  /** Every name ends with `.<extension>`, under any source directory. */
  lemma FilenamesExtension(sourceDir: string, prefix: string, version: seq<VersionItem>,
                           extension: string, k: nat)
    requires k < |RequirementsFilenames(sourceDir, prefix, version, extension)|
    ensures var name := RequirementsFilenames(sourceDir, prefix, version, extension)[k];
            |name| > |extension| && name[|name| - |extension| - 1..] == "." + extension
  {
    var pairs := Product(Prefixes(prefix), Suffixes(Segments(version)));
    var bare := FormatName(pairs[k].0, pairs[k].1, extension);
    var tail := "." + extension;
    var head := pairs[k].0 + "requirements" + pairs[k].1;
    assert bare == head + tail;
    assert bare[|bare| - |tail|..] == tail;
    PlaceEndsWith(sourceDir, bare);
    var name := Place(sourceDir, bare);
    assert name[|name| - |tail|..] == bare[|bare| - |tail|..];
  }

  /** A version whose first element is a positive major number yields
      `requirements-<major>` and `<prefix>-requirements-<major>` names. */
  lemma MajorVersionNames(prefix: string, major: nat, rest: seq<VersionItem>, extension: string)
    requires prefix != "" && major > 0
    ensures var names := RequirementsFilenames("", prefix, [Int(major)] + rest, extension);
            var v := NatToString(major);
            FormatName("", "-" + v, extension) in names
            && FormatName(prefix + "-", "-" + v, extension) in names
  {
    var version := [Int(major)] + rest;
    var segs := Segments(version);
    assert version[1..] == rest;
    assert segs[0] == NatToString(major);
    SuffixesExtend(segs, 0);
    var names := RequirementsFilenames("", prefix, version, extension);
    FilenamesWithPrefix("", prefix, version, extension);
    var m := |Suffixes(segs)|;
    assert names[1] == FormatName("", "-" + NatToString(major), extension);
    assert names[m + 1] == FormatName(prefix + "-", "-" + NatToString(major), extension);
  }

  // ---------------------------------------------------------------------------
  // Expected outputs

  lemma EmptyPrefixAndVersion()
    ensures RequirementsFilenames("", "", FromString(""), "txt") == ["requirements.txt"]
  {
    var names := RequirementsFilenames("", "", FromString(""), "txt");
    assert Segments(FromString("")) == [];
    FilenamesLength("", "", FromString(""), "txt");
    FirstFilename("", "", FromString(""), "txt");
    assert "requirements." + "txt" == "requirements.txt";
    assert names == [names[0]];
  }

  lemma SuffixSequence273(segs: seq<string>)
    requires segs == ["2", "7", "3"]
    ensures Suffixes(segs) == ["", "-2", "-27", "-273"]
  {
    SuffixesExtend(segs, 0);
    SuffixesExtend(segs, 1);
    SuffixesExtend(segs, 2);
    var s := Suffixes(segs);
    assert s[1] == "-2";
    assert s[2] == "-27";
    assert s[3] == "-273";
  }

  /** The names the suffixes of (2, 7, 3) give without a prefix. */
  lemma Names273()
    ensures FormatName("", "", "txt") == "requirements.txt"
    ensures FormatName("", "-2", "txt") == "requirements-2.txt"
    ensures FormatName("", "-27", "txt") == "requirements-27.txt"
    ensures FormatName("", "-273", "txt") == "requirements-273.txt"
  {
  }

  /** The names the suffixes of (2, 7, 3) give with the prefix `devel`. */
  lemma DevelNames273()
    ensures FormatName("devel-", "", "txt") == "devel-requirements.txt"
    ensures FormatName("devel-", "-2", "txt") == "devel-requirements-2.txt"
    ensures FormatName("devel-", "-27", "txt") == "devel-requirements-27.txt"
    ensures FormatName("devel-", "-273", "txt") == "devel-requirements-273.txt"
  {
    var d := "devel-" + "requirements";
    assert d == "devel-requirements";
    assert d + "" + "." + "txt" == "devel-requirements.txt";
    assert d + "-2" + "." + "txt" == "devel-requirements-2.txt";
    assert d + "-27" + "." + "txt" == "devel-requirements-27.txt";
    assert d + "-273" + "." + "txt" == "devel-requirements-273.txt";
  }

  /** The version (2, 7, 3) gives the suffixes "", "-2", "-27", "-273". */
  lemma Suffixes273()
    ensures Suffixes(Segments([Int(2), Int(7), Int(3)])) == ["", "-2", "-27", "-273"]
  {
    var version := [Int(2), Int(7), Int(3)];
    SegmentsAllKept(version);
    SuffixSequence273(Segments(version));
  }

  /** The (2, 7, 3) names with prefix `devel`, before the strings are spelled out. */
  lemma PrefixAndVersionNames()
    ensures RequirementsFilenames("", "devel", [Int(2), Int(7), Int(3)], "txt") == [
              FormatName("", "", "txt"), FormatName("", "-2", "txt"),
              FormatName("", "-27", "txt"), FormatName("", "-273", "txt"),
              FormatName("devel-", "", "txt"), FormatName("devel-", "-2", "txt"),
              FormatName("devel-", "-27", "txt"), FormatName("devel-", "-273", "txt")]
  {
    var version := [Int(2), Int(7), Int(3)];
    Suffixes273();
    assert "devel" + "-" == "devel-";
    FilenamesWithPrefix("", "devel", version, "txt");
    var names := RequirementsFilenames("", "devel", version, "txt");
    assert |names| == 8;
  }

  lemma PrefixAndVersion()
    ensures RequirementsFilenames("", "devel", [Int(2), Int(7), Int(3)], "txt") == [
              "requirements.txt",
              "requirements-2.txt",
              "requirements-27.txt",
              "requirements-273.txt",
              "devel-requirements.txt",
              "devel-requirements-2.txt",
              "devel-requirements-27.txt",
              "devel-requirements-273.txt"]
  {
    PrefixAndVersionNames();
    Names273();
    DevelNames273();
  }

  lemma NoPrefix()
    ensures RequirementsFilenames("", "", [Int(2), Int(7), Int(3)], "txt") == [
              "requirements.txt",
              "requirements-2.txt",
              "requirements-27.txt",
              "requirements-273.txt"]
  {
    var version := [Int(2), Int(7), Int(3)];
    Suffixes273();
    FilenamesWithoutPrefix("", version, "txt");
    Names273();
    var names := RequirementsFilenames("", "", version, "txt");
    assert |names| == 4;
  }

  /** The names the version string "2.1" gives, before the strings are spelled out. */
  lemma VersionAsStringNames()
    ensures RequirementsFilenames("", "", FromString("2.1"), "txt") == [
              FormatName("", "", "txt"), FormatName("", "-2", "txt"), FormatName("", "-21", "txt")]
  {
    VersionStringSegments();
    var segs := Segments(FromString("2.1"));
    SuffixesExtend(segs, 0);
    SuffixesExtend(segs, 1);
    var s := Suffixes(segs);
    assert s[1] == "-2";
    assert s[2] == "-21";
    FilenamesWithoutPrefix("", FromString("2.1"), "txt");
  }

  lemma VersionAsString()
    ensures RequirementsFilenames("", "", FromString("2.1"), "txt") == [
              "requirements.txt",
              "requirements-2.txt",
              "requirements-21.txt"]
  {
    VersionAsStringNames();
    Names273();
    var r := "" + "requirements";
    assert r == "requirements";
    assert r + "-21" + "." + "txt" == "requirements-21.txt";
  }

  lemma PlaceInTmp(name: string)
    requires name != [] && name[0] != '/'
    ensures Place("/tmp", name) == "/tmp/" + name
  {
    PosixJoinRelative("/tmp", name);
    assert "/tmp" + "/" == "/tmp/";
  }

  lemma TmpNames()
    ensures Place("/tmp", FormatName("", "", "txt")) == "/tmp/requirements.txt"
    ensures Place("/tmp", FormatName("", "-2", "txt")) == "/tmp/requirements-2.txt"
  {
    Names273();
    PlaceInTmp("requirements.txt");
    PlaceInTmp("requirements-2.txt");
    assert "/tmp/" + "requirements.txt" == "/tmp/requirements.txt";
    assert "/tmp/" + "requirements-2.txt" == "/tmp/requirements-2.txt";
  }

  lemma SourceDir()
    ensures RequirementsFilenames("/tmp", "", FromString("2"), "txt") == [
              "/tmp/requirements.txt",
              "/tmp/requirements-2.txt"]
  {
    var version := FromString("2");
    assert version == [Str("2")];
    assert Segments(version) == ["2"] by {
      assert version[1..] == [];
    }
    var segs := Segments(version);
    SuffixesExtend(segs, 0);
    assert Suffixes(segs)[1] == "-2";
    FilenamesWithoutPrefix("/tmp", version, "txt");
    var names := RequirementsFilenames("/tmp", "", version, "txt");
    assert |names| == 2;
    TmpNames();
  }
}
