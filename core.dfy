/** The directory resolver of vip: the upward search for the `.vip` directory.

    A path is the sequence of its components below the root, so the root `/`
    is `[]` and `/home/u/p` is `["home", "u", "p"]`. The filesystem is
    abstracted as the set of paths that are directories and the set of paths
    that are plain files; the current working directory is a parameter.
 */
module Core {

  type Path = seq<string>

  /** The name of the child directory that marks a virtualenv. */
  const VipName: string := ".vip"

  /** The message the search fails with. */
  const NotFoundMessage: string := "not a virtualenv (or any of the parent directories)"

  /** The filesystem as the resolver sees it. */
  datatype FileSystem = FileSystem(dirs: set<Path>, files: set<Path>)

  /** The one error kind of the system. */
  datatype VipError = VipError(message: string)

  datatype Result<T> = Ok(value: T) | Err(error: VipError)

  /** A path as the caller writes it: whether it starts with `/`, and the
      rest of the text cut at every slash into pieces (which may be empty,
      `.` or `..`), so `//tmp` is `RawPath(true, ["", "tmp"])`. */
  datatype RawPath = RawPath(absolute: bool, parts: seq<string>)

  /** The root `/`. */
  const Root: Path := []

  // ---------------------------------------------------------------------------
  // Path operations

  /** A component that names an entry: not empty, not `.`, not `..`. */
  predicate IsName(c: string) {
    c != "" && c != "." && c != ".."
  }

  /** A normalised absolute path: every component names an entry. */
  predicate Canonical(p: Path) {
    forall i :: 0 <= i < |p| ==> IsName(p[i])
  }

  /** One step of normalisation: empty pieces and `.` vanish, `..` goes to
      the parent (and stays at the root), anything else descends. */
  function Step(acc: Path, c: string): (r: Path)
    ensures Canonical(acc) ==> Canonical(r)
  {
    if c == "" || c == "." then acc
    else if c == ".." then (if acc == [] then [] else acc[..|acc| - 1])
    else acc + [c]
  }

  /** Normalisation of the pieces `parts` applied on top of `acc`, left to right. */
  function Normalize(acc: Path, parts: seq<string>): Path
    decreases |parts|
  {
    if parts == [] then acc else Normalize(Step(acc, parts[0]), parts[1..])
  }

  /** `path.abspath`: a relative path is taken from the working directory `cwd`,
      then the whole is normalised. */
  function AbsPath(cwd: Path, start: RawPath): Path {
    Normalize([], (if start.absolute then [] else cwd) + start.parts)
  }

  /** `path.join(directory, name)` for a single component. */
  function Join(directory: Path, name: string): Path {
    directory + [name]
  }

  /** `path.split`: the parent directory and the last component. */
  function Split(p: Path): (r: (Path, string))
    requires p != Root
    ensures Join(r.0, r.1) == p
  {
    (p[..|p| - 1], p[|p| - 1])
  }

  /** Splitting a joined path gives back the directory and the name. */
  lemma SplitJoin(directory: Path, name: string)
    ensures Join(directory, name) != Root && Split(Join(directory, name)) == (directory, name)
  {
    assert Join(directory, name)[..|directory|] == directory;
  }

  /** `path.exists`. */
  predicate Exists(fs: FileSystem, p: Path) {
    p in fs.dirs || p in fs.files
  }

  /** `path.isdir`. */
  predicate IsDir(fs: FileSystem, p: Path) {
    p in fs.dirs
  }

  /** The test the walk applies to each candidate directory. */
  predicate HasVip(fs: FileSystem, directory: Path) {
    var candidate := Join(directory, VipName);
    Exists(fs, candidate) && IsDir(fs, candidate)
  }

  // ---------------------------------------------------------------------------
  // Specification of the walk

  /** The walk as a recursive function: test `directory`, then its parents,
      stopping before the root. */
  function Search(fs: FileSystem, directory: Path): Result<Path>
    decreases |directory|
  {
    if directory == Root then Err(VipError(NotFoundMessage))
    else if HasVip(fs, directory) then Ok(Join(directory, VipName))
    else Search(fs, Split(directory).0)
  }

  /** `found` is `ancestor/.vip` for the nearest ancestor of `start` (itself
      included, the root excluded) that has a `.vip` directory. */
  ghost predicate IsNearestVip(fs: FileSystem, start: Path, found: Path) {
    2 <= |found| <= |start| + 1
    && found == Join(start[..|found| - 1], VipName)
    && found in fs.dirs
    && forall j :: |found| - 1 < j <= |start| ==> !HasVip(fs, start[..j])
  }

  /** No ancestor of `start` below the root has a `.vip` directory. */
  ghost predicate NoVipBelowRoot(fs: FileSystem, start: Path) {
    forall j :: 1 <= j <= |start| ==> !HasVip(fs, start[..j])
  }

  /** Prefixes of `start` up to its parent's length are prefixes of the parent. */
  lemma AncestorsOfParent(start: Path, j: nat)
    requires start != Root && j <= |start| - 1
    ensures start[..j] == Split(start).0[..j]
  {
  }

  /** When `start` has no `.vip` directory, the nearest one from `start` is
      the nearest one from its parent. */
  lemma NearestFromParent(fs: FileSystem, start: Path, found: Path)
    requires start != Root && !HasVip(fs, start)
    requires IsNearestVip(fs, Split(start).0, found)
    ensures IsNearestVip(fs, start, found)
  {
    var parent := Split(start).0;
    AncestorsOfParent(start, |found| - 1);
    forall j | |found| - 1 < j <= |start|
      ensures !HasVip(fs, start[..j])
    {
      if j < |start| {
        AncestorsOfParent(start, j);
      } else {
        assert start[..j] == start;
      }
    }
  }

  /** When `start` has no `.vip` directory, it has none below the root
      exactly when its parent has none. */
  lemma NoVipFromParent(fs: FileSystem, start: Path)
    requires start != Root && !HasVip(fs, start)
    ensures NoVipBelowRoot(fs, start) <==> NoVipBelowRoot(fs, Split(start).0)
  {
    var parent := Split(start).0;
    if NoVipBelowRoot(fs, parent) {
      forall j | 1 <= j <= |start|
        ensures !HasVip(fs, start[..j])
      {
        if j < |start| {
          AncestorsOfParent(start, j);
        } else {
          assert start[..j] == start;
        }
      }
    }
    if NoVipBelowRoot(fs, start) {
      forall j | 1 <= j <= |parent|
        ensures !HasVip(fs, parent[..j])
      {
        AncestorsOfParent(start, j);
      }
    }
  }

  /** The search returns exactly the nearest `.vip` directory, and fails with
      the fixed message exactly when there is none. */
  lemma {:induction false} SearchIsNearest(fs: FileSystem, start: Path)
    ensures Search(fs, start).Ok? ==> IsNearestVip(fs, start, Search(fs, start).value)
    ensures Search(fs, start).Err? <==> NoVipBelowRoot(fs, start)
    ensures Search(fs, start).Err? ==> Search(fs, start).error.message == NotFoundMessage
    decreases |start|
  {
    if start == Root {
    } else if HasVip(fs, start) {
      assert start[..|start|] == start;
    } else {
      var parent := Split(start).0;
      SearchIsNearest(fs, parent);
      NoVipFromParent(fs, start);
      if Search(fs, parent).Ok? {
        NearestFromParent(fs, start, Search(fs, parent).value);
      }
    }
  }

  /** The nearest `.vip` directory is unique: whatever satisfies the
      characterisation is what the search returns. */
  lemma NearestIsUnique(fs: FileSystem, start: Path, found: Path)
    requires IsNearestVip(fs, start, found)
    ensures Search(fs, start) == Ok(found)
  {
    SearchIsNearest(fs, start);
    var k := |found| - 1;
    assert HasVip(fs, start[..k]) by {
      assert Join(start[..k], VipName) == found;
    }
    assert Search(fs, start).Ok?;
    var other := Search(fs, start).value;
    var m := |other| - 1;
    assert HasVip(fs, start[..m]) by {
      assert Join(start[..m], VipName) == other;
    }
    assert k <= m;
    assert m <= k;
  }

  /** A plain file named `.vip` is never taken for the virtualenv: the plain
      files of the filesystem do not affect the result at all. */
  lemma {:induction false} PlainFilesIgnored(fs: FileSystem, files: set<Path>, start: Path)
    ensures Search(FileSystem(fs.dirs, files), start) == Search(fs, start)
    decreases |start|
  {
    if start != Root && !HasVip(fs, start) {
      PlainFilesIgnored(fs, files, Split(start).0);
    }
  }

  /** A plain file `.vip` in `start` is skipped: the walk goes on to the
      parent exactly as if the file were not there. */
  lemma PlainFileSkipped(fs: FileSystem, start: Path)
    requires start != Root
    requires Join(start, VipName) in fs.files && Join(start, VipName) !in fs.dirs
    ensures Search(fs, start) == Search(fs, Split(start).0)
    ensures Search(fs, start) == Search(FileSystem(fs.dirs, fs.files - {Join(start, VipName)}), start)
  {
    PlainFilesIgnored(fs, fs.files - {Join(start, VipName)}, start);
  }

  /** The root is never examined: a `/.vip` directory changes nothing. */
  lemma {:induction false} RootNeverExamined(fs: FileSystem, start: Path)
    ensures Search(FileSystem(fs.dirs + {Join(Root, VipName)}, fs.files), start) == Search(fs, start)
    decreases |start|
  {
    var withRoot := FileSystem(fs.dirs + {Join(Root, VipName)}, fs.files);
    if start != Root {
      assert HasVip(withRoot, start) == HasVip(fs, start) by {
        assert Join(start, VipName) != Join(Root, VipName);
      }
      if !HasVip(fs, start) {
        RootNeverExamined(fs, Split(start).0);
      }
    }
  }

  /** Once started at `start`, the search finds a `.vip` directory that sits
      directly under `start` whenever there is one. */
  lemma SearchFromMarked(fs: FileSystem, start: Path)
    requires start != Root && Join(start, VipName) in fs.dirs
    ensures Search(fs, start) == Ok(start + [VipName])
  {
  }

  // ---------------------------------------------------------------------------
  // Properties of abspath

  lemma {:induction false} NormalizeCanonical(acc: Path, parts: seq<string>)
    requires Canonical(acc)
    ensures Canonical(Normalize(acc, parts))
    decreases |parts|
  {
    if parts != [] {
      NormalizeCanonical(Step(acc, parts[0]), parts[1..]);
    }
  }

  /** Normalising an already canonical path on top of `acc` appends it. */
  lemma {:induction false} NormalizeOfCanonical(acc: Path, p: Path)
    requires Canonical(p)
    ensures Normalize(acc, p) == acc + p
    decreases |p|
  {
    if p != [] {
      assert IsName(p[0]);
      NormalizeOfCanonical(acc + [p[0]], p[1..]);
      assert acc + [p[0]] + p[1..] == acc + p;
    }
  }

  /** The result of abspath is a normalised absolute path. */
  lemma AbsPathCanonical(cwd: Path, start: RawPath)
    ensures Canonical(AbsPath(cwd, start))
  {
    NormalizeCanonical([], (if start.absolute then [] else cwd) + start.parts);
  }

  /** abspath of a path that is already canonical and absolute is itself. */
  lemma AbsPathOfCanonical(cwd: Path, p: Path)
    requires Canonical(p)
    ensures AbsPath(cwd, RawPath(true, p)) == p
  {
    assert [] + p == p;
    NormalizeOfCanonical([], p);
  }

  /** `a/x/../x` (with `a` canonical and `x` a name) normalises to `a/x`. */
  lemma {:induction false} AbsPathUpAndDown(cwd: Path, a: Path, x: string)
    requires Canonical(a) && IsName(x)
    ensures AbsPath(cwd, RawPath(true, a + [x, "..", x])) == a + [x]
  {
    assert [] + (a + [x, "..", x]) == a + [x, "..", x];
    NormalizeAppend([], a, [x, "..", x]);
    NormalizeOfCanonical([], a);
    assert [] + a == a;
    var s1 := Step(a, x);
    assert s1 == a + [x];
    var s2 := Step(s1, "..");
    assert s2 == a;
    var s3 := Step(s2, x);
    assert Normalize(a, [x, "..", x]) == Normalize(s1, [x, "..", x][1..]);
    assert [x, "..", x][1..] == ["..", x];
    assert Normalize(s1, ["..", x]) == Normalize(s2, ["..", x][1..]);
    assert ["..", x][1..] == [x];
    assert Normalize(s2, [x]) == Normalize(s3, []);
  }

  /** Normalisation of concatenated pieces is sequential. */
  lemma {:induction false} NormalizeAppend(acc: Path, p: seq<string>, q: seq<string>)
    ensures Normalize(acc, p + q) == Normalize(Normalize(acc, p), q)
    decreases |p|
  {
    if p != [] {
      assert (p + q)[0] == p[0];
      assert (p + q)[1..] == p[1..] + q;
      NormalizeAppend(Step(acc, p[0]), p[1..], q);
    } else {
      assert p + q == q;
    }
  }

  /** The `.vip` child of an ancestor of a canonical path is canonical. */
  lemma CanonicalVipOfAncestor(p: Path, k: nat)
    requires Canonical(p) && k <= |p|
    ensures Canonical(Join(p[..k], VipName))
  {
    var q := Join(p[..k], VipName);
    forall i | 0 <= i < |q|
      ensures IsName(q[i])
    {
      if i < k {
        assert q[i] == p[i];
      }
    }
  }

  /** `examined` lists the `.vip` candidates of `abs`, then of its parent, and
      so on, one per directory below the root. */
  ghost predicate Walked(abs: Path, examined: seq<Path>) {
    |examined| <= |abs|
    && forall i :: 0 <= i < |examined| ==> examined[i] == Join(abs[..|abs| - i], VipName)
  }

  /** The root's candidate `/.vip` is never among the examined ones. */
  lemma WalkedSkipsRoot(abs: Path, examined: seq<Path>)
    requires Walked(abs, examined)
    ensures Join(Root, VipName) !in examined
  {
    forall i | 0 <= i < |examined|
      ensures examined[i] != Join(Root, VipName)
    {
      assert |examined[i]| == |abs| - i + 1;
    }
  }

  /** One turn of the walk: recording the candidate of `directory`, the next
      ancestor of `abs`, keeps the record in order, and the parent is the
      following ancestor. */
  lemma WalkedStep(abs: Path, examined: seq<Path>, directory: Path)
    requires Walked(abs, examined) && directory != Root
    requires |directory| + |examined| == |abs| && directory == abs[..|directory|]
    ensures Walked(abs, examined + [Join(directory, VipName)])
    ensures Split(directory).0 == abs[..|directory| - 1]
  {
  }

  /** What the walk concludes when it stops at `directory`, an ancestor of
      `abs` reached without finding a `.vip` directory earlier. */
  lemma FoundNearest(fs: FileSystem, abs: Path, directory: Path)
    requires Canonical(abs) && directory != Root && |directory| <= |abs| && directory == abs[..|directory|]
    requires Search(fs, directory) == Search(fs, abs) && HasVip(fs, directory)
    ensures Search(fs, abs) == Ok(Join(directory, VipName))
    ensures IsNearestVip(fs, abs, Join(directory, VipName)) && Canonical(Join(directory, VipName))
  {
    SearchIsNearest(fs, abs);
    CanonicalVipOfAncestor(abs, |directory|);
  }

  // ---------------------------------------------------------------------------
  // The resolver

  /** `find_vip_directory`: make `start` absolute, then test it and each parent
      in turn for a `.vip` directory, stopping before the root. `examined`
      records the candidates looked up, in order. */
  method FindVipDirectory(fs: FileSystem, cwd: Path, start: RawPath)
    returns (r: Result<Path>, ghost examined: seq<Path>)
    ensures r == Search(fs, AbsPath(cwd, start))
    ensures r.Ok? ==> IsNearestVip(fs, AbsPath(cwd, start), r.value) && Canonical(r.value)
    ensures r.Err? <==> NoVipBelowRoot(fs, AbsPath(cwd, start))
    ensures r.Err? ==> r.error.message == NotFoundMessage
    ensures Walked(AbsPath(cwd, start), examined) && Join(Root, VipName) !in examined
    ensures r.Err? ==> |examined| == |AbsPath(cwd, start)|
    ensures r.Ok? ==> examined != [] && r.value == examined[|examined| - 1]
  {
    var directory := AbsPath(cwd, start);
    ghost var abs := directory;
    examined := [];
    while directory != Root
      invariant |directory| + |examined| == |abs|
      invariant directory == abs[..|directory|]
      invariant Search(fs, directory) == Search(fs, abs)
      invariant Walked(abs, examined)
      decreases |directory|
    {
      var vipDirectory := Join(directory, VipName);
      WalkedStep(abs, examined, directory);
      examined := examined + [vipDirectory];
      if Exists(fs, vipDirectory) && IsDir(fs, vipDirectory) {
        r := Ok(vipDirectory);
        AbsPathCanonical(cwd, start);
        FoundNearest(fs, abs, directory);
        WalkedSkipsRoot(abs, examined);
        return;
      }
      directory := Split(directory).0;
    }
    r := Err(VipError(NotFoundMessage));
    SearchIsNearest(fs, abs);
    WalkedSkipsRoot(abs, examined);
  }

  /** The error message contains "not a virtualenv". */
  lemma NotFoundMentionsVirtualenv()
    ensures "not a virtualenv" <= NotFoundMessage
  {
  }

  /** `find_vip_directory(start="/")`: the root fails at once, whatever is on disk. */
  lemma SearchFromRootFails(fs: FileSystem, cwd: Path)
    ensures Search(fs, AbsPath(cwd, RawPath(true, []))) == Err(VipError(NotFoundMessage))
  {
  }

  // ---------------------------------------------------------------------------
  // The walk on vip's path strings, two leading slashes included

  /** How `find_vip_directory` spells a normalised absolute directory: `/` followed by
      the components, or `//` followed by them when `doubleSlash` holds. POSIX
      `normpath` keeps exactly two leading slashes, and `//x` names the same
      directory as `/x`. */
  datatype Spelling = Spelling(doubleSlash: bool, path: Path)

  /** The raw start begins with exactly two slashes: its first piece is empty
      (the second slash) and is not followed by another empty piece. */
  predicate TwoLeadingSlashes(start: RawPath) {
    start.absolute && |start.parts| >= 2 && start.parts[0] == ""
    && !(|start.parts| >= 3 && start.parts[1] == "")
  }

  /** `path.abspath` as a string: the normalised path, spelt with two leading
      slashes when the start had exactly two. */
  function AbsSpelling(cwd: Path, start: RawPath): Spelling {
    Spelling(TwoLeadingSlashes(start), AbsPath(cwd, start))
  }

  /** The loop test of `find_vip_directory`: the directory string is exactly `/`. */
  predicate IsSlash(d: Spelling) {
    !d.doubleSlash && d.path == Root
  }

  /** The head `path.split` gives: the parent, except that a head made only
      of slashes is kept whole, so the head of `//` is `//` again. */
  function SplitHead(d: Spelling): Spelling {
    if d.path == Root then d else Spelling(d.doubleSlash, Split(d.path).0)
  }

  /** `normpath` keeps the slashes of `//tmp` and `//` but not of `/tmp`
      or `///tmp`; the head of `//` is `//`, which is not `/`, so the loop
      test never fails there. */
  lemma DoubleSlashFixedPoint()
    ensures TwoLeadingSlashes(RawPath(true, ["", "tmp"])) && TwoLeadingSlashes(RawPath(true, ["", ""]))
    ensures !TwoLeadingSlashes(RawPath(true, ["tmp"])) && !TwoLeadingSlashes(RawPath(true, ["", "", "tmp"]))
    ensures SplitHead(Spelling(true, Root)) == Spelling(true, Root) && !IsSlash(Spelling(true, Root))
  {
  }

  /** Where `find_vip_directory`'s loop is after some number of turns. */
  datatype Outcome = Found(vip: Spelling) | NotFound | StillLooping

  /** `find_vip_directory`'s loop on its path strings, run for at most `fuel` turns. */
  function WalkAsWritten(fs: FileSystem, d: Spelling, fuel: nat): Outcome
    decreases fuel
  {
    if IsSlash(d) then NotFound
    else if fuel == 0 then StillLooping
    else if HasVip(fs, d.path) then Found(Spelling(d.doubleSlash, Join(d.path, VipName)))
    else WalkAsWritten(fs, SplitHead(d), fuel - 1)
  }

  /** Spelt with one leading slash, `find_vip_directory`'s loop ends within one turn per
      component and agrees with `Search`. */
  lemma {:induction false} WalkAsWrittenSingleSlash(fs: FileSystem, p: Path, fuel: nat)
    requires fuel >= |p|
    ensures Search(fs, p).Ok? ==> WalkAsWritten(fs, Spelling(false, p), fuel)
                                  == Found(Spelling(false, Search(fs, p).value))
    ensures Search(fs, p).Err? ==> WalkAsWritten(fs, Spelling(false, p), fuel) == NotFound
    decreases |p|
  {
    if p != Root && !HasVip(fs, p) {
      WalkAsWrittenSingleSlash(fs, Split(p).0, fuel - 1);
    }
  }

  /** Whenever `Search` finds a `.vip` directory below the root, the loop
      returns that directory within one turn per component, spelt with as
      many leading slashes as the start. */
  lemma {:induction false} WalkAsWrittenFound(fs: FileSystem, doubleSlash: bool, p: Path, fuel: nat)
    requires fuel >= |p| && Search(fs, p).Ok?
    ensures WalkAsWritten(fs, Spelling(doubleSlash, p), fuel)
            == Found(Spelling(doubleSlash, Search(fs, p).value))
    decreases |p|
  {
    if !HasVip(fs, p) {
      WalkAsWrittenFound(fs, doubleSlash, Split(p).0, fuel - 1);
    }
  }

  /** Spelt with two leading slashes, the loop never reaches `/`: when no
      `.vip` directory is found, not even `/.vip`, it is still running after
      any number of turns. */
  lemma {:induction false} DoubleSlashNeverStops(fs: FileSystem, p: Path, fuel: nat)
    requires NoVipBelowRoot(fs, p) && !HasVip(fs, Root)
    ensures WalkAsWritten(fs, Spelling(true, p), fuel) == StillLooping
    decreases fuel
  {
    if fuel > 0 {
      if p == Root {
        DoubleSlashNeverStops(fs, p, fuel - 1);
      } else {
        assert p[..|p|] == p;
        NoVipFromParent(fs, p);
        DoubleSlashNeverStops(fs, Split(p).0, fuel - 1);
      }
    }
  }

  /** Spelt with two leading slashes, the loop examines the root: with no
      deeper `.vip` directory it returns `/.vip`, spelt `//.vip`. */
  lemma {:induction false} DoubleSlashExaminesRoot(fs: FileSystem, p: Path, fuel: nat)
    requires NoVipBelowRoot(fs, p) && HasVip(fs, Root) && fuel > |p|
    ensures WalkAsWritten(fs, Spelling(true, p), fuel) == Found(Spelling(true, [VipName]))
    decreases |p|
  {
    if p != Root {
      assert p[..|p|] == p;
      NoVipFromParent(fs, p);
      DoubleSlashExaminesRoot(fs, Split(p).0, fuel - 1);
    }
  }

  /** `find_vip_directory("//tmp")` on a disk without any `.vip` directory: the
      loop of `find_vip_directory` is still running after any number of turns, while `Search`
      fails with the fixed message. */
  lemma DoubleSlashTmp(cwd: Path, fuel: nat)
    ensures AbsSpelling(cwd, RawPath(true, ["", "tmp"])) == Spelling(true, ["tmp"])
    ensures WalkAsWritten(FileSystem({}, {}), AbsSpelling(cwd, RawPath(true, ["", "tmp"])), fuel)
            == StillLooping
    ensures Search(FileSystem({}, {}), AbsPath(cwd, RawPath(true, ["", "tmp"])))
            == Err(VipError(NotFoundMessage))
  {
    var start := RawPath(true, ["", "tmp"]);
    var pieces := [] + start.parts;
    assert pieces == ["", "tmp"] && pieces[1..] == ["tmp"] && pieces[1..][1..] == [];
    assert Normalize([], pieces) == Normalize([], ["tmp"]);
    assert Normalize([], ["tmp"]) == Normalize(["tmp"], []);
    DoubleSlashNeverStops(FileSystem({}, {}), ["tmp"], fuel);
  }
}
