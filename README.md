# vip: environment lookup and requirements filenames

vip is a command-line tool that runs commands inside a project-local
virtualenv kept in a `.vip` directory. This project models two pieces of it
and proves their properties.

- **Directory resolver** (`core.dfy`, module `Core`). `find_vip_directory`
  first makes its start path absolute. It then tests that directory, and each
  parent in turn, for a child `.vip` that exists and is a directory. It returns
  the first such `<ancestor>/.vip`. For a start spelt with one leading slash
  it stops before examining `/` and then fails with
  `VipError("not a virtualenv (or any of the parent directories)")`. A start
  spelt with exactly two leading slashes never reaches `/` (see Findings).
  - A path is the sequence of its components, and the root `/` is `[]`.
  - The filesystem is a set of directory paths and a set of plain-file paths.
  - The current working directory is a parameter.
  - `path.abspath` is modelled as POSIX normalisation. Empty pieces and `.`
    vanish, and `..` goes to the parent (staying at the root).
  - The method `FindVipDirectory` keeps the `while` loop of `find_vip_directory`. It is
    proved equal to the recursive specification `Search`. That specification
    is proved to return exactly the nearest ancestor's `.vip` directory.
  - `WalkAsWritten` runs the loop on the path strings of `find_vip_directory` for a bounded
    number of turns, keeping the two leading slashes that POSIX `abspath`
    preserves, so the behaviour recorded under Findings can be stated.
- **Requirements filenames** (`req.dfy`, module `Req`).
  `get_requirements_filenames` builds every candidate filename, in order:
  - The prefixes are `""`, then `prefix + "-"` when the prefix is non-empty.
  - The version suffixes are `""`, then `"-"` followed by the running
    concatenation of the kept version segments.
  - The names are the prefix-major product of the two, formatted as
    `p + "requirements" + v + "." + extension`.
  - Each name is joined onto `source_dir` when that is non-empty.

  The function `RequirementsFilenames` states the result. The method
  `GetRequirementsFilenames` keeps the append loop of `get_requirements_filenames` over the product
  and is proved equal to it.

Python's truthiness is written out:
- `prefix` and `source_dir` are `""` when false. `None` is modelled as `""`.
- A version element is `Int(n)` or `Str(s)`. The elements kept are those that
  are truthy and not `'.'`, so `0` and `""` are dropped.
- A version string is iterated as its characters (`FromString`).
- `os.path.join` is the POSIX two-argument join. A second argument that
  starts with `/` replaces the first. Otherwise one `/` is inserted unless the
  first argument already ends with one.

The resolver recognises one marker name, `.vip`, and one stopping point,
`/`. Its error message is the fixed text above and does not name the start
path.

## Model

| member | source | states |
|---|---|---|
| `Core.FindVipDirectory` | vip/core.py:10-31 | the loop's result equals the recursive search from `abspath(start)`; a found path is the `.vip` directory of the nearest ancestor and is a normalised absolute path; it fails exactly when no ancestor below `/` has a `.vip` directory, and then with the "not a virtualenv" message; the candidates it looks up are `abspath(start)/.vip`, then its parent's, in order, at most one per level of depth, never `/.vip`; the returned path is the last one looked up |
| `Core.SearchIsNearest` | vip/core.py:22-31 | a found result is `A/.vip` for an ancestor `A` of the start (the start itself included, `/` excluded); that `A/.vip` is a directory and no deeper ancestor has one; the search fails exactly when no ancestor below `/` has a `.vip` directory, and then with the fixed message |
| `Core.NearestIsUnique` | vip/core.py:24-29 | whatever path satisfies the nearest-ancestor description is what the search returns |
| `Core.NearestFromParent` | vip/core.py:26-29 | when the current directory has no `.vip` directory, the nearest one from it is the nearest one from its parent |
| `Core.NoVipFromParent` | vip/core.py:26-29 | when the current directory has no `.vip` directory, there is none below `/` from it exactly when there is none from its parent |
| `Core.AncestorsOfParent` | vip/core.py:29 | the ancestors of the parent are the ancestors of the directory, up to the parent's depth |
| `Core.PlainFilesIgnored` | vip/core.py:26 | the result does not depend on the plain files at all, so a plain file `.vip` is never taken for the virtualenv |
| `Core.PlainFileSkipped` | vip/core.py:26-29 | when `<dir>/.vip` is a plain file, the search goes on from the parent, with the same result as if the file were absent |
| `Core.RootNeverExamined` | vip/core.py:24 | adding a `/.vip` directory never changes the result |
| `Core.WalkedSkipsRoot` | vip/core.py:24 | no candidate in the lookup order is `/.vip` |
| `Core.SearchFromRootFails` | vip/core.py:24 | starting at `/` fails with the fixed message, whatever is on disk |
| `Core.SearchFromMarked` | vip/core.py:25-27 | a start directory with a `.vip` directory returns `start/.vip` |
| `Core.FoundNearest` | vip/core.py:26-27 | stopping at an ancestor of the normalised start that has a `.vip` directory returns the nearest `.vip` directory, and it is normalised |
| `Core.NotFoundMentionsVirtualenv` | vip/core.py:31 | the error message contains "not a virtualenv" |
| `Core.Split` | vip/core.py:29 | `path.split` gives the parent and the last component, which join back to the path |
| `Core.SplitJoin` | vip/core.py:25-29 | splitting `path.join(directory, name)` gives back `directory` and `name` |
| `Core.AbsPathCanonical` | vip/core.py:22 | `abspath` always gives a normalised absolute path (no empty, `.` or `..` components) |
| `Core.AbsPathOfCanonical` | vip/core.py:22 | `abspath` leaves a normalised absolute path unchanged |
| `Core.AbsPathUpAndDown` | vip/core.py:22 | `a/x/../x` becomes `a/x` |
| `Core.NormalizeCanonical` | vip/core.py:22 | normalisation on top of a normalised path gives a normalised path |
| `Core.NormalizeOfCanonical` | vip/core.py:22 | normalising already-normal components appends them unchanged |
| `Core.NormalizeAppend` | vip/core.py:22 | normalising concatenated pieces is normalising one then the other |
| `Core.CanonicalVipOfAncestor` | vip/core.py:25 | the `.vip` child of an ancestor of a normalised path is normalised |
| `Core.WalkAsWrittenSingleSlash` | vip/core.py:22-31 | on a start spelt with one leading slash, the loop on path strings ends within one turn per component and returns what `Search` returns |
| `Core.DoubleSlashFixedPoint` | vip/core.py:22-29 | `abspath` keeps the two leading slashes of `//tmp` and `//`, and not the slashes of `/tmp` or `///tmp`; the head `split` gives for `//` is `//`, which the loop test does not stop at |
| `Core.WalkAsWrittenFound` | vip/core.py:24-29 | whenever `Search` finds a `.vip` directory, the loop on path strings returns that directory within one turn per component, spelt with the start's leading slashes |
| `Core.DoubleSlashNeverStops` | vip/core.py:24-29 | spelt with two leading slashes and with no `.vip` directory anywhere, `/.vip` included, the loop is still running after any number of turns |
| `Core.DoubleSlashExaminesRoot` | vip/core.py:24-27 | spelt with two leading slashes, with a `/.vip` directory and none deeper, the loop returns `//.vip` |
| `Core.DoubleSlashTmp` | vip/core.py:22-31 | for the start `//tmp` on a disk with no `.vip` directory, the loop never ends, while `Search` fails with the fixed message |
| `Req.GetRequirementsFilenames` | vip/req.py:10-54 | the append loop over the product collects exactly the names `RequirementsFilenames` gives |
| `Req.Prefixes` | vip/req.py:38-41 | the list has one element when the prefix is empty and two otherwise; the first is `""`, the second `prefix + "-"` |
| `Req.Segments` | vip/req.py:44 | there are at most as many segments as version elements; no segment is empty or `"."` |
| `Req.SegmentsAllKept` | vip/req.py:44 | with no element to drop, the segments are the stringified elements, one for one, in order |
| `Req.SegmentsNoneKept` | vip/req.py:44 | with every element false or `'.'`, there are no segments |
| `Req.SegmentsAppend` | vip/req.py:44 | the segments of concatenated versions are the concatenated segments, so the filter keeps order |
| `Req.ZeroSegmentDropped` | vip/req.py:44 | the version (3, 0, 1) gives the segments 3 and 1, because a 0 is false |
| `Req.NatToString` | vip/req.py:44 | `str` of a natural number is a non-empty string of decimal digits, one character long exactly below 10 |
| `Req.NatToStringValue` | vip/req.py:44 | the digits `str` gives for a natural number denote that number, read as decimal from the left |
| `Req.NatToStringNoLeadingZero` | vip/req.py:44 | `str` of a number of 10 or more does not start with `0` |
| `Req.IntToStringValue` | vip/req.py:44 | `str` of a non-negative int denotes it; `str` of a negative int is `-` followed by digits denoting its magnitude |
| `Req.IntToStringExamples` | vip/req.py:44 | `str(-3)` is `"-3"` and `str(10)` is `"10"` |
| `Req.VersionStringText` | vip/req.py:44-46 | iterating a version string keeps its characters other than `.`, in order: the segments joined give the string without its dots, and the string itself when it has none |
| `Req.VersionStringSegments` | vip/req_test.py:54-61 | the version `"2.1"` gives the segments 2 and 1 |
| `Req.Suffixes` | vip/req.py:45-46 | there are n + 1 suffixes for n segments, the first empty |
| `Req.SuffixesDashed` | vip/req.py:46 | every suffix after the first starts with `-` |
| `Req.SuffixesExtend` | vip/req.py:45-46 | suffix 1 is `-` followed by segment 0, and each later suffix is the previous one followed by the next segment |
| `Req.SuffixesNested` | vip/req.py:45-46 | each non-empty suffix is a prefix of every later one |
| `Req.Suffixes273` | vip/req.py:45-46 | the version (2, 7, 3) gives the suffixes `""`, `-2`, `-27`, `-273` |
| `Req.ProductLength` | vip/req.py:48 | the product has \|prefixes\| × \|suffixes\| pairs |
| `Req.ProductAt` | vip/req.py:48 | pair `i * \|suffixes\| + j` is (prefix i, suffix j): prefix-major order |
| `Req.FilenamesLength` | vip/req.py:38-48 | there are 1 × (n + 1) names without a prefix and 2 × (n + 1) with one |
| `Req.FilenameAt` | vip/req.py:48-52 | name `i * (n + 1) + j` is prefix i, `requirements`, suffix j, `.`, the extension, joined onto the source directory when one is given |
| `Req.PlainName` | vip/req.py:49 | the empty prefix and the empty suffix give `requirements.<extension>` |
| `Req.FirstFilename` | vip/req.py:38-52 | the first name is always `requirements.<extension>`, joined onto the source directory when one is given |
| `Req.FilenamesWithoutPrefix` | vip/req.py:38-52 | without a prefix there is one name per suffix, in suffix order, and no other names |
| `Req.FilenamesWithPrefix` | vip/req.py:38-52 | with a prefix, the first half is every unprefixed name and the second half every `prefix-` name, each in suffix order |
| `Req.FilenamesInSourceDir` | vip/req.py:51-52 | with a source directory, each name is that directory joined with the corresponding bare name |
| `Req.PosixJoinRelative` | vip/req.py:52 | joining a name that does not start with `/` onto a directory without a trailing `/` inserts exactly one `/` |
| `Req.PlaceEndsWith` | vip/req.py:51-52 | joining onto the source directory keeps the whole filename as the end of the result |
| `Req.FilenamesExtension` | vip/req.py:49-52 | every name ends with `.<extension>` |
| `Req.MajorVersionNames` | vip/req_test.py:43-52 | a version starting with a positive major number yields both `requirements-<major>.<ext>` and `<prefix>-requirements-<major>.<ext>` |
| `Req.EmptyPrefixAndVersion` | vip/req_test.py:13-16 | an empty prefix and an empty version give exactly `["requirements.txt"]` |
| `Req.PrefixAndVersion` | vip/req_test.py:18-31 | prefix `devel` and version (2, 7, 3) give the eight names of the test, in order |
| `Req.PrefixAndVersionNames` | vip/req.py:48-49 | prefix `devel` and version (2, 7, 3) give the eight `FormatName` pairs in prefix-major order |
| `Req.NoPrefix` | vip/req_test.py:33-41 | version (2, 7, 3) with no prefix gives the four names of the test, in order |
| `Req.VersionAsString` | vip/req_test.py:54-61 | the version string `"2.1"` gives `requirements.txt`, `requirements-2.txt`, `requirements-21.txt` |
| `Req.VersionAsStringNames` | vip/req.py:44-49 | the version string `"2.1"` gives the names for the suffixes `""`, `-2`, `-21` |
| `Req.SourceDir` | vip/req_test.py:63-70 | source directory `/tmp` and version `"2"` give `/tmp/requirements.txt`, `/tmp/requirements-2.txt` |

## Findings

| source | as written | input that shows it | evidently intended | confidence | as-written member | corrected member |
|---|---|---|---|---|---|---|
| vip/core.py:22-29 | `abspath` keeps a start's two leading slashes, the head `split` gives for `//` is `//`, and the loop goes on while the directory is not `/` | `find_vip_directory("//tmp")`, as in `vip --locate //tmp` (vip/main.py:74-75), with no `.vip` directory in `/tmp` or `/`: the loop never ends; with a `/.vip` directory it returns `//.vip` | the walk stops at the root however the start is spelt, never examines `/.vip`, and fails with the fixed message | high; not executed | `Core.DoubleSlashNeverStops` | `Core.FindVipDirectory` |

## Left out

- `vip/main.py`: the command-line front end is not part of this model. It is argument parsing, printing and exit codes around `find_vip_directory` (vip/main.py:75, 78) and the unmodelled `create_virtualenv` (vip/main.py:71) and `execute_virtualenv_command` (vip/main.py:79); it does not call `get_requirements_filenames`.
- `setup.py`: packaging metadata is not part of this model.
- `find_requirements` (vip/req.py:57-82): left out. It checks which names exist and hands each file to pip's requirements parser, a foreign library whose code is not visible.
- Running commands inside the environment and creating an environment are not part of this model. Those operations spawn processes and call the external virtualenv and pip tools, and their code is not among the modelled sources.
- The real filesystem is replaced by the given sets of directories and plain files. The current directory is passed as a parameter. Symbolic links, permissions and races between the checks are not modelled.
- POSIX `normpath` keeps exactly two leading slashes (`//x`) as they are. `FindVipDirectory` and `Search` treat such a start like `/x` and stop at the root. On such a start `find_vip_directory` itself never stops when no `.vip` directory is found, `/.vip` included; it returns `//.vip` when `/` has a `.vip` directory and none deeper, where `FindVipDirectory` fails; and it returns a deeper `.vip` directory spelt with `//`, where `FindVipDirectory` returns the same directory. Its behaviour there is stated by `WalkAsWritten`, `WalkAsWrittenFound` and the `DoubleSlash` lemmas, which bound the number of turns instead of looping for ever.
- Strings as paths: the start path is given already split at `/`, as pieces. The conversion between path strings and component sequences is not modelled.
- The default `version=sys.version_info` is environmental. The version is always passed explicitly.
- The defaults `start="."` (vip/core.py:10, used by vip/main.py:78) and `extension='txt'` (vip/req.py:11) are not modelled as defaults. `FindVipDirectory` takes `start` and `GetRequirementsFilenames` takes `extension` as required parameters; `RawPath(false, ["."])` stands for the default start.
- Version elements other than ints and strings (floats, say) are not modelled.
- The generator is modelled as the complete list of names it yields. Lazy, one-at-a-time evaluation is not modelled.
- `os.path.join` is modelled for POSIX only.
