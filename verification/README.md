# TwinCAT library references in Dafny

This project models `TcLibraryReference`, the value type of TcCliTools that
describes a TwinCAT library by title, version and company. A reference is
read from and written as `"<title>, <version> (<company>)"`, for example
`"Tc2_Standard, 3.3.3.0 (Beckhoff Automation GmbH)"`. The type also has an
equality that ignores case and treats the version `*` as "any version", a
"greater than" relation and `>=`, and `select_latest`, which picks the
newest reference of one library.

Files, one module each:

- `wrappers.dfy` (`Wrappers`): `Option` for Python's `None`, `Result` for a raised exception.
- `text.dfy` (`Text`): ASCII lower-casing, decimal digits and two-character delimiters.
- `versions.dfy` (`Versions`): a version is the wildcard `Any` or `Fixed(release)`.
  A release is a non-empty sequence of naturals. The module holds the PEP 440
  ordering of release segments: compare element by element with the shorter
  one padded with zeros, so `1.0 == 1.0.0`. It also holds the parser and the
  printer of version text.
- `pattern.dfy` (`ReferencePattern`): the regular expression `^(.*), (.*) \((.*)\)`.
  The model states what the backtracking engine returns: of all ways to cut
  the string into the three groups, the one whose group ends are
  lexicographically greatest. Three nested descending searches compute it.
- `reference.dfy` (`LibraryReference`): the reference record, `parse_string`,
  `from_string`, `is_any_version`, `__str__`, `__eq__`, `__gt__`, `__ge__` and
  `select_latest`.
- `sort.dfy` (`VersionSort`): a stable insertion sort by version. It stands for
  Python's `sorted(..., key=lambda x: x.version)` and serves as the independent
  definition that `select_latest` is checked against.

The exception `TcLibraryException` becomes the `Error` datatype. Its two
constructors stand for the two messages the code raises. Python's `TypeError`
when a fixed version meets `"*"` in `>` or in a sort becomes a precondition
(`CanCompare`, `SortableVersions`).

The version parser of the `packaging` library is not part of this model. It
is replaced by a parser for the release-only subset of PEP 440. That parser
accepts ASCII whitespace around the version and an optional leading `v` or
`V`. The ordering of releases follows the PEP 440 comparison key, which drops
trailing zeros and then compares as tuples. `Versions.CompareIsStrippedLexCompare`
proves that padded comparison equals that key comparison.

## Model

| member | source | states |
|---|---|---|
| `ReferencePattern.Match` | src/tcclitools/tclibrary/tclibraryreference.py:14 | The match found is a cut of the string as `title, version (company)...` that is preferred over every other cut: longest title first, then longest version, then longest company. When there is no match, no cut exists. |
| `ReferencePattern.GreedyFitUnique` | src/tcclitools/tclibrary/tclibraryreference.py:14 | Two greedy matches of one string are the same match, so the groups are determined by the string. |
| `ReferencePattern.FitsDecomposes` | src/tcclitools/tclibrary/tclibraryreference.py:14 | Every match splits the string into title, `", "`, version text, `" ("`, company, `")"` and an ignored rest, because the pattern has no end anchor. |
| `ReferencePattern.MatchCompose` | src/tcclitools/tclibrary/tclibraryreference.py:14 | Take a composed string whose version text has no comma or `(` and whose company has no `" ("`. Its match cuts exactly at the composed pieces, whatever the title holds. |
| `ReferencePattern.MatchComposeOpenInCompany` | src/tcclitools/tclibrary/tclibraryreference.py:14 | When the company holds `" ("`, the greedy match lengthens the title or pushes the version group past the real `" ("`. |
| `LibraryReference.ParseString` | src/tcclitools/tclibrary/tclibraryreference.py:26-44 | Success returns exactly the title, parsed version and company of the greedy match. Failure carries the input string. Failure happens only when no field triple can be read: no match, or version text that is not a version. |
| `LibraryReference.ParseComposed` | src/tcclitools/tclibrary/tclibraryreference.py:29-42 | Parsing `t + ", " + vt + " (" + c + ")"` returns `(t, version of vt, c)` when `vt` has no comma or `(` and `c` has no `" ("`. It fails when `vt` is not a version. |
| `LibraryReference.ParseExample` | src/tcclitools/tclibrary/tclibraryreference.py:29-31 | The docstring example parses as title `Tc2_Standard`, version 3.3.3.0 and company `Beckhoff Automation GmbH`. |
| `LibraryReference.FromString` | src/tcclitools/tclibrary/tclibraryreference.py:46-52 | The reference built holds the parsed fields. On failure it is the parse error, with no partial reference. |
| `Versions.ParseVersion` | src/tcclitools/tclibrary/tclibraryreference.py:40 | The text `"*"` and only that text gives the wildcard. Any other text is accepted exactly when, after trimming whitespace at both ends and dropping one leading `v`/`V`, it is a well-formed release segment. A text read as a release is made only of digits, dots, whitespace and `v`/`V`. |
| `Versions.ParseReleaseAccepts` | src/tcclitools/tclibrary/tclibraryreference.py:40 | A release segment is read exactly when the text is digits and dots, starts and ends with a digit and has no two dots in a row. |
| `Versions.ReleaseRoundTrip` | src/tcclitools/tclibrary/tclibraryreference.py:40 | Printing a release segment and reading it back gives the same segment. |
| `Versions.VersionRoundTrip` | src/tcclitools/tclibrary/tclibraryreference.py:40 | Printing a version (`*` or the release) and parsing it back gives the same version. |
| `LibraryReference.FromStringWildcard` | src/tcclitools/tclibrary/tclibraryreference.py:21-23 | A reference read from a string has the wildcard version exactly when its version text is `"*"`. |
| `LibraryReference.RenderRoundTrip` | src/tcclitools/tclibrary/tclibraryreference.py:80-85 | `from_string(str(r))` gives `r` back exactly when the company has no `" ("`. The title may hold any text. |
| `LibraryReference.RenderOpenInCompany` | src/tcclitools/tclibrary/tclibraryreference.py:80-85 | With a `" ("` in the company, the rendered text reads back as a different reference or not at all. |
| `Versions.CompareIsStrippedLexCompare` | src/tcclitools/tclibrary/tclibraryreference.py:103 | Comparing release segments with zero padding equals Python tuple comparison after trailing zeros are dropped. |
| `Versions.CompareZeroIffSameStripped` | src/tcclitools/tclibrary/tclibraryreference.py:93 | Two release segments compare equal exactly when they differ only in trailing zeros. |
| `Versions.CompareTransitive` | src/tcclitools/tclibrary/tclibraryreference.py:103 | The version order is transitive. It is strict when either step is strict. |
| `Versions.CompareAntisymmetric` | src/tcclitools/tclibrary/tclibraryreference.py:103 | Swapping the arguments negates the comparison. |
| `LibraryReference.EqualReflexive` | src/tcclitools/tclibrary/tclibraryreference.py:90-99 | Every reference equals itself. |
| `LibraryReference.EqualSymmetric` | src/tcclitools/tclibrary/tclibraryreference.py:90-99 | Equality does not depend on argument order. |
| `LibraryReference.EqualFixed` | src/tcclitools/tclibrary/tclibraryreference.py:90-99 | For fixed versions, two references are equal exactly when their names agree up to case and their releases agree up to trailing zeros. |
| `LibraryReference.EqualIgnoresCase` | src/tcclitools/tclibrary/tclibraryreference.py:90-99 | Lower-casing the title and company of one side does not change equality. |
| `LibraryReference.EqualNotTransitive` | src/tcclitools/tclibrary/tclibraryreference.py:90-99 | There are references with 3.3.3.0 == * and * == 3.4 but 3.3.3.0 != 3.4, so equality is not transitive. |
| `LibraryReference.EqualExamples` | src/tcclitools/tclibrary/tclibraryreference.py:90-99 | A wildcard reference equals a same-named 3.3.3.0 reference. References whose names differ only in case are equal. |
| `LibraryReference.GreaterSelf` | src/tcclitools/tclibrary/tclibraryreference.py:101-106 | A reference is greater than itself exactly when its version is the wildcard. |
| `LibraryReference.WildcardGreatest` | src/tcclitools/tclibrary/tclibraryreference.py:101-106 | A wildcard reference is greater than, at least, and equal to every reference of the same name. |
| `LibraryReference.GreaterTransitive` | src/tcclitools/tclibrary/tclibraryreference.py:101-106 | `>` is transitive. |
| `LibraryReference.Trichotomy` | src/tcclitools/tclibrary/tclibraryreference.py:90-106 | For fixed references of one name, exactly one of `a > b`, `a == b` and `b > a` holds. |
| `LibraryReference.GreaterOrEqualIsVersionOrder` | src/tcclitools/tclibrary/tclibraryreference.py:108-109 | Within one name and one kind of version, `a >= b` holds exactly when a's version is at least b's. |
| `LibraryReference.GreaterOrEqualTotal` | src/tcclitools/tclibrary/tclibraryreference.py:108-109 | Within one name and one kind of version, `a >= b` or `b >= a`. |
| `LibraryReference.LatestIndex` | src/tcclitools/tclibrary/tclibraryreference.py:78 | The chosen index holds a highest version, and every later index holds a strictly lower one. |
| `LibraryReference.SelectLatest` | src/tcclitools/tclibrary/tclibraryreference.py:54-78 | An empty list gives none and one reference gives itself. Two or more raise exactly when some title or company differs from the first one's, compared exactly. Otherwise the result is a list member that is `>=` every member, and no later member is `>=` it. |
| `LibraryReference.SelectLatestEdgeExamples` | src/tcclitools/tclibrary/tclibraryreference.py:60-76 | `select_latest([])` is none. Two references with different titles raise. |
| `LibraryReference.SelectLatestTieExample` | src/tcclitools/tclibrary/tclibraryreference.py:78 | Of 2.0 and 2.0.0 the later one is returned. Of 2.0 and 1.5 it is 2.0. |
| `VersionSort.SortSorted` | src/tcclitools/tclibrary/tclibraryreference.py:78 | The reference sort puts versions in non-decreasing order. It keeps the same multiset of references. |
| `VersionSort.SortLastIsLatest` | src/tcclitools/tclibrary/tclibraryreference.py:78 | The last element of the stably sorted list is the last of the highest versions, in input order. |
| `VersionSort.SelectLatestIsLastOfSorted` | src/tcclitools/tclibrary/tclibraryreference.py:78 | For a list of one name and one kind of version, `select_latest` returns `sorted(references, key=version)[-1]`. |

## Left out

- `src/tcclitools/tclibrary/tclibrary.py` (`TcLibrary`) is not modelled. It reads XML project and `browsercache` files, checks whether files exist, scans a directory tree and registers paths in the process-wide `UniquePath` registry, whose source is not part of this model. Its `as_reference` only copies three fields.
- `__hash__` and `__repr__` are not modelled. The hash is Python's `hash` of the rendered string.
- Versions.ParseVersion: accepts only versions made of a release segment, with optional surrounding ASCII whitespace and a leading `v`/`V`. Epochs, pre-, post- and dev-releases and local labels, which the `packaging` parser accepts, are rejected here, because the `Version` type holds only a release segment.
- Versions.IsSpace: covers the six whitespace characters of the C locale (space, tab, newline, carriage return, vertical tab, form feed). Python's `\s` also matches `\x1c`–`\x1f` and Unicode spaces.
- Text.Lower: lowers only ASCII letters. Python's `str.lower` maps all Unicode letters, so equality and `>` on non-ASCII names can differ.
- ReferencePattern.Match: ignores the rule that `.` does not match a newline. With a newline in the string, the model can match where Python does not, or match with different groups. For `"A, B (C)\nD, E (F)"`, Python stops at the newline and yields title `A`, version `B` and company `C`. The model takes the last cut and yields title `"A, B (C)\nD"`, version `E` and company `F`.
- LibraryReference.SelectLatest: its precondition excludes a list of two or more references that share title and company but mix `"*"` with fixed versions. Python's sort raises `TypeError` on such a list.
- LibraryReference.GreaterOrEqual and `LibraryReference.Greater` take a fixed reference on the left and a wildcard on the right only under their precondition `CanCompare`. Python raises `TypeError` there.
- The constructor `TcLibraryReference(title, version, company)` accepts any string as a version. The model's `Version` admits only `"*"` and parsed releases, which is what `parse_string` and `TcLibrary` produce.
- `__eq__` returns `False` when the other object is not a reference. The model compares references only.
- The code raises one exception class, `TcLibraryException`, for both parse and selection errors. The two `Error` constructors stand for its two messages.
