# apt-repos suite selection and workspace provisioning, in Dafny

This project models `src/lib_apt_repos.py` of apt-repos, a library that queries
Debian package repositories ("suites") without touching the host's apt setup.
The library reads a JSON catalog of suites and selects suites with
`repo:suiteName` selectors. For every selected suite it builds a `RepoSuite`
with a private root directory. That root holds a generated `sources.list` and
`apt.conf` and an empty dpkg status file.

Modules:

- `Text` (`text.dfy`): the Python string operations the code uses.
  These are `split(":", 1)`, single-character `replace`, `join`, string `<`
  (lexicographic by code point) and `sorted`.
- `RepoSuites` (`repo_suite.dfy`): the catalog entry (`SuiteDesc`) and the
  `RepoSuite` fields. It also has the root-directory name, `getSourcesList`,
  `getAptConf`, `__eq__`/`__ne__`/`__hash__`/`__lt__` and the file-system side
  of the constructor. That side is modelled on a `FileTree` object holding
  directories and file contents.
- `Selection` (`selection.dfy`): the selection loops of `getSuites`. The
  Python `set` of `RepoSuite` objects compares elements by suite id only. It is
  modelled as a map from suite id to the object kept for that id. `set.add` of
  an equal object keeps the object already present.
- `AptRepos` (`apt_repos.dfy`): the module globals `__baseDir`, `__cacheDir`
  and `__suiteFiles`, modelled as the fields of class `ModuleState`. This module
  also has `setAptRepoBaseDir`, the catalog-loading loop and `getSuites` itself.

Parameters stand in for the host environment:

- `isDir` for `os.path.isdir`
- `isFile` for `os.path.isfile`
- `realpath` for `os.path.realpath`
- `readSuites` for opening a file and calling `json.load`
- `hashString` for Python's string hash
- `home` for `expanduser('~')`

Behaviour of the code worth knowing before reading the model:

- **Catalog file choice.** The loop at `src/lib_apt_repos.py:72-77` reads every
  existing candidate, and each one replaces the data read before it. So the
  last existing file wins, not the first: with both default candidates present,
  `/etc/apt-repos/suites` overrides the user's file (`SystemSuitesFileWins`).
- **Root directories can collide.** Replacing `/` by `^` does not keep distinct
  suite ids apart: `r/s:x` and `r^s:x` share a directory (`SanitizeNotInjective`).
  Distinct ids map to distinct directories only when the ids contain no `^`
  (`SanitizeInjectiveWithoutCaret`).
- **Roots can leave the cache directory.** Suite ids are not validated. For an
  id with a `:` the root's last component keeps the `:`, so it is never empty,
  `.` or `..` (`CachePathBelowCacheDir`). The ids `..`, `.` and the empty id give
  `cacheDir + "/.."`, `cacheDir + "/."` and `cacheDir + "/"`: the cache directory's
  parent, or the cache directory itself (`CachePathDotDot`).
- **Selector order decides the record kept.** The set of selected ids does not
  depend on the order of the selectors (`SelectedIdsIgnoreSelectorOrder`), but
  the record kept for an id does. With the catalog `r:x` tagged `t1`, then
  `r:x` tagged `t2`, the selectors `t1:, t2:` keep ordervalue 0 and `t2:, t1:`
  keep ordervalue 1 (`SelectorOrderExample`).
- **No order in the result.** The selection result is a Python `set`, so it
  has no catalog order of its own. Any order comes from sorting it with
  `__lt__`. Within one selection that order is total (`SelectionIsTotallyOrdered`).

## Model

| member | source | states |
|---|---|---|
| `Text.SplitOnceParts` | src/lib_apt_repos.py:85-89 | `split(sep, 1)` gives one part (the whole text) iff there is no separator. Otherwise it gives two parts: the text before the first separator, which has no separator, and the rest. |
| `Text.SplitOnceAt` | src/lib_apt_repos.py:94-98 | Splitting `a + sep + b` once returns exactly `[a, b]` whenever `a` has no separator, even if `b` has one. |
| `Text.SplitOnce` | src/lib_apt_repos.py:85-89 | The definition of `split(sep, 1)` by recursion on the text. It carries no contract of its own; `SplitOnceParts` and `SplitOnceAt` state its meaning. |
| `Text.Join` | src/lib_apt_repos.py:150 | The recursive definition of `sep.join(parts)`: `[]` gives `""` and `[x]` gives `x`. `JoinAppend` states how it grows. |
| `Text.JoinAppend` | src/lib_apt_repos.py:150 | Appending a part to a non-empty list appends the separator and that part to the joined text. |
| `Text.LexLeq` | src/lib_apt_repos.py:150 | The definition of Python's string `<=`, by code point. `LexLeqPrefix`, `LexLeqFirstDifference` and `LexLessStrictTotal` state its meaning. |
| `Text.LexLeqPrefix` | src/lib_apt_repos.py:150 | A string sorts no later than any string that starts with it. |
| `Text.LexLeqFirstDifference` | src/lib_apt_repos.py:150 | After a common prefix, `<=` is decided by the first differing character. |
| `Text.LexLess` | src/lib_apt_repos.py:170 | The definition of Python's string `<`: `<=` and not equal. `LexLessStrictTotal` states that it is a strict total order. |
| `Text.ReplaceChar` | src/lib_apt_repos.py:114 | The result of `str.replace` has the same length as the input. Every occurrence of the old character becomes the new one, and every other character stays where it was. |
| `Text.LexLessStrictTotal` | src/lib_apt_repos.py:167-170 | Python's string `<` is irreflexive, asymmetric and transitive, and it orders any two distinct strings one way or the other. |
| `Text.Insert` | src/lib_apt_repos.py:150 | Inserting a string adds exactly that string to the multiset of elements. |
| `Text.InsertSorted` | src/lib_apt_repos.py:150 | Inserting into an ascending list keeps it ascending. |
| `Text.SortStrings` | src/lib_apt_repos.py:150 | `sorted` returns an ascending list that is a permutation of its input. |
| `Text.SortedUnique` | src/lib_apt_repos.py:150 | Two ascending lists with the same multiset of elements are equal. |
| `Text.SortPermutationInvariant` | src/lib_apt_repos.py:150 | Permuting the input never changes what `sorted` returns. |
| `RepoSuites.SanitizeSuiteId` | src/lib_apt_repos.py:114 | The directory name has the suite id's length and contains no `/`. Every character other than `/` is kept in place. |
| `RepoSuites.SanitizeNotInjective` | src/lib_apt_repos.py:114 | The distinct ids `r/s:x` and `r^s:x` get the same directory name. |
| `RepoSuites.SanitizeInjectiveWithoutCaret` | src/lib_apt_repos.py:114 | For ids that contain no `^`, equal directory names imply equal ids. |
| `RepoSuites.CachePath` | src/lib_apt_repos.py:114 | The path given to `realpath` is the cache directory, a `/`, then one component with no `/` in it. |
| `RepoSuites.CachePathBelowCacheDir` | src/lib_apt_repos.py:114 | For a suite id containing `:`, the last component of the path is none of the empty string, `.` and `..`. |
| `RepoSuites.CachePathDotDot` | src/lib_apt_repos.py:114 | The ids `..`, `.` and the empty id give the paths `cacheDir/..`, `cacheDir/.` and `cacheDir/`. |
| `RepoSuites.NewRepoSuite` | src/lib_apt_repos.py:112-117 | The suite id, source entry, `DebSrc` flag and architectures are copied from the catalog entry. The ordervalue is the given index. The root is `realpath` of the suite's cache path. |
| `RepoSuites.DebSrcLine` | src/lib_apt_repos.py:145 | An entry starting with `deb ` gets `deb-src ` in place of that prefix, with the rest copied, so it is 4 characters longer. Any other entry is unchanged. |
| `RepoSuites.SourcesList` | src/lib_apt_repos.py:142-146 | The entry always comes first. Without `DebSrc` the text is just the entry. With `DebSrc` a newline follows, then the `deb-src` form of the entry. |
| `RepoSuites.SourcesListLines` | src/lib_apt_repos.py:142-146 | For a one-line entry, sources.list has one line, or two lines with `DebSrc`. The second line rewrites only a leading `deb ` to `deb-src ` and copies everything after it. An entry without that prefix is repeated unchanged. |
| `RepoSuites.SourcesListScenario` | src/lib_apt_repos.py:142-146 | The entry `deb http://x y main` with `DebSrc` gives `deb http://x y main\ndeb-src http://x y main`. |
| `RepoSuites.AptConf` | src/lib_apt_repos.py:149-150 | The text starts with `APT { Architectures { "` and ends with `"; }; };`. |
| `RepoSuites.AptConfIsSortedJoin` | src/lib_apt_repos.py:149-150 | apt.conf is the fixed head, then any ascending permutation of the architectures joined by `"; "`, then the fixed tail. |
| `RepoSuites.AptConfPermutationInvariant` | src/lib_apt_repos.py:149-150 | Permuting the architecture list never changes apt.conf. |
| `RepoSuites.AptConfExample` | src/lib_apt_repos.py:149-150 | `["b", "a"]` is written as `APT { Architectures { "a"; "b"; }; };`. |
| `RepoSuites.AptConfEmpty` | src/lib_apt_repos.py:149-150 | An empty list is written as `APT { Architectures { ""; }; };`. |
| `RepoSuites.Equals` | src/lib_apt_repos.py:159-162 | Comparing with `None` gives false. Comparing with a record gives true iff the suite ids are equal. |
| `RepoSuites.NotEquals` | src/lib_apt_repos.py:164-165 | Comparing with `None` gives true. Comparing with a record gives true iff the suite ids differ. |
| `RepoSuites.Hash` | src/lib_apt_repos.py:156-157 | Every record `==` to this one has the same hash: the hash depends on the suite id alone. |
| `RepoSuites.Less` | src/lib_apt_repos.py:167-170 | A record `<` another never has a larger ordervalue. A smaller ordervalue always makes it `<`. Equal ordervalues are ordered by string `<` on the suite ids. |
| `RepoSuites.EqualityIsSuiteId` | src/lib_apt_repos.py:156-165 | `== None` is false. Otherwise `==` holds iff the suite ids are equal and is an equivalence. `!=` is its negation, and equal records have equal hashes. |
| `RepoSuites.LessIsStrictOrder` | src/lib_apt_repos.py:167-170 | `<` is a strict order by `(ordervalue, suite)`. It is total on records whose keys differ. |
| `RepoSuites.WorkspaceFilesContents` | src/lib_apt_repos.py:127-133 | The three generated files have distinct paths under the root. They hold the sources list, the apt.conf text and the empty string. |
| `RepoSuites.ProvisionWorkspace` | src/lib_apt_repos.py:119-133 | Afterwards the four workspace directories exist under the root and the three files hold their generated contents. All other directories and files are unchanged. |
| `RepoSuites.ProvisionIdempotent` | src/lib_apt_repos.py:119-133 | Provisioning the same suite again changes neither directories nor file contents. |
| `Selection.EffectiveSelectors` | src/lib_apt_repos.py:79-80 | The effective list is never empty. A non-empty list is used as given. |
| `Selection.SplitRepoSuite` | src/lib_apt_repos.py:85-89 | The repository part never contains `:`. |
| `Selection.SplitRepoSuiteParts` | src/lib_apt_repos.py:85-89 | A selector or suite id with no colon parses as `("", s)`. Otherwise it splits at the first colon, and the name keeps any later colons. |
| `Selection.SplitRepoSuiteRoundTrip` | src/lib_apt_repos.py:94-98 | Joining a colon-free repository and any suite name with `:` parses back to the same pair. |
| `Selection.EmptyRepoPrefixMatchesAnyRepo` | src/lib_apt_repos.py:100-101 | A selector with an empty repository prefix matches any repository. Only the suite-name condition remains. |
| `Selection.Matches` | src/lib_apt_repos.py:100-101 | The selector `:` (empty repository and name) matches every entry. A match needs an empty selector name or the entry's own suite name. |
| `Selection.Add` | src/lib_apt_repos.py:102 | `set.add` adds the record's suite id to the keys. Records already present stay as they are. The new record is stored only when its id was absent. |
| `Selection.Scan` | src/lib_apt_repos.py:91-102 | One selector's scan over the first `n` entries never removes a selected id. `ScanKeys`, `ScanKeepsExisting` and `ScanKeepsFirst` state exactly what it adds. |
| `Selection.SelectAll` | src/lib_apt_repos.py:83-102 | The definition of the nested loops: the selectors in order, each scanning the whole catalog. Its meaning is stated by `SelectAllKeys`, `SelectAllKeepsFirst` and `SelectAllKeyedBySuite`; its own ensures only records that an empty catalog selects nothing. |
| `Selection.ScanCatalog` | src/lib_apt_repos.py:91-102 | The inner loop yields the one-selector scan over the whole catalog. |
| `Selection.SelectSuites` | src/lib_apt_repos.py:79-104 | The selection loops, with the `default:` fallback, yield the selection over the effective selector list. |
| `Selection.ScanKeys` | src/lib_apt_repos.py:91-102 | One selector's scan adds exactly the ids of the catalog entries it matches. |
| `Selection.ScanKeepsExisting` | src/lib_apt_repos.py:102 | A scan never replaces an already selected record, and every record sits under its own suite id. |
| `Selection.ScanKeepsFirst` | src/lib_apt_repos.py:102 | A newly added id holds the record built from the first matching catalog entry with that id. |
| `Selection.SelectAllKeys` | src/lib_apt_repos.py:83-104 | An id is selected iff some catalog entry with that id matches some selector. So the result comes from the catalog only. |
| `Selection.SelectAllKeyedBySuite` | src/lib_apt_repos.py:102 | Every selected record has the id it is stored under. So no two selected records are `==`. |
| `Selection.SelectAllKeepsFirst` | src/lib_apt_repos.py:83-104 | The record kept for an id comes from the first match, taking selectors in order and catalog entries in order within each selector. Its `ordervalue` is that entry's index. |
| `Selection.SelectAllRoots` | src/lib_apt_repos.py:102-114 | Every selected record has the id it is stored under, and its root is `realpath` of that id's cache path. |
| `Selection.SelectorOrderDecidesKeptRecord` | src/lib_apt_repos.py:83-102 | When two entries share an id and each matches only its own tag selector, the first selector in the list decides which entry's record is kept. |
| `Selection.SelectorOrderExample` | src/lib_apt_repos.py:83-102 | With `r:x` tagged `t1` then `r:x` tagged `t2`, the selectors `t1:, t2:` keep ordervalue 0 and `t2:, t1:` keep ordervalue 1. |
| `Selection.SelectionOrderedByIndex` | src/lib_apt_repos.py:167-170 | Distinct selected records have distinct ordervalues, so `<` on a selection compares catalog indices alone. |
| `Selection.DefaultSelectors` | src/lib_apt_repos.py:79-80 | A missing or empty selector list stands for `["default:"]`. Any other list is used as given. |
| `Selection.DefaultSelection` | src/lib_apt_repos.py:79-101 | With no selectors, the selected ids are those of entries whose repository starts with `default` or that carry the tag `default`. |
| `Selection.SelectedIdsIgnoreSelectorOrder` | src/lib_apt_repos.py:83-104 | Two selector lists with the same elements select the same ids, whatever their order or repetition. |
| `Selection.ScanNothingNew` | src/lib_apt_repos.py:102 | A scan whose every match is already selected leaves the selection unchanged. |
| `Selection.RepeatedSelectorChangesNothing` | src/lib_apt_repos.py:83-104 | Appending a selector that is already in the list leaves the whole result unchanged. |
| `Selection.UnmatchedSelectorChangesNothing` | src/lib_apt_repos.py:83-104 | A selector that matches no entry adds nothing and raises nothing. |
| `Selection.NoMatchScenario` | src/lib_apt_repos.py:83-104 | `nomatch:` selects nothing from a catalog that has no `nomatch` repository prefix or tag. |
| `Selection.SelectionIsTotallyOrdered` | src/lib_apt_repos.py:156-170 | Two distinct selected records are never `==`, and `<` orders them one way or the other. |
| `Selection.SelectByFullId` | src/lib_apt_repos.py:94-102 | Selecting a one-entry catalog by the entry's full `repo:name` id yields exactly that entry at index 0. |
| `Selection.UpdatesStableScenario` | src/lib_apt_repos.py:83-146 | `updates:stable` with `DebSrc` yields one record. Its sources.list is the entry plus its `deb-src` line. |
| `Selection.TwoDefaultsScenario` | src/lib_apt_repos.py:79-104 | With no selectors, two distinct entries tagged `default` are both selected, with ordervalues 0 and 1, and `<` puts them in catalog order. |
| `AptRepos.LoadCatalog` | src/lib_apt_repos.py:71-77 | A load error is the parse error of some existing candidate. A loaded catalog is either the starting data or the parsed contents of some existing candidate. |
| `AptRepos.LoadCatalogNoFile` | src/lib_apt_repos.py:71-77 | When no candidate file exists, the catalog is empty and nothing is raised. |
| `AptRepos.LoadCatalogFirstError` | src/lib_apt_repos.py:71-77 | The first existing file that fails to parse raises its error. |
| `AptRepos.LoadCatalogLastWins` | src/lib_apt_repos.py:71-77 | When every existing file parses, the catalog is the contents of the last existing candidate. |
| `AptRepos.ModuleState.constructor` | src/lib_apt_repos.py:49-51 | The initial base directory is `~/.apt-repos` and the cache directory lies under it. The candidates are the user's suites file, then `/etc/apt-repos/suites`. |
| `AptRepos.ModuleState.SetAptRepoBaseDir` | src/lib_apt_repos.py:54-65 | For an existing directory, the base becomes its real path, the cache lies under it and only its suites file remains a candidate. Otherwise the exception message is returned and no global changes. |
| `AptRepos.ModuleState.LoadSuitesData` | src/lib_apt_repos.py:71-77 | The file loop yields exactly the catalog-loading outcome for the configured candidates. |
| `AptRepos.ModuleState.GetSuites` | src/lib_apt_repos.py:68-104 | A catalog that fails to parse raises its error. Otherwise the result is the selection over the loaded catalog. Every selected record is rooted at `realpath` of the current base directory's cache directory, a `/`, and its id with `/` replaced by `^`. For the ids `..`, `.` and the empty id that path is not inside the cache directory (`CachePathDotDot`). |
| `AptRepos.SystemSuitesFileWins` | src/lib_apt_repos.py:72-77 | With both default candidates present and parseable, the catalog is `/etc/apt-repos/suites`. |
| `AptRepos.ReconfiguredCatalog` | src/lib_apt_repos.py:72-77 | With a single candidate, the catalog is that file's parse outcome if it exists, and empty otherwise. |

## Left out

- The `apt_pkg` calls at the end of the `RepoSuite` constructor (`read_config_file`, `config.set`, `init_system`). They configure a foreign library's process-global state, which this model cannot see.
- The opening and JSON parsing of the suites files. `readSuites` stands for them. A catalog entry missing `Suite`, `SourcesList` or `Architectures` is not modelled: entries are typed records. `DebSrc` is a boolean, `false` when absent. `Tags` is a list, `[]` when absent or empty. Non-boolean `DebSrc` values and non-list `Tags` values are not modelled.
- `os.path.isdir`, `os.path.isfile`, `os.path.realpath` and `expanduser` depend on the host file system. They are parameters.
- `ProvisionWorkspace`: `os.makedirs` also creates missing parent directories. The model records only the four workspace directories, and failing directory creation or file writes are not modelled.
- `SelectSuites`: in the source, building each matching `RepoSuite` provisions its workspace immediately, even for a duplicate match that the set then drops. The model keeps the field values in the selection and models provisioning separately in `ProvisionWorkspace`. The visible consequence is not modelled. Take two matching catalog entries that share an id. The first entry's record is returned. The second entry's constructor still runs, and because the root depends on the id alone, it overwrites `sources.list` and `apt.conf` under the same root. The files on disk then describe the second entry, not the returned one.
- `GetSuites`: only the catalog parse error is modelled. Errors raised while building a `RepoSuite` are not: `os.makedirs`, the file writes and the `apt_pkg` calls can all raise in the source.
- Iteration order of the returned Python `set`: the map has none. Ordering is covered by `__lt__`.
- Python's concrete string hash values. `hashString` is a parameter.
- Logging, and `getSuiteName`, which returns the `suite` field.
