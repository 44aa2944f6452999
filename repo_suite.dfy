/**
 * The `RepoSuite` class of lib_apt_repos: the fields derived from one catalog
 * entry, the two generated configuration texts, identity and ordering, and the
 * workspace files and directories its constructor writes.
 */
module RepoSuites {
  import opened Results
  import opened Text

  /**
   * One entry of the suites catalog after `json.load`. An absent `DebSrc` is `false`;
   * an absent, null or empty `Tags` is `[]` (the library reads both as an empty list).
   */
  datatype SuiteDesc = SuiteDesc(
    suite: string,
    sourcesList: string,
    debSrc: bool,
    architectures: seq<string>,
    tags: seq<string>)

  /** The fields a `RepoSuite` object holds once constructed. */
  datatype RepoSuite = RepoSuite(
    suite: string,
    orderValue: int,
    rootDir: string,
    sourcesListEntry: string,
    printDebSrc: bool,
    architectures: seq<string>)

  /** `suite.replace("/", "^")`: the directory name of a suite's private root. */
  function SanitizeSuiteId(suite: string): (r: string)
    ensures |r| == |suite|
    ensures '/' !in r
    ensures forall i :: 0 <= i < |suite| && suite[i] != '/' ==> r[i] == suite[i]
  {
    ReplaceChar(suite, '/', '^')
  }

  /** Two distinct suite ids can share a directory: `/` and `^` are not told apart. */
  lemma SanitizeNotInjective()
    ensures "r/s:x" != "r^s:x" && SanitizeSuiteId("r/s:x") == SanitizeSuiteId("r^s:x")
  {
  }

  /** Among suite ids that contain no `^`, distinct ids get distinct directories. */
  lemma SanitizeInjectiveWithoutCaret(a: string, b: string)
    requires '^' !in a && '^' !in b
    requires SanitizeSuiteId(a) == SanitizeSuiteId(b)
    ensures a == b
  {
  }

  /**
   * `cacheDir + '/' + suite.replace("/", "^")`, the path handed to `realpath`:
   * `cacheDir`, a slash, then a last component that holds no slash. Whether that
   * path names a directory below `cacheDir` depends on the component: see
   * `CachePathBelowCacheDir` and `CachePathDotDot`.
   */
  function CachePath(cacheDir: string, suite: string): (p: string)
    ensures |p| == |cacheDir| + 1 + |suite|
    ensures p[..|cacheDir| + 1] == cacheDir + "/"
    ensures '/' !in p[|cacheDir| + 1..]
  {
    var name := SanitizeSuiteId(suite);
    assert (cacheDir + "/" + name)[|cacheDir| + 1..] == name;
    cacheDir + "/" + name
  }

  /**
   * For every well-formed suite id (one holding the `:` between repository and
   * name) the last component keeps that `:`, so it is never empty, `.` or `..`:
   * the path names an entry strictly inside `cacheDir`.
   */
  lemma CachePathBelowCacheDir(cacheDir: string, suite: string)
    requires ':' in suite
    ensures var name := CachePath(cacheDir, suite)[|cacheDir| + 1..];
      name != "" && name != "." && name != ".."
  {
    var i :| 0 <= i < |suite| && suite[i] == ':';
    var name := CachePath(cacheDir, suite)[|cacheDir| + 1..];
    assert name == SanitizeSuiteId(suite);
    assert name[i] == ':';
  }

  /**
   * Ids without `:` are not rejected by the library: the id `..` yields the parent
   * of `cacheDir`, and `.` and the empty id yield `cacheDir` itself.
   */
  lemma CachePathDotDot(cacheDir: string)
    ensures CachePath(cacheDir, "..") == cacheDir + "/.."
    ensures CachePath(cacheDir, ".") == cacheDir + "/."
    ensures CachePath(cacheDir, "") == cacheDir + "/"
  {
    assert SanitizeSuiteId("..") == "..";
    assert SanitizeSuiteId(".") == ".";
  }

  /**
   * The field assignments of `RepoSuite.__init__`: everything but the root is copied
   * from the catalog entry; the root is the resolved path of the suite's cache entry.
   */
  function NewRepoSuite(cacheDir: string, desc: SuiteDesc, orderValue: int, realpath: string -> string): (r: RepoSuite)
    ensures r.suite == desc.suite && r.orderValue == orderValue
    ensures r.sourcesListEntry == desc.sourcesList && r.printDebSrc == desc.debSrc
    ensures r.architectures == desc.architectures
    ensures r.rootDir == realpath(CachePath(cacheDir, desc.suite))
  {
    RepoSuite(desc.suite, orderValue, realpath(CachePath(cacheDir, desc.suite)),
              desc.sourcesList, desc.debSrc, desc.architectures)
  }

  /** `re.sub("^deb ", "deb-src ", entry)`: `^` anchors at the start of the string only. */
  function DebSrcLine(entry: string): (r: string)
    ensures "deb " <= entry ==> "deb-src " <= r && r[8..] == entry[4..] && |r| == |entry| + 4
    ensures !("deb " <= entry) ==> r == entry
  {
    if "deb " <= entry then "deb-src " + entry[4..] else entry
  }

  /** `getSourcesList`: the entry, then a derived `deb-src` line when `DebSrc` is set. */
  function SourcesList(rs: RepoSuite): (r: string)
    ensures rs.sourcesListEntry <= r
    ensures !rs.printDebSrc ==> r == rs.sourcesListEntry
    ensures rs.printDebSrc ==>
      |r| > |rs.sourcesListEntry| &&
      r[|rs.sourcesListEntry|] == '\n' &&
      r[|rs.sourcesListEntry| + 1..] == DebSrcLine(rs.sourcesListEntry)
  {
    var debSrc := if rs.printDebSrc then "\n" + DebSrcLine(rs.sourcesListEntry) else "";
    assert (rs.sourcesListEntry + debSrc)[..|rs.sourcesListEntry|] == rs.sourcesListEntry;
    rs.sourcesListEntry + debSrc
  }

  /** The derived line of a one-line entry is itself one line. */
  lemma DebSrcLineIsOneLine(entry: string)
    requires '\n' !in entry
    ensures '\n' !in DebSrcLine(entry)
  {
  }

  /**
   * Read line by line, a one-line entry gives a sources.list of exactly one line,
   * or of two lines when `DebSrc` is set: the entry and its `deb-src` twin, in which
   * only a leading `deb ` was rewritten and everything after it is copied verbatim.
   */
  lemma SourcesListLines(rs: RepoSuite)
    requires '\n' !in rs.sourcesListEntry
    ensures !rs.printDebSrc ==> SplitOnce(SourcesList(rs), '\n') == [rs.sourcesListEntry]
    ensures rs.printDebSrc ==>
      var lines := SplitOnce(SourcesList(rs), '\n');
      && lines == [rs.sourcesListEntry, DebSrcLine(rs.sourcesListEntry)]
      && '\n' !in lines[1]
      && ("deb " <= rs.sourcesListEntry ==> lines[1] == "deb-src " + rs.sourcesListEntry[4..])
      && (!("deb " <= rs.sourcesListEntry) ==> lines[1] == rs.sourcesListEntry)
  {
    var entry := rs.sourcesListEntry;
    SplitOnceParts(entry, '\n');
    if rs.printDebSrc {
      var line := DebSrcLine(entry);
      DebSrcLineIsOneLine(entry);
      assert SourcesList(rs) == entry + ['\n'] + line;
      SplitOnceAt(entry, '\n', line);
    }
  }

  /** A suite with `DebSrc` whose entry is `deb http://x y main`. */
  lemma SourcesListScenario(rs: RepoSuite)
    requires rs.sourcesListEntry == "deb http://x y main" && rs.printDebSrc
    ensures SourcesList(rs) == "deb http://x y main\ndeb-src http://x y main"
  {
  }

  const AptConfHead: string := "APT { Architectures { \""
  const AptConfSeparator: string := "\"; \""
  const AptConfTail: string := "\"; }; };"

  /** `getAptConf`: the architecture directive, architectures in ascending order. */
  function AptConf(rs: RepoSuite): (r: string)
    ensures AptConfHead <= r
    ensures |r| >= |AptConfHead| + |AptConfTail| && r[|r| - |AptConfTail|..] == AptConfTail
  {
    AptConfHead + Join(SortStrings(rs.architectures), AptConfSeparator) + AptConfTail
  }

  /**
   * The apt.conf text lists THE ascending arrangement of the architectures: any
   * sorted permutation of them, joined, is what appears between head and tail.
   */
  lemma AptConfIsSortedJoin(rs: RepoSuite, ascending: seq<string>)
    requires Sorted(ascending)
    requires multiset(ascending) == multiset(rs.architectures)
    ensures AptConf(rs) == AptConfHead + Join(ascending, AptConfSeparator) + AptConfTail
  {
    SortedUnique(SortStrings(rs.architectures), ascending);
  }

  /** Reordering (or permuting) the architectures never changes apt.conf. */
  lemma AptConfPermutationInvariant(a: RepoSuite, b: RepoSuite)
    requires multiset(a.architectures) == multiset(b.architectures)
    ensures AptConf(a) == AptConf(b)
  {
    AptConfIsSortedJoin(b, SortStrings(a.architectures));
  }

  /** `["b", "a"]` is written as `"a"; "b";`. */
  lemma AptConfExample(rs: RepoSuite)
    requires rs.architectures == ["b", "a"]
    ensures AptConf(rs) == "APT { Architectures { \"a\"; \"b\"; }; };"
  {
    var ascending := ["a", "b"];
    assert LexLeq("a", "b");
    assert Sorted(ascending);
    assert multiset(ascending) == multiset(rs.architectures);
    SortedUnique(SortStrings(rs.architectures), ascending);
    assert SortStrings(rs.architectures) == ascending;
    assert Join(ascending, AptConfSeparator) == "a" + AptConfSeparator + "b";
  }

  /** No architectures at all still yields one empty quoted name. */
  lemma AptConfEmpty(rs: RepoSuite)
    requires rs.architectures == []
    ensures AptConf(rs) == "APT { Architectures { \"\"; }; };"
  {
  }

  /** `__eq__`: `None` is never equal; otherwise only the suite ids are compared. */
  function Equals(self: RepoSuite, other: Option<RepoSuite>): (r: bool)
    ensures other.None? ==> !r
    ensures other.Some? ==> (r <==> self.suite == other.value.suite)
  {
    match other
    case None => false
    case Some(o) => self.suite == o.suite
  }

  /** `__ne__`. */
  function NotEquals(self: RepoSuite, other: Option<RepoSuite>): (r: bool)
    ensures other.None? ==> r
    ensures other.Some? ==> (r <==> self.suite != other.value.suite)
  {
    !Equals(self, other)
  }

  /** `__hash__`: Python's string hash (a parameter here) of the suite id alone. */
  function Hash(self: RepoSuite, hashString: string -> int): (h: int)
    ensures forall other: RepoSuite {:trigger Equals(self, Some(other))} ::
      Equals(self, Some(other)) ==> h == hashString(other.suite)
  {
    hashString(self.suite)
  }

  /** `__lt__`: by `ordervalue`, ties broken by the suite id in string order. */
  predicate Less(self: RepoSuite, other: RepoSuite)
    ensures Less(self, other) ==> self.orderValue <= other.orderValue
    ensures self.orderValue < other.orderValue ==> Less(self, other)
    ensures self.orderValue == other.orderValue ==> (Less(self, other) <==> LexLess(self.suite, other.suite))
  {
    if self.orderValue != other.orderValue then self.orderValue < other.orderValue
    else LexLess(self.suite, other.suite)
  }

  /**
   * Identity is the suite id: equality ignores every other field, is an
   * equivalence, `!=` is its negation, and equal records hash alike.
   */
  lemma EqualityIsSuiteId(a: RepoSuite, b: RepoSuite, c: RepoSuite, hashString: string -> int)
    ensures !Equals(a, None) && NotEquals(a, None)
    ensures Equals(a, Some(b)) <==> a.suite == b.suite
    ensures NotEquals(a, Some(b)) <==> a.suite != b.suite
    ensures Equals(a, Some(a))
    ensures Equals(a, Some(b)) ==> Equals(b, Some(a))
    ensures Equals(a, Some(b)) && Equals(b, Some(c)) ==> Equals(a, Some(c))
    ensures Equals(a, Some(b)) ==> Hash(a, hashString) == Hash(b, hashString)
  {
  }

  /**
   * `<` is a strict order, total on records whose `(ordervalue, suite)` keys
   * differ: the lexicographic order on that pair.
   */
  lemma LessIsStrictOrder(a: RepoSuite, b: RepoSuite, c: RepoSuite)
    ensures !Less(a, a)
    ensures Less(a, b) ==> !Less(b, a)
    ensures Less(a, b) && Less(b, c) ==> Less(a, c)
    ensures (a.orderValue, a.suite) != (b.orderValue, b.suite) ==> Less(a, b) || Less(b, a)
  {
    LexLessStrictTotal(a.suite, b.suite, c.suite);
  }

  /** The four directories created below every suite root. */
  const WorkspaceDirs: seq<string> :=
    ["/etc/apt", "/var/lib/dpkg", "/var/cache/apt/archives/partial", "/var/lib/apt/lists/partial"]

  function WorkspaceDirPaths(rs: RepoSuite): set<string>
  {
    set d | d in WorkspaceDirs :: rs.rootDir + d
  }

  /** The three files written below every suite root, with their contents. */
  function WorkspaceFiles(rs: RepoSuite): map<string, string>
  {
    map[rs.rootDir + "/etc/apt/sources.list" := SourcesList(rs),
        rs.rootDir + "/etc/apt/apt.conf" := AptConf(rs),
        rs.rootDir + "/var/lib/dpkg/status" := ""]
  }

  /** The three files are distinct paths and each holds its generated text. */
  lemma WorkspaceFilesContents(rs: RepoSuite)
    ensures |WorkspaceFiles(rs).Keys| == 3
    ensures WorkspaceFiles(rs)[rs.rootDir + "/etc/apt/sources.list"] == SourcesList(rs)
    ensures WorkspaceFiles(rs)[rs.rootDir + "/etc/apt/apt.conf"] == AptConf(rs)
    ensures WorkspaceFiles(rs)[rs.rootDir + "/var/lib/dpkg/status"] == ""
  {
    var s, c, t := rs.rootDir + "/etc/apt/sources.list", rs.rootDir + "/etc/apt/apt.conf", rs.rootDir + "/var/lib/dpkg/status";
    assert |s| != |c| && |c| != |t| && |s| != |t|;
    assert WorkspaceFiles(rs).Keys == {s, c, t};
  }

  /** The part of the host file system the library touches: directories and file contents. */
  class FileTree {
    var dirs: set<string>
    var files: map<string, string>

    constructor (dirs: set<string>, files: map<string, string>)
      ensures this.dirs == dirs && this.files == files
    {
      this.dirs := dirs;
      this.files := files;
    }
  }

  /**
   * The file-system half of `RepoSuite.__init__`: create the missing workspace
   * directories, then overwrite sources.list, apt.conf and the empty status file.
   */
  method ProvisionWorkspace(fs: FileTree, rs: RepoSuite)
    modifies fs
    ensures fs.dirs == old(fs.dirs) + WorkspaceDirPaths(rs)
    ensures fs.files == old(fs.files) + WorkspaceFiles(rs)
  {
    var dirs := WorkspaceDirs;
    var i := 0;
    while i < |dirs|
      invariant 0 <= i <= |dirs|
      invariant fs.files == old(fs.files)
      invariant fs.dirs == old(fs.dirs) + set d | d in dirs[..i] :: rs.rootDir + d
    {
      var fullDir := rs.rootDir + dirs[i];
      if fullDir !in fs.dirs {
        fs.dirs := fs.dirs + {fullDir};
      }
      assert dirs[..i + 1] == dirs[..i] + [dirs[i]];
      i := i + 1;
    }
    assert dirs[..i] == dirs;
    var files := fs.files;
    fs.files := fs.files[rs.rootDir + "/etc/apt/sources.list" := SourcesList(rs)];
    fs.files := fs.files[rs.rootDir + "/etc/apt/apt.conf" := AptConf(rs)];
    fs.files := fs.files[rs.rootDir + "/var/lib/dpkg/status" := ""];
    OverwritesAreMerge(files, rs.rootDir + "/etc/apt/sources.list", SourcesList(rs),
                       rs.rootDir + "/etc/apt/apt.conf", AptConf(rs),
                       rs.rootDir + "/var/lib/dpkg/status", "");
  }

  /** Three successive writes leave the same files as merging them in at once. */
  lemma OverwritesAreMerge(m: map<string, string>, k1: string, v1: string, k2: string, v2: string, k3: string, v3: string)
    ensures m[k1 := v1][k2 := v2][k3 := v3] == m + map[k1 := v1, k2 := v2, k3 := v3]
  {
  }

  /**
   * Re-provisioning converges. By the ensures of `ProvisionWorkspace`, a run from
   * directories `dirs` and files `files` leaves `dirs + WorkspaceDirPaths(rs)` and
   * `files + WorkspaceFiles(rs)`; a second run from that state leaves the left-hand
   * sides below, which are the same state again.
   */
  lemma ProvisionIdempotent(dirs: set<string>, files: map<string, string>, rs: RepoSuite)
    ensures (dirs + WorkspaceDirPaths(rs)) + WorkspaceDirPaths(rs) == dirs + WorkspaceDirPaths(rs)
    ensures (files + WorkspaceFiles(rs)) + WorkspaceFiles(rs) == files + WorkspaceFiles(rs)
  {
  }
}
