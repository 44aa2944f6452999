/**
 * The module-level state of lib_apt_repos (`__baseDir`, `__cacheDir`,
 * `__suiteFiles`), its reconfiguration by `setAptRepoBaseDir`, and `getSuites`,
 * which loads the catalog from the configured suites files and selects from it.
 * The file-system queries and `json.load` are parameters: `isDir`, `isFile`,
 * `realpath` and `readSuites`.
 */
module AptRepos {
  import opened Results
  import opened RepoSuites
  import opened Selection

  const CacheDirName: string := "/.apt-repos_cache"
  const SuitesFileName: string := "/suites"
  const SystemSuitesFile: string := "/etc/apt-repos/suites"

  /**
   * The catalog-loading loop of `getSuites` from file `files[0]` on, with `loaded`
   * read so far: every existing file is parsed and REPLACES what was loaded
   * before; a file that fails to parse raises at once.
   */
  function LoadCatalog(files: seq<string>, isFile: string -> bool,
                       readSuites: string -> Result<seq<SuiteDesc>>,
                       loaded: seq<SuiteDesc>): (r: Result<seq<SuiteDesc>>)
    ensures r.Err? ==> exists i :: 0 <= i < |files| && isFile(files[i]) && readSuites(files[i]) == r
    ensures r.Ok? ==>
      r.value == loaded || exists i :: 0 <= i < |files| && isFile(files[i]) && readSuites(files[i]) == r
  {
    if |files| == 0 then Ok(loaded)
    else if isFile(files[0]) then
      match readSuites(files[0])
      case Err(message) => Err(message)
      case Ok(data) => LoadCatalog(files[1..], isFile, readSuites, data)
    else LoadCatalog(files[1..], isFile, readSuites, loaded)
  }

  /** When no candidate file exists, nothing is loaded and nothing is raised. */
  lemma {:induction false} LoadCatalogNoFile(files: seq<string>, isFile: string -> bool,
                                             readSuites: string -> Result<seq<SuiteDesc>>, loaded: seq<SuiteDesc>)
    requires forall i :: 0 <= i < |files| ==> !isFile(files[i])
    ensures LoadCatalog(files, isFile, readSuites, loaded) == Ok(loaded)
  {
    if |files| > 0 {
      assert forall i :: 0 <= i < |files| - 1 ==> files[1..][i] == files[i + 1];
      LoadCatalogNoFile(files[1..], isFile, readSuites, loaded);
    }
  }

  /** The first existing file that fails to parse raises its error; later files are not read. */
  lemma {:induction false} LoadCatalogFirstError(files: seq<string>, isFile: string -> bool,
                                                 readSuites: string -> Result<seq<SuiteDesc>>,
                                                 loaded: seq<SuiteDesc>, i: nat)
    requires i < |files| && isFile(files[i]) && readSuites(files[i]).Err?
    requires forall h :: 0 <= h < i && isFile(files[h]) ==> readSuites(files[h]).Ok?
    ensures LoadCatalog(files, isFile, readSuites, loaded) == readSuites(files[i])
  {
    if i > 0 {
      var next := if isFile(files[0]) then readSuites(files[0]).value else loaded;
      assert forall h :: 0 <= h < |files| - 1 ==> files[1..][h] == files[h + 1];
      LoadCatalogFirstError(files[1..], isFile, readSuites, next, i - 1);
    }
  }

  /**
   * When every existing file parses, the catalog is the contents of the LAST
   * existing candidate: a later file overrides an earlier one.
   */
  lemma {:induction false} LoadCatalogLastWins(files: seq<string>, isFile: string -> bool,
                                               readSuites: string -> Result<seq<SuiteDesc>>,
                                               loaded: seq<SuiteDesc>, i: nat)
    requires i < |files| && isFile(files[i])
    requires forall h :: 0 <= h < |files| && isFile(files[h]) ==> readSuites(files[h]).Ok?
    requires forall h :: i < h < |files| ==> !isFile(files[h])
    ensures LoadCatalog(files, isFile, readSuites, loaded) == readSuites(files[i])
  {
    assert forall h :: 0 <= h < |files| - 1 ==> files[1..][h] == files[h + 1];
    if i == 0 {
      LoadCatalogNoFile(files[1..], isFile, readSuites, readSuites(files[0]).value);
    } else {
      var next := if isFile(files[0]) then readSuites(files[0]).value else loaded;
      LoadCatalogLastWins(files[1..], isFile, readSuites, next, i - 1);
    }
  }

  /** `__baseDir`, `__cacheDir` and `__suiteFiles`. */
  class ModuleState {
    var baseDir: string
    var cacheDir: string
    var suiteFiles: seq<string>

    /** The cache directory and the user's suites file always sit under the base directory. */
    ghost predicate Valid()
      reads this
    {
      && cacheDir == baseDir + CacheDirName
      && (suiteFiles == [baseDir + SuitesFileName, SystemSuitesFile] || suiteFiles == [baseDir + SuitesFileName])
    }

    /** The values set when the module is imported; `home` is `expanduser('~')`. */
    constructor (home: string)
      ensures Valid()
      ensures baseDir == home + "/.apt-repos"
      ensures cacheDir == home + "/.apt-repos" + CacheDirName
      ensures suiteFiles == [home + "/.apt-repos" + SuitesFileName, SystemSuitesFile]
    {
      baseDir := home + "/.apt-repos";
      cacheDir := home + "/.apt-repos" + CacheDirName;
      suiteFiles := [home + "/.apt-repos" + SuitesFileName, SystemSuitesFile];
    }

    /**
     * `setAptRepoBaseDir`: for an existing directory, re-root the base and cache
     * directories at its resolved path and consult only its suites file; otherwise
     * raise before any global is touched.
     */
    method SetAptRepoBaseDir(dir: string, isDir: string -> bool, realpath: string -> string) returns (r: Result<()>)
      requires Valid()
      modifies this
      ensures Valid()
      ensures r.Ok? <==> isDir(dir)
      ensures isDir(dir) ==>
        && baseDir == realpath(dir)
        && cacheDir == realpath(dir) + CacheDirName
        && suiteFiles == [realpath(dir) + SuitesFileName]
      ensures !isDir(dir) ==>
        && r == Err("base-directory doesn't exist: " + dir)
        && baseDir == old(baseDir) && cacheDir == old(cacheDir) && suiteFiles == old(suiteFiles)
    {
      if isDir(dir) {
        baseDir := realpath(dir);
        cacheDir := baseDir + CacheDirName;
        suiteFiles := [baseDir + SuitesFileName];
        r := Ok(());
      } else {
        r := Err("base-directory doesn't exist: " + dir);
      }
    }

    /** The catalog-loading loop at the top of `getSuites`. */
    method LoadSuitesData(isFile: string -> bool, readSuites: string -> Result<seq<SuiteDesc>>)
      returns (r: Result<seq<SuiteDesc>>)
      ensures r == LoadCatalog(suiteFiles, isFile, readSuites, [])
    {
      var suitesData: seq<SuiteDesc> := [];
      var i := 0;
      while i < |suiteFiles|
        invariant 0 <= i <= |suiteFiles|
        invariant LoadCatalog(suiteFiles, isFile, readSuites, []) == LoadCatalog(suiteFiles[i..], isFile, readSuites, suitesData)
      {
        assert suiteFiles[i..][1..] == suiteFiles[i + 1..];
        var suitesFile := suiteFiles[i];
        if isFile(suitesFile) {
          var parsed := readSuites(suitesFile);
          if parsed.Err? {
            return Err(parsed.message);
          }
          suitesData := parsed.value;
        }
        i := i + 1;
      }
      r := Ok(suitesData);
    }

    /**
     * `getSuites(selectors)`: load the catalog, then select from it. The error
     * modelled is a catalog that fails to parse. Every selected record is rooted at
     * `realpath` of the current base directory's cache directory, a `/`, and its id
     * with `/` replaced by `^`; `CachePathDotDot` shows the ids for which that
     * path is the cache directory itself or its parent.
     */
    method GetSuites(selectors: Option<seq<string>>, isFile: string -> bool,
                     readSuites: string -> Result<seq<SuiteDesc>>, realpath: string -> string)
      returns (r: Result<Selection>)
      requires Valid()
      ensures r.Ok? ==> forall id :: id in r.value ==>
        r.value[id].suite == id && r.value[id].rootDir == realpath(CachePath(baseDir + CacheDirName, id))
      ensures r == match LoadCatalog(suiteFiles, isFile, readSuites, [])
                   case Err(message) => Err(message)
                   case Ok(data) => Ok(SelectAll(EffectiveSelectors(selectors), data, cacheDir, realpath))
    {
      var suitesData := LoadSuitesData(isFile, readSuites);
      if suitesData.Err? {
        return Err(suitesData.message);
      }
      var selected := SelectSuites(selectors, suitesData.value, cacheDir, realpath);
      SelectAllRoots(EffectiveSelectors(selectors), suitesData.value, cacheDir, realpath);
      r := Ok(selected);
    }
  }

  /**
   * With the default candidates, when both the user's and the system-wide suites
   * file exist and parse, the system-wide one is the catalog.
   */
  lemma SystemSuitesFileWins(home: string, isFile: string -> bool, readSuites: string -> Result<seq<SuiteDesc>>)
    requires isFile(home + "/.apt-repos" + SuitesFileName) && isFile(SystemSuitesFile)
    requires readSuites(home + "/.apt-repos" + SuitesFileName).Ok? && readSuites(SystemSuitesFile).Ok?
    ensures LoadCatalog([home + "/.apt-repos" + SuitesFileName, SystemSuitesFile], isFile, readSuites, [])
         == readSuites(SystemSuitesFile)
  {
    LoadCatalogLastWins([home + "/.apt-repos" + SuitesFileName, SystemSuitesFile], isFile, readSuites, [], 1);
  }

  /** After a successful `setAptRepoBaseDir`, the catalog is read from that directory's suites file alone, or is empty. */
  lemma ReconfiguredCatalog(baseDir: string, isFile: string -> bool, readSuites: string -> Result<seq<SuiteDesc>>)
    ensures LoadCatalog([baseDir + SuitesFileName], isFile, readSuites, [])
         == if isFile(baseDir + SuitesFileName) then readSuites(baseDir + SuitesFileName) else Ok([])
  {
  }
}
