/**
 * Suite selection (`getSuites` without the catalog loading): selectors are matched
 * against the catalog entries and every match is added to a Python `set` of
 * `RepoSuite` objects whose identity is the suite id. That set is modelled as a
 * map from suite id to the object kept for it; `set.add` of an equal object keeps
 * the one already present.
 */
module Selection {
  import opened Results
  import opened Text
  import opened RepoSuites

  /** `if not selectors: selectors = ["default:"]`: a missing or empty list means `default:`. */
  function EffectiveSelectors(selectors: Option<seq<string>>): (r: seq<string>)
    ensures r != []
    ensures selectors.Some? && selectors.value != [] ==> r == selectors.value
  {
    if selectors.None? || selectors.value == [] then ["default:"] else selectors.value
  }

  /**
   * `parts = s.split(":", 1)` followed by the one-part / two-part case split:
   * the repository (prefix) and the suite name, for selectors and suite ids alike.
   */
  function SplitRepoSuite(s: string): (r: (string, string))
    ensures ':' !in r.0
  {
    SplitOnceParts(s, ':');
    var parts := SplitOnce(s, ':');
    if |parts| == 1 then ("", parts[0]) else (parts[0], parts[1])
  }

  /**
   * Without a colon the whole text is the suite name and the repository is empty;
   * otherwise the split is at the first colon and the name keeps any later ones.
   */
  lemma SplitRepoSuiteParts(s: string)
    ensures ':' !in s ==> SplitRepoSuite(s) == ("", s)
    ensures ':' in s ==> s == SplitRepoSuite(s).0 + ":" + SplitRepoSuite(s).1 && ':' !in SplitRepoSuite(s).0
  {
    SplitOnceParts(s, ':');
  }

  /** Joining a colon-free repository and any suite name with `:` splits back apart. */
  lemma SplitRepoSuiteRoundTrip(repo: string, name: string)
    requires ':' !in repo
    ensures SplitRepoSuite(repo + ":" + name) == (repo, name)
  {
    assert repo + ":" + name == repo + [':'] + name;
    SplitOnceAt(repo, ':', name);
  }

  /**
   * The selection test for one parsed selector `(srepo, ssuiteName)`: the entry's
   * repository starts with `srepo` or `srepo` is one of its tags, and the suite
   * names are equal or the selector's is empty.
   */
  predicate Matches(selector: (string, string), desc: SuiteDesc)
    ensures selector == ("", "") ==> Matches(selector, desc)
    ensures Matches(selector, desc) ==> selector.1 == "" || selector.1 == SplitRepoSuite(desc.suite).1
  {
    var (repo, suiteName) := SplitRepoSuite(desc.suite);
    (selector.0 <= repo || selector.0 in desc.tags) && (suiteName == selector.1 || selector.1 == "")
  }

  /** An empty repository prefix accepts every repository; only the suite name is then tested. */
  lemma EmptyRepoPrefixMatchesAnyRepo(name: string, desc: SuiteDesc)
    ensures Matches(("", name), desc) <==> (SplitRepoSuite(desc.suite).1 == name || name == "")
  {
  }

  /** The `selected` set, keyed by the suite id that `__eq__` and `__hash__` use. */
  type Selection = map<string, RepoSuite>

  /** `selected.add(rs)`: a record equal to one already present is dropped. */
  function Add(selected: Selection, rs: RepoSuite): (r: Selection)
    ensures r.Keys == selected.Keys + {rs.suite}
    ensures forall id :: id in selected ==> r[id] == selected[id]
    ensures rs.suite !in selected ==> r[rs.suite] == rs
  {
    if rs.suite in selected then selected else selected[rs.suite := rs]
  }

  /** The inner loop for one selector, run over the first `n` catalog entries. */
  function Scan(selected: Selection, selector: (string, string), data: seq<SuiteDesc>, n: nat,
                cacheDir: string, realpath: string -> string): (r: Selection)
    requires n <= |data|
    ensures selected.Keys <= r.Keys
  {
    if n == 0 then selected
    else
      var before := Scan(selected, selector, data, n - 1, cacheDir, realpath);
      if Matches(selector, data[n - 1])
      then Add(before, NewRepoSuite(cacheDir, data[n - 1], n - 1, realpath))
      else before
  }

  /** The outer loop: each selector in turn scans the whole catalog. */
  function SelectAll(selectors: seq<string>, data: seq<SuiteDesc>,
                     cacheDir: string, realpath: string -> string): (r: Selection)
    ensures data == [] ==> r == map[]
  {
    if |selectors| == 0 then map[]
    else
      Scan(SelectAll(selectors[..|selectors| - 1], data, cacheDir, realpath),
           SplitRepoSuite(selectors[|selectors| - 1]), data, |data|, cacheDir, realpath)
  }

  /**
   * The inner loop of `getSuites`: one parsed selector against every catalog
   * entry, in catalog order, adding each match to `selected`.
   */
  method ScanCatalog(start: Selection, selector: (string, string), suitesData: seq<SuiteDesc>,
                     cacheDir: string, realpath: string -> string) returns (selected: Selection)
    ensures selected == Scan(start, selector, suitesData, |suitesData|, cacheDir, realpath)
  {
    selected := start;
    var i := 0;
    while i < |suitesData|
      invariant 0 <= i <= |suitesData|
      invariant selected == Scan(start, selector, suitesData, i, cacheDir, realpath)
    {
      var suiteDesc := suitesData[i];
      ScanStep(start, selector, suitesData, i, cacheDir, realpath);
      if Matches(selector, suiteDesc) {
        selected := Add(selected, NewRepoSuite(cacheDir, suiteDesc, i, realpath));
      }
      i := i + 1;
    }
  }

  /**
   * The selection loops of `getSuites` over an already loaded catalog.
   * `cacheDir` is the module's cache directory; `realpath` resolves paths.
   */
  method SelectSuites(selectors: Option<seq<string>>, suitesData: seq<SuiteDesc>,
                      cacheDir: string, realpath: string -> string) returns (selected: Selection)
    ensures selected == SelectAll(EffectiveSelectors(selectors), suitesData, cacheDir, realpath)
  {
    var sels := if selectors.None? || selectors.value == [] then ["default:"] else selectors.value;
    selected := map[];
    var k := 0;
    while k < |sels|
      invariant 0 <= k <= |sels|
      invariant selected == SelectAll(sels[..k], suitesData, cacheDir, realpath)
    {
      selected := ScanCatalog(selected, SplitRepoSuite(sels[k]), suitesData, cacheDir, realpath);
      assert sels[..k + 1][..k] == sels[..k];
      k := k + 1;
    }
    assert sels[..k] == sels;
  }

  /** One more catalog entry: the scan adds it when it matches. */
  lemma ScanStep(selected: Selection, selector: (string, string), data: seq<SuiteDesc>, n: nat,
                 cacheDir: string, realpath: string -> string)
    requires n < |data|
    ensures Scan(selected, selector, data, n + 1, cacheDir, realpath) ==
      var before := Scan(selected, selector, data, n, cacheDir, realpath);
      if Matches(selector, data[n]) then Add(before, NewRepoSuite(cacheDir, data[n], n, realpath)) else before
  {
  }

  /** Entry `j` of the catalog matches selector `k`. */
  ghost predicate MatchedBy(selectors: seq<string>, data: seq<SuiteDesc>, k: int, j: int)
  {
    0 <= k < |selectors| && 0 <= j < |data| && Matches(SplitRepoSuite(selectors[k]), data[j])
  }

  /** Some of the first `n` catalog entries has suite id `id` and matches `selector`. */
  ghost predicate MatchesId(selector: (string, string), data: seq<SuiteDesc>, n: int, id: string)
  {
    exists j :: 0 <= j < n && j < |data| && Matches(selector, data[j]) && data[j].suite == id
  }

  /** One selector's scan adds exactly the ids of the entries it matches. */
  lemma {:induction false} ScanKeys(selected: Selection, selector: (string, string), data: seq<SuiteDesc>,
                                    n: nat, cacheDir: string, realpath: string -> string)
    requires n <= |data|
    ensures forall id :: id in Scan(selected, selector, data, n, cacheDir, realpath) <==>
                           id in selected || MatchesId(selector, data, n, id)
  {
    if n > 0 {
      ScanKeys(selected, selector, data, n - 1, cacheDir, realpath);
      forall id ensures MatchesId(selector, data, n, id) <==>
                        MatchesId(selector, data, n - 1, id) || (Matches(selector, data[n - 1]) && data[n - 1].suite == id) {
        if MatchesId(selector, data, n, id) {
          var j :| 0 <= j < n && Matches(selector, data[j]) && data[j].suite == id;
          if j < n - 1 { assert MatchesId(selector, data, n - 1, id); }
        }
      }
    }
  }

  /** A scan never replaces a record already selected, and every record sits under its own id. */
  lemma {:induction false} ScanKeepsExisting(selected: Selection, selector: (string, string), data: seq<SuiteDesc>,
                                             n: nat, cacheDir: string, realpath: string -> string)
    requires n <= |data|
    requires forall id :: id in selected ==> selected[id].suite == id
    ensures var r := Scan(selected, selector, data, n, cacheDir, realpath);
      && (forall id :: id in selected ==> id in r && r[id] == selected[id])
      && (forall id :: id in r ==> r[id].suite == id)
  {
    if n > 0 {
      ScanKeepsExisting(selected, selector, data, n - 1, cacheDir, realpath);
      ScanStep(selected, selector, data, n - 1, cacheDir, realpath);
    }
  }

  /** For an id the scan newly adds, the record kept is built from the first matching entry. */
  lemma {:induction false} ScanKeepsFirst(selected: Selection, selector: (string, string), data: seq<SuiteDesc>,
                                          n: nat, cacheDir: string, realpath: string -> string, id: string)
    requires n <= |data|
    requires id in Scan(selected, selector, data, n, cacheDir, realpath) && id !in selected
    ensures exists j :: 0 <= j < n && Matches(selector, data[j]) && data[j].suite == id &&
              Scan(selected, selector, data, n, cacheDir, realpath)[id] == NewRepoSuite(cacheDir, data[j], j, realpath) &&
              forall j' :: 0 <= j' < j && Matches(selector, data[j']) ==> data[j'].suite != id
  {
    var before := Scan(selected, selector, data, n - 1, cacheDir, realpath);
    if id in before {
      ScanKeepsFirst(selected, selector, data, n - 1, cacheDir, realpath, id);
      var j :| 0 <= j < n - 1 && Matches(selector, data[j]) && data[j].suite == id &&
              before[id] == NewRepoSuite(cacheDir, data[j], j, realpath) &&
              forall j' :: 0 <= j' < j && Matches(selector, data[j']) ==> data[j'].suite != id;
      assert Scan(selected, selector, data, n, cacheDir, realpath)[id] == before[id];
    } else {
      ScanKeys(selected, selector, data, n - 1, cacheDir, realpath);
      assert !MatchesId(selector, data, n - 1, id);
      assert Matches(selector, data[n - 1]) && data[n - 1].suite == id;
      forall j' | 0 <= j' < n - 1 && Matches(selector, data[j']) ensures data[j'].suite != id {
      }
    }
  }

  /** Some catalog entry with suite id `id` matches some selector. */
  ghost predicate SelectedId(selectors: seq<string>, data: seq<SuiteDesc>, id: string)
  {
    exists k, j :: MatchedBy(selectors, data, k, j) && data[j].suite == id
  }

  /** The selectors before the last one, and the last one parsed. */
  lemma SelectAllStep(selectors: seq<string>, data: seq<SuiteDesc>, id: string)
    requires |selectors| > 0
    ensures SelectedId(selectors, data, id) <==>
      SelectedId(selectors[..|selectors| - 1], data, id) ||
      MatchesId(SplitRepoSuite(selectors[|selectors| - 1]), data, |data|, id)
  {
    var last := |selectors| - 1;
    var init := selectors[..last];
    var selector := SplitRepoSuite(selectors[last]);
    if SelectedId(selectors, data, id) {
      var k, j :| MatchedBy(selectors, data, k, j) && data[j].suite == id;
      if k < last {
        assert MatchedBy(init, data, k, j);
      } else {
        assert Matches(selector, data[j]);
      }
    }
    if SelectedId(init, data, id) {
      var k, j :| MatchedBy(init, data, k, j) && data[j].suite == id;
      assert MatchedBy(selectors, data, k, j);
    }
    if MatchesId(selector, data, |data|, id) {
      var j :| 0 <= j < |data| && Matches(selector, data[j]) && data[j].suite == id;
      assert MatchedBy(selectors, data, last, j);
    }
  }

  /**
   * Membership: an id is selected iff some catalog entry with that id matches
   * some selector (so the result is drawn from the catalog only, and a selector
   * that matches nothing contributes nothing).
   */
  lemma {:induction false} SelectAllKeys(selectors: seq<string>, data: seq<SuiteDesc>,
                                         cacheDir: string, realpath: string -> string)
    ensures forall id :: id in SelectAll(selectors, data, cacheDir, realpath) <==> SelectedId(selectors, data, id)
  {
    if |selectors| > 0 {
      var last := |selectors| - 1;
      var before := SelectAll(selectors[..last], data, cacheDir, realpath);
      SelectAllKeys(selectors[..last], data, cacheDir, realpath);
      ScanKeys(before, SplitRepoSuite(selectors[last]), data, |data|, cacheDir, realpath);
      forall id ensures id in SelectAll(selectors, data, cacheDir, realpath) <==> SelectedId(selectors, data, id) {
        SelectAllStep(selectors, data, id);
      }
    }
  }

  /** Each selected record sits under its own suite id, so no two selected records are equal. */
  lemma {:induction false} SelectAllKeyedBySuite(selectors: seq<string>, data: seq<SuiteDesc>,
                                                 cacheDir: string, realpath: string -> string)
    ensures forall id :: id in SelectAll(selectors, data, cacheDir, realpath) ==>
                           SelectAll(selectors, data, cacheDir, realpath)[id].suite == id
  {
    if |selectors| > 0 {
      var last := |selectors| - 1;
      var before := SelectAll(selectors[..last], data, cacheDir, realpath);
      SelectAllKeyedBySuite(selectors[..last], data, cacheDir, realpath);
      ScanKeepsExisting(before, SplitRepoSuite(selectors[last]), data, |data|, cacheDir, realpath);
      assert SelectAll(selectors, data, cacheDir, realpath)
          == Scan(before, SplitRepoSuite(selectors[last]), data, |data|, cacheDir, realpath);
    }
  }

  /**
   * The record kept for an id is the one built from the FIRST match, taking
   * selectors in order and, within one selector, catalog entries in order.
   */
  lemma {:induction false} SelectAllKeepsFirst(selectors: seq<string>, data: seq<SuiteDesc>,
                                               cacheDir: string, realpath: string -> string, id: string)
    requires id in SelectAll(selectors, data, cacheDir, realpath)
    ensures exists k, j ::
      && MatchedBy(selectors, data, k, j) && data[j].suite == id
      && SelectAll(selectors, data, cacheDir, realpath)[id] == NewRepoSuite(cacheDir, data[j], j, realpath)
      && (forall k', j' :: 0 <= k' < k && MatchedBy(selectors, data, k', j') ==> data[j'].suite != id)
      && (forall j' :: 0 <= j' < j && MatchedBy(selectors, data, k, j') ==> data[j'].suite != id)
  {
    var last := |selectors| - 1;
    var init := selectors[..last];
    var selector := SplitRepoSuite(selectors[last]);
    var before := SelectAll(init, data, cacheDir, realpath);
    SelectAllKeys(init, data, cacheDir, realpath);
    SelectAllKeyedBySuite(init, data, cacheDir, realpath);
    ScanKeepsExisting(before, selector, data, |data|, cacheDir, realpath);
    if id in before {
      SelectAllKeepsFirst(init, data, cacheDir, realpath, id);
      var k, j :| MatchedBy(init, data, k, j) && data[j].suite == id
        && before[id] == NewRepoSuite(cacheDir, data[j], j, realpath)
        && (forall k', j' :: 0 <= k' < k && MatchedBy(init, data, k', j') ==> data[j'].suite != id)
        && (forall j' :: 0 <= j' < j && MatchedBy(init, data, k, j') ==> data[j'].suite != id);
      assert MatchedBy(selectors, data, k, j);
      forall k', j' | 0 <= k' < k && MatchedBy(selectors, data, k', j') ensures data[j'].suite != id {
        assert MatchedBy(init, data, k', j');
      }
      forall j' | 0 <= j' < j && MatchedBy(selectors, data, k, j') ensures data[j'].suite != id {
        assert MatchedBy(init, data, k, j');
      }
    } else {
      ScanKeepsFirst(before, selector, data, |data|, cacheDir, realpath, id);
      var j :| 0 <= j < |data| && Matches(selector, data[j]) && data[j].suite == id
        && SelectAll(selectors, data, cacheDir, realpath)[id] == NewRepoSuite(cacheDir, data[j], j, realpath)
        && forall j' :: 0 <= j' < j && Matches(selector, data[j']) ==> data[j'].suite != id;
      assert MatchedBy(selectors, data, last, j);
      assert !SelectedId(init, data, id);
      forall k', j' | 0 <= k' < last && MatchedBy(selectors, data, k', j') ensures data[j'].suite != id {
        assert MatchedBy(init, data, k', j');
      }
    }
  }

  /**
   * Every selected record sits under its own suite id and is rooted at the
   * resolved cache entry of that id.
   */
  lemma SelectAllRoots(selectors: seq<string>, data: seq<SuiteDesc>, cacheDir: string, realpath: string -> string)
    ensures forall id :: id in SelectAll(selectors, data, cacheDir, realpath) ==>
      && SelectAll(selectors, data, cacheDir, realpath)[id].suite == id
      && SelectAll(selectors, data, cacheDir, realpath)[id].rootDir == realpath(CachePath(cacheDir, id))
  {
    forall id | id in SelectAll(selectors, data, cacheDir, realpath)
      ensures SelectAll(selectors, data, cacheDir, realpath)[id].suite == id
      ensures SelectAll(selectors, data, cacheDir, realpath)[id].rootDir == realpath(CachePath(cacheDir, id))
    {
      SelectAllKeepsFirst(selectors, data, cacheDir, realpath, id);
    }
  }

  /**
   * Distinct selected ids carry distinct ordervalues (each is the catalog index
   * of an entry with that id), so `<` on a selection compares catalog indices
   * alone and the suite-id tie-break never applies.
   */
  lemma SelectionOrderedByIndex(selectors: seq<string>, data: seq<SuiteDesc>,
                                cacheDir: string, realpath: string -> string, a: string, b: string)
    requires a in SelectAll(selectors, data, cacheDir, realpath) && b in SelectAll(selectors, data, cacheDir, realpath)
    requires a != b
    ensures var r := SelectAll(selectors, data, cacheDir, realpath);
      && r[a].orderValue != r[b].orderValue
      && (Less(r[a], r[b]) <==> r[a].orderValue < r[b].orderValue)
  {
    SelectAllKeepsFirst(selectors, data, cacheDir, realpath, a);
    SelectAllKeepsFirst(selectors, data, cacheDir, realpath, b);
  }

  /** A missing list and an empty list both stand for the single selector `default:`. */
  lemma DefaultSelectors(selectors: seq<string>)
    ensures EffectiveSelectors(None) == EffectiveSelectors(Some([])) == ["default:"]
    ensures selectors != [] ==> EffectiveSelectors(Some(selectors)) == selectors
  {
  }

  /**
   * Under the default selector the selection is every suite whose repository
   * starts with `default` or that carries the tag `default`.
   */
  lemma DefaultSelection(data: seq<SuiteDesc>, cacheDir: string, realpath: string -> string, id: string)
    ensures id in SelectAll(EffectiveSelectors(None), data, cacheDir, realpath) <==>
      exists j :: 0 <= j < |data| && data[j].suite == id &&
        ("default" <= SplitRepoSuite(data[j].suite).0 || "default" in data[j].tags)
  {
    SplitRepoSuiteRoundTrip("default", "");
    assert "default" + ":" + "" == "default:";
    SelectAllKeys(["default:"], data, cacheDir, realpath);
    if exists j :: 0 <= j < |data| && data[j].suite == id &&
        ("default" <= SplitRepoSuite(data[j].suite).0 || "default" in data[j].tags) {
      var j :| 0 <= j < |data| && data[j].suite == id &&
        ("default" <= SplitRepoSuite(data[j].suite).0 || "default" in data[j].tags);
      assert MatchedBy(["default:"], data, 0, j);
    }
  }

  /** Which suites are selected depends only on the SET of selectors, not on their order or repetition. */
  lemma SelectedIdsIgnoreSelectorOrder(s1: seq<string>, s2: seq<string>, data: seq<SuiteDesc>,
                                       cacheDir: string, realpath: string -> string)
    requires forall x :: x in s1 <==> x in s2
    ensures SelectAll(s1, data, cacheDir, realpath).Keys == SelectAll(s2, data, cacheDir, realpath).Keys
  {
    SelectAllKeys(s1, data, cacheDir, realpath);
    SelectAllKeys(s2, data, cacheDir, realpath);
    forall id | SelectedId(s1, data, id) ensures SelectedId(s2, data, id) {
      var k, j :| MatchedBy(s1, data, k, j) && data[j].suite == id;
      assert s1[k] in s2;
      var k2 :| 0 <= k2 < |s2| && s2[k2] == s1[k];
      assert MatchedBy(s2, data, k2, j);
    }
    forall id | SelectedId(s2, data, id) ensures SelectedId(s1, data, id) {
      var k, j :| MatchedBy(s2, data, k, j) && data[j].suite == id;
      assert s2[k] in s1;
      var k1 :| 0 <= k1 < |s1| && s1[k1] == s2[k];
      assert MatchedBy(s1, data, k1, j);
    }
  }

  /** A scan whose every match is already selected changes nothing. */
  lemma {:induction false} ScanNothingNew(selected: Selection, selector: (string, string), data: seq<SuiteDesc>,
                                          n: nat, cacheDir: string, realpath: string -> string)
    requires n <= |data|
    requires forall j :: 0 <= j < n && Matches(selector, data[j]) ==> data[j].suite in selected
    ensures Scan(selected, selector, data, n, cacheDir, realpath) == selected
  {
    if n > 0 {
      ScanNothingNew(selected, selector, data, n - 1, cacheDir, realpath);
    }
  }

  /** Appending a selector that is already present leaves the whole result, records included, unchanged. */
  lemma RepeatedSelectorChangesNothing(selectors: seq<string>, s: string, data: seq<SuiteDesc>,
                                       cacheDir: string, realpath: string -> string)
    requires s in selectors
    ensures SelectAll(selectors + [s], data, cacheDir, realpath) == SelectAll(selectors, data, cacheDir, realpath)
  {
    var before := SelectAll(selectors, data, cacheDir, realpath);
    assert (selectors + [s])[..|selectors|] == selectors;
    SelectAllKeys(selectors, data, cacheDir, realpath);
    var k :| 0 <= k < |selectors| && selectors[k] == s;
    forall j | 0 <= j < |data| && Matches(SplitRepoSuite(s), data[j]) ensures data[j].suite in before {
      assert MatchedBy(selectors, data, k, j);
    }
    ScanNothingNew(before, SplitRepoSuite(s), data, |data|, cacheDir, realpath);
  }

  /** A selector that matches no catalog entry raises nothing and adds nothing. */
  lemma UnmatchedSelectorChangesNothing(selectors: seq<string>, s: string, data: seq<SuiteDesc>,
                                        cacheDir: string, realpath: string -> string)
    requires forall j :: 0 <= j < |data| ==> !Matches(SplitRepoSuite(s), data[j])
    ensures SelectAll(selectors + [s], data, cacheDir, realpath) == SelectAll(selectors, data, cacheDir, realpath)
  {
    assert (selectors + [s])[..|selectors|] == selectors;
    ScanNothingNew(SelectAll(selectors, data, cacheDir, realpath), SplitRepoSuite(s), data, |data|, cacheDir, realpath);
  }

  /** `nomatch:` against a catalog with no `nomatch` repository or tag selects nothing. */
  lemma NoMatchScenario(data: seq<SuiteDesc>, cacheDir: string, realpath: string -> string)
    requires forall j :: 0 <= j < |data| ==>
      !("nomatch" <= SplitRepoSuite(data[j].suite).0) && "nomatch" !in data[j].tags
    ensures SelectAll(["nomatch:"], data, cacheDir, realpath) == map[]
  {
    SplitRepoSuiteRoundTrip("nomatch", "");
    assert "nomatch" + ":" + "" == "nomatch:";
    UnmatchedSelectorChangesNothing([], "nomatch:", data, cacheDir, realpath);
    assert [] + ["nomatch:"] == ["nomatch:"];
  }

  /**
   * No two selected records are equal under `__eq__`, and `__lt__` orders any
   * two of them one way or the other: sorting a selection is deterministic.
   */
  lemma SelectionIsTotallyOrdered(selectors: seq<string>, data: seq<SuiteDesc>,
                                  cacheDir: string, realpath: string -> string, a: string, b: string)
    requires a in SelectAll(selectors, data, cacheDir, realpath) && b in SelectAll(selectors, data, cacheDir, realpath)
    requires a != b
    ensures var r := SelectAll(selectors, data, cacheDir, realpath);
      && !Equals(r[a], Some(r[b]))
      && (Less(r[a], r[b]) || Less(r[b], r[a]))
  {
    var r := SelectAll(selectors, data, cacheDir, realpath);
    SelectAllKeyedBySuite(selectors, data, cacheDir, realpath);
    LessIsStrictOrder(r[a], r[b], r[b]);
  }

  /** A one-entry catalog selected by the entry's full `repo:name` id yields exactly that entry. */
  lemma SelectByFullId(desc: SuiteDesc, repo: string, name: string, cacheDir: string, realpath: string -> string)
    requires ':' !in repo && desc.suite == repo + ":" + name
    ensures SelectAll([desc.suite], [desc], cacheDir, realpath) == map[desc.suite := NewRepoSuite(cacheDir, desc, 0, realpath)]
  {
    SplitRepoSuiteRoundTrip(repo, name);
    assert Matches((repo, name), desc) by { assert repo <= repo; }
    assert [desc.suite][..0] == [];
    ScanStep(map[], (repo, name), [desc], 0, cacheDir, realpath);
    assert SelectAll([desc.suite], [desc], cacheDir, realpath) == Scan(map[], (repo, name), [desc], 1, cacheDir, realpath);
  }

  /**
   * A one-entry catalog with `DebSrc` selected by its full id gives one workspace
   * record, whose sources.list carries the derived `deb-src` line.
   */
  lemma UpdatesStableScenario(desc: SuiteDesc, cacheDir: string, realpath: string -> string)
    requires desc == SuiteDesc("updates:stable", "deb http://x y main", true, ["amd64"], [])
    ensures var r := SelectAll(["updates:stable"], [desc], cacheDir, realpath);
      && r == map["updates:stable" := NewRepoSuite(cacheDir, desc, 0, realpath)]
      && SourcesList(r["updates:stable"]) == "deb http://x y main\ndeb-src http://x y main"
  {
    SelectByFullId(desc, "updates", "stable", cacheDir, realpath);
    SourcesListScenario(NewRepoSuite(cacheDir, desc, 0, realpath));
  }

  /**
   * Two catalog entries tagged `default`, no selectors: both are selected, and
   * `__lt__` puts them in catalog order.
   */
  lemma TwoDefaultsScenario(data: seq<SuiteDesc>, cacheDir: string, realpath: string -> string)
    requires |data| == 2 && data[0].suite != data[1].suite
    requires "default" in data[0].tags && "default" in data[1].tags
    ensures var r := SelectAll(EffectiveSelectors(None), data, cacheDir, realpath);
      && r.Keys == {data[0].suite, data[1].suite}
      && r[data[0].suite].orderValue == 0 && r[data[1].suite].orderValue == 1
      && Less(r[data[0].suite], r[data[1].suite])
  {
    SplitRepoSuiteRoundTrip("default", "");
    assert "default" + ":" + "" == "default:";
    var selector := ("default", "");
    assert Matches(selector, data[0]) && Matches(selector, data[1]);
    ScanStep(map[], selector, data, 0, cacheDir, realpath);
    ScanStep(map[], selector, data, 1, cacheDir, realpath);
    var one := Scan(map[], selector, data, 1, cacheDir, realpath);
    assert one == map[data[0].suite := NewRepoSuite(cacheDir, data[0], 0, realpath)];
    var two := Scan(map[], selector, data, 2, cacheDir, realpath);
    assert two == one[data[1].suite := NewRepoSuite(cacheDir, data[1], 1, realpath)];
    assert ["default:"][..0] == [];
    assert SelectAll(EffectiveSelectors(None), data, cacheDir, realpath) == two;
  }

  /**
   * Two catalog entries share one suite id; each is reachable only through its
   * own tag. Whichever tag selector comes first decides which entry's record is
   * kept, so the selection depends on the order of the selectors and not only
   * on their set.
   */
  lemma SelectorOrderDecidesKeptRecord(data: seq<SuiteDesc>, t1: string, t2: string,
                                       cacheDir: string, realpath: string -> string)
    requires |data| == 2 && data[0].suite == data[1].suite
    requires ':' !in t1 && ':' !in t2
    requires t1 in data[0].tags && t1 !in data[1].tags && !(t1 <= SplitRepoSuite(data[0].suite).0)
    requires t2 in data[1].tags && t2 !in data[0].tags && !(t2 <= SplitRepoSuite(data[0].suite).0)
    ensures var r := SelectAll([t1 + ":", t2 + ":"], data, cacheDir, realpath);
      r == map[data[0].suite := NewRepoSuite(cacheDir, data[0], 0, realpath)] && r[data[0].suite].orderValue == 0
    ensures var r := SelectAll([t2 + ":", t1 + ":"], data, cacheDir, realpath);
      r == map[data[0].suite := NewRepoSuite(cacheDir, data[1], 1, realpath)] && r[data[0].suite].orderValue == 1
  {
    var id := data[0].suite;
    var s1, s2 := (t1, ""), (t2, "");
    SplitRepoSuiteRoundTrip(t1, "");
    SplitRepoSuiteRoundTrip(t2, "");
    assert t1 + ":" + "" == t1 + ":" && t2 + ":" + "" == t2 + ":";
    assert Matches(s1, data[0]) && !Matches(s1, data[1]);
    assert !Matches(s2, data[0]) && Matches(s2, data[1]);
    var n0, n1 := NewRepoSuite(cacheDir, data[0], 0, realpath), NewRepoSuite(cacheDir, data[1], 1, realpath);
    var only0, only1 := map[id := n0], map[id := n1];
    ScanStep(map[], s1, data, 0, cacheDir, realpath);
    ScanStep(map[], s1, data, 1, cacheDir, realpath);
    ScanStep(map[], s2, data, 0, cacheDir, realpath);
    ScanStep(map[], s2, data, 1, cacheDir, realpath);
    ScanStep(only0, s2, data, 0, cacheDir, realpath);
    ScanStep(only0, s2, data, 1, cacheDir, realpath);
    ScanStep(only1, s1, data, 0, cacheDir, realpath);
    ScanStep(only1, s1, data, 1, cacheDir, realpath);
    assert Scan(map[], s1, data, 2, cacheDir, realpath) == only0;
    assert Scan(map[], s2, data, 2, cacheDir, realpath) == only1;
    assert Scan(only0, s2, data, 2, cacheDir, realpath) == only0;
    assert Scan(only1, s1, data, 2, cacheDir, realpath) == only1;
    assert [t1 + ":", t2 + ":"][..1] == [t1 + ":"] && [t1 + ":"][..0] == [];
    assert [t2 + ":", t1 + ":"][..1] == [t2 + ":"] && [t2 + ":"][..0] == [];
    assert SelectAll([t1 + ":"], data, cacheDir, realpath) == only0;
    assert SelectAll([t2 + ":"], data, cacheDir, realpath) == only1;
    assert SelectAll([t1 + ":", t2 + ":"], data, cacheDir, realpath) == Scan(only0, s2, data, 2, cacheDir, realpath);
    assert SelectAll([t2 + ":", t1 + ":"], data, cacheDir, realpath) == Scan(only1, s1, data, 2, cacheDir, realpath);
  }

  /** The entries `r:x` tagged `t1` and `r:x` tagged `t2`, under `t1:, t2:` and under `t2:, t1:`. */
  lemma SelectorOrderExample(data: seq<SuiteDesc>, cacheDir: string, realpath: string -> string)
    requires data == [SuiteDesc("r:x", "", false, [], ["t1"]), SuiteDesc("r:x", "", false, [], ["t2"])]
    ensures var r := SelectAll(["t1:", "t2:"], data, cacheDir, realpath); "r:x" in r && r["r:x"].orderValue == 0
    ensures var r := SelectAll(["t2:", "t1:"], data, cacheDir, realpath); "r:x" in r && r["r:x"].orderValue == 1
  {
    SplitRepoSuiteRoundTrip("r", "x");
    assert "r" + ":" + "x" == "r:x" && "t1" + ":" == "t1:" && "t2" + ":" == "t2:";
    assert !("t1" <= "r") && !("t2" <= "r");
    SelectorOrderDecidesKeptRecord(data, "t1", "t2", cacheDir, realpath);
  }
}
