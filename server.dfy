/** The helpers of the web server in main.go: the proxy URL taken from `GOPROXY`, the
    receiver shown for a method, the choice and ordering of versions, and the grouping
    of the proxy's catalog into one entry per module. `semver.Compare` is an abstract
    comparison `cmp`, assumed to be a total preorder. */
module Server {
  import opened GoStrings
  import opened Seqs
  import Sorting

  // ------------------------------------------------------------------- GOPROXY

  /** The refusals of `parseProxyURL` (fatal exits in the Go code). */
  datatype ProxyURLError = EmptyProxy | DirectProxy | OffProxy

  /** The first element of a comma-separated list. */
  function FirstOf(s: string): (r: string)
    ensures ',' !in r && r <= s
    ensures r != s ==> s[|r|] == ','
  {
    Split(s, ',')[0]
  }

  /** `parseProxyURL`: the first element of `GOPROXY`, unless it is empty, `direct` or
      `off`. */
  function ParseProxyURL(s: string): (r: Result<string, ProxyURLError>)
    ensures r.Ok? <==> FirstOf(s) != "" && FirstOf(s) != "direct" && FirstOf(s) != "off"
    ensures r.Ok? ==> r.value == FirstOf(s)
    ensures r == Err(EmptyProxy) <==> FirstOf(s) == ""
    ensures r == Err(DirectProxy) <==> FirstOf(s) == "direct"
    ensures r == Err(OffProxy) <==> FirstOf(s) == "off"
  {
    var proxyURL := Split(s, ',')[0];
    if proxyURL == "" then Err(EmptyProxy)
    else if proxyURL == "direct" then Err(DirectProxy)
    else if proxyURL == "off" then Err(OffProxy)
    else Ok(proxyURL)
  }

  /** The proxy of a list whose first element is `u` is `u` itself, whatever follows,
      unless `u` is one of the refused values. */
  lemma ParseProxyURLOfList(u: string, rest: seq<string>)
    requires ',' !in u
    ensures ParseProxyURL(Join([u] + rest, ',')) ==
            if u == "" then Err(EmptyProxy)
            else if u == "direct" then Err(DirectProxy)
            else if u == "off" then Err(OffProxy)
            else Ok(u)
  {
    var s := Join([u] + rest, ',');
    if rest == [] {
      assert s == u;
    } else {
      JoinCons(u, rest, ',');
      IndexOfAfter(u, [','] + Join(rest, ','), ',');
      assert s == u + ([','] + Join(rest, ','));
      assert s[..|u|] == u;
    }
  }

  // ------------------------------------------------------------------ receivers

  /** `methodReceiver`: nothing for a function, the receiver in parentheses otherwise. */
  function MethodReceiver(receiver: string): (r: string)
    ensures r == "" <==> receiver == ""
    ensures r != "" ==> |r| == |receiver| + 2 && r[0] == '(' && r[|r| - 1] == ')' && r[1..|r| - 1] == receiver
  {
    if receiver == "" then "" else "(" + receiver + ")"
  }

  /** Different receivers are shown differently. */
  lemma MethodReceiverInjective(a: string, b: string)
    requires MethodReceiver(a) == MethodReceiver(b)
    ensures a == b
  {
  }

  // ------------------------------------------------------------------- versions

  /** What `semver.Compare` is taken to be: antisymmetric in sign, and "at least" is
      transitive. */
  ghost predicate TotalPreorder(cmp: (string, string) -> int)
  {
    && (forall x, y :: cmp(x, y) == -cmp(y, x))
    && (forall x, y, z :: cmp(x, y) >= 0 && cmp(y, z) >= 0 ==> cmp(x, z) >= 0)
  }

  /** The order `sortVersions` gives `sort.Slice`: newer first. */
  function Newer(cmp: (string, string) -> int): (string, string) -> bool
  {
    (x: string, y: string) => cmp(x, y) > 0
  }

  lemma NewerIsStrictWeakOrder(cmp: (string, string) -> int)
    requires TotalPreorder(cmp)
    ensures Sorting.StrictWeakOrder(Newer(cmp))
  {
  }

  /** `sortVersions`: the versions in place, newest first. */
  method SortVersions(list: array<string>, cmp: (string, string) -> int)
    requires TotalPreorder(cmp)
    modifies list
    ensures Sorting.SortedBy(list[..], Newer(cmp))
    ensures multiset(list[..]) == old(multiset(list[..]))
  {
    NewerIsStrictWeakOrder(cmp);
    Sorting.SortSlice(list, Newer(cmp));
  }

  /** `v` is a newest version of `vers`: one of them, and none is newer. */
  ghost predicate IsLatest(v: string, vers: seq<string>, cmp: (string, string) -> int)
  {
    v in vers && forall k :: 0 <= k < |vers| ==> cmp(vers[k], v) <= 0
  }

  /** The first of versions sorted newest first is a newest one. */
  lemma SortedHeadIsLatest(vers: seq<string>, cmp: (string, string) -> int)
    requires TotalPreorder(cmp) && vers != [] && Sorting.SortedBy(vers, Newer(cmp))
    ensures IsLatest(vers[0], vers, cmp)
  {
    forall k | 0 <= k < |vers|
      ensures cmp(vers[k], vers[0]) <= 0
    {
      if k == 0 {
        assert cmp(vers[0], vers[0]) == -cmp(vers[0], vers[0]);
      } else {
        assert !Newer(cmp)(vers[k], vers[0]);
      }
    }
  }

  /** `latestVer`: sorts the versions in place and returns the first, or "latest" when
      there are none. */
  method LatestVer(vers: array<string>, cmp: (string, string) -> int) returns (v: string)
    requires TotalPreorder(cmp)
    modifies vers
    ensures Sorting.SortedBy(vers[..], Newer(cmp))
    ensures multiset(vers[..]) == old(multiset(vers[..]))
    ensures vers.Length == 0 ==> v == "latest"
    ensures vers.Length > 0 ==> v == vers[0] && IsLatest(v, old(vers[..]), cmp)
  {
    SortVersions(vers, cmp);
    if vers.Length == 0 {
      return "latest";
    }
    v := vers[0];
    SortedHeadIsLatest(vers[..], cmp);
    assert v in multiset(vers[..]);
    forall k | 0 <= k < |old(vers[..])|
      ensures cmp(old(vers[..])[k], v) <= 0
    {
      assert old(vers[..])[k] in multiset(vers[..]);
    }
  }

  // -------------------------------------------------------------------- catalog

  /** One `(module, version)` pair of the proxy's catalog. */
  datatype CatalogEntry = CatalogEntry(modulePath: string, version: string)

  /** `moduleIndex`: a module, its versions and the newest of them. */
  datatype ModuleIndex = ModuleIndex(modulePath: string, versions: seq<string>, latest: string)

  /** The map the first loop of `getCatalogModules` builds: each module's versions,
      appended in catalog order. */
  function Grouped(entries: seq<CatalogEntry>): map<string, seq<string>>
  {
    if entries == [] then map[]
    else
      var g := Grouped(entries[..|entries| - 1]);
      var e := entries[|entries| - 1];
      g[e.modulePath := (if e.modulePath in g then g[e.modulePath] else []) + [e.version]]
  }

  /** The versions of module `m` in the catalog, in catalog order. */
  function VersionsOf(entries: seq<CatalogEntry>, m: string): seq<string>
  {
    FilterMap(entries, (e: CatalogEntry) => if e.modulePath == m then Some(e.version) else None)
  }

  /** The grouping has one key per module of the catalog, holding all its versions in
      catalog order. */
  lemma {:induction false} GroupedIsVersionsOf(entries: seq<CatalogEntry>)
    ensures forall m :: m in Grouped(entries) <==> exists k :: 0 <= k < |entries| && entries[k].modulePath == m
    ensures forall m :: m in Grouped(entries) ==> Grouped(entries)[m] == VersionsOf(entries, m)
  {
    if entries != [] {
      var init := entries[..|entries| - 1];
      GroupedIsVersionsOf(init);
      assert forall k :: 0 <= k < |init| ==> init[k] == entries[k];
      forall m | m !in Grouped(init)
        ensures VersionsOf(init, m) == []
      {
        NoVersions(init, m);
      }
    }
  }

  /** A module that does not appear has no versions. */
  lemma {:induction false} NoVersions(entries: seq<CatalogEntry>, m: string)
    requires forall k :: 0 <= k < |entries| ==> entries[k].modulePath != m
    ensures VersionsOf(entries, m) == []
  {
    if entries != [] {
      NoVersions(entries[..|entries| - 1], m);
    }
  }

  /** The entry of one module: its versions sorted newest first (through `latestVer`,
      which sorts the slice the entry shares), and the newest of them. */
  method IndexEntry(mod: string, vers: seq<string>, cmp: (string, string) -> int) returns (e: ModuleIndex)
    requires TotalPreorder(cmp)
    ensures e.modulePath == mod
    ensures multiset(e.versions) == multiset(vers)
    ensures Sorting.SortedBy(e.versions, Newer(cmp))
    ensures vers == [] ==> e.latest == "latest"
    ensures vers != [] ==> e.latest == e.versions[0] && IsLatest(e.latest, vers, cmp)
  {
    var a := new string[|vers|](k requires 0 <= k < |vers| => vers[k]);
    assert a[..] == vers;
    var latest := LatestVer(a, cmp);
    e := ModuleIndex(mod, a[..], latest);
  }

  /** The modules that have an entry in `mods`. */
  ghost function Modules(mods: seq<ModuleIndex>): set<string>
  {
    set j | 0 <= j < |mods| :: mods[j].modulePath
  }

  /** The modules of the catalog. */
  ghost function CatalogModules(entries: seq<CatalogEntry>): set<string>
  {
    set k | 0 <= k < |entries| :: entries[k].modulePath
  }

  /** The state of the second loop: one entry for each module of `done`, each for its
      versions in `mp`. */
  ghost predicate IndexedSoFar(mods: seq<ModuleIndex>, done: set<string>, mp: map<string, seq<string>>,
                               cmp: (string, string) -> int)
  {
    && Modules(mods) == done
    && (forall i, j :: 0 <= i < j < |mods| ==> mods[i].modulePath != mods[j].modulePath)
    && (forall j :: 0 <= j < |mods| ==> IndexFor(mods[j], mp, cmp))
  }

  /** `e` is the entry of its module for the versions in `mp`. */
  ghost predicate IndexFor(e: ModuleIndex, mp: map<string, seq<string>>, cmp: (string, string) -> int)
  {
    && e.modulePath in mp
    && multiset(e.versions) == multiset(mp[e.modulePath])
    && Sorting.SortedBy(e.versions, Newer(cmp))
    && (mp[e.modulePath] == [] ==> e.latest == "latest")
    && (mp[e.modulePath] != [] ==> e.latest == e.versions[0] && IsLatest(e.latest, mp[e.modulePath], cmp))
  }

  lemma IndexedStep(mods: seq<ModuleIndex>, done: set<string>, mp: map<string, seq<string>>,
                    cmp: (string, string) -> int, e: ModuleIndex)
    requires IndexedSoFar(mods, done, mp, cmp) && e.modulePath !in done && IndexFor(e, mp, cmp)
    ensures IndexedSoFar(mods + [e], done + {e.modulePath}, mp, cmp)
  {
    var l := mods + [e];
    forall m
      ensures m in done + {e.modulePath} <==> exists j :: 0 <= j < |l| && l[j].modulePath == m
    {
      if m in done {
        var j :| 0 <= j < |mods| && mods[j].modulePath == m;
        assert l[j].modulePath == m;
      }
      if m == e.modulePath {
        assert l[|mods|].modulePath == m;
      }
      if exists j :: 0 <= j < |l| && l[j].modulePath == m {
        var j :| 0 <= j < |l| && l[j].modulePath == m;
        if j < |mods| {
          assert mods[j].modulePath == m;
        }
      }
    }
  }

  /** The entries of the keys of the grouping are one per module of the catalog, with
      all of its versions, newest first, and the newest one as `latest`. */
  lemma CatalogOfIndex(entries: seq<CatalogEntry>, mods: seq<ModuleIndex>, cmp: (string, string) -> int)
    requires IndexedSoFar(mods, Grouped(entries).Keys, Grouped(entries), cmp)
    ensures Modules(mods) == CatalogModules(entries)
    ensures forall i, j :: 0 <= i < j < |mods| ==> mods[i].modulePath != mods[j].modulePath
    ensures forall j :: 0 <= j < |mods| ==>
              && multiset(mods[j].versions) == multiset(VersionsOf(entries, mods[j].modulePath))
              && Sorting.SortedBy(mods[j].versions, Newer(cmp))
              && mods[j].versions != []
              && mods[j].latest == mods[j].versions[0]
              && IsLatest(mods[j].latest, VersionsOf(entries, mods[j].modulePath), cmp)
  {
    var mp := Grouped(entries);
    GroupedIsVersionsOf(entries);
    assert mp.Keys == CatalogModules(entries);
    forall j | 0 <= j < |mods|
      ensures mods[j].versions != []
    {
      var m := mods[j].modulePath;
      var k :| 0 <= k < |entries| && entries[k].modulePath == m;
      VersionOfPresent(entries, k);
      assert multiset(mods[j].versions) != multiset{};
    }
  }

  /** The grouping of `getCatalogModules`: one entry per module of the catalog, with all
      of its versions, newest first, and the newest one as `latest`. */
  method GroupCatalog(entries: seq<CatalogEntry>, cmp: (string, string) -> int) returns (mods: seq<ModuleIndex>)
    requires TotalPreorder(cmp)
    ensures Modules(mods) == CatalogModules(entries)
    ensures forall i, j :: 0 <= i < j < |mods| ==> mods[i].modulePath != mods[j].modulePath
    ensures forall j :: 0 <= j < |mods| ==>
              && multiset(mods[j].versions) == multiset(VersionsOf(entries, mods[j].modulePath))
              && Sorting.SortedBy(mods[j].versions, Newer(cmp))
              && mods[j].versions != []
              && mods[j].latest == mods[j].versions[0]
              && IsLatest(mods[j].latest, VersionsOf(entries, mods[j].modulePath), cmp)
  {
    var mp: map<string, seq<string>> := map[];
    var i := 0;
    while i < |entries|
      invariant 0 <= i <= |entries|
      invariant mp == Grouped(entries[..i])
    {
      assert entries[..i + 1][..i] == entries[..i];
      var m := entries[i];
      mp := mp[m.modulePath := (if m.modulePath in mp then mp[m.modulePath] else []) + [m.version]];
      i := i + 1;
    }
    assert entries[..i] == entries;
    mods := CollectIndex(mp, cmp);
    CatalogOfIndex(entries, mods, cmp);
  }

  /** A module that appears has at least one version. */
  lemma {:induction false} VersionOfPresent(entries: seq<CatalogEntry>, k: nat)
    requires k < |entries|
    ensures VersionsOf(entries, entries[k].modulePath) != []
  {
    if k < |entries| - 1 {
      var init := entries[..|entries| - 1];
      assert init[k] == entries[k];
      VersionOfPresent(init, k);
    }
  }

  /** The second loop of `getCatalogModules`: one entry per key of `mp`. */
  method CollectIndex(mp: map<string, seq<string>>, cmp: (string, string) -> int) returns (mods: seq<ModuleIndex>)
    requires TotalPreorder(cmp)
    ensures IndexedSoFar(mods, mp.Keys, mp, cmp)
  {
    mods := [];
    var rest := mp.Keys;
    while rest != {}
      invariant rest <= mp.Keys
      invariant IndexedSoFar(mods, mp.Keys - rest, mp, cmp)
      decreases |rest|
    {
      var mod :| mod in rest;
      var e := IndexEntry(mod, mp[mod], cmp);
      IndexedStep(mods, mp.Keys - rest, mp, cmp, e);
      assert mp.Keys - (rest - {mod}) == (mp.Keys - rest) + {mod};
      mods := mods + [e];
      rest := rest - {mod};
    }
    assert mp.Keys - rest == mp.Keys;
  }
}
