/**
 * Catalog building and elaboration (resolver/deptools.py).
 *
 * The raw dependency data is a dictionary from distkey to a list of deps,
 * each `[package_name, [[operator, version], ...]]`. From it the module
 * builds the catalog of known versions of every package, and elaborates
 * every dep into an edep: the package name, the catalog versions the
 * specifier admits, and the specifier string.
 */
module DepTools {
  import opened PyStr
  import opened DistKeys
  import opened Specifiers
  import opened Resolvability

  /** One specifier as scraped: `[operator, version]`. */
  type SpecTuple = (string, string)

  /** One dependency as scraped: `[package_name, [[operator, version], ...]]`. */
  type RawDep = (string, seq<SpecTuple>)

  /** The raw dependency dictionary: (distkey, deps) entries in iteration order. */
  type Deps = seq<(string, seq<RawDep>)>

  /** `versions_by_package`: each package name to its known versions. */
  type Catalog = map<string, seq<string>>

  /** A dictionary has each key once. */
  predicate DistinctKeys(deps: Deps) {
    forall i, j :: 0 <= i < j < |deps| ==> deps[i].0 != deps[j].0
  }

  /** The distkeys of the dictionary, in iteration order. */
  function Distkeys(deps: Deps): (r: seq<string>)
    ensures |r| == |deps|
    ensures forall i :: 0 <= i < |deps| ==> r[i] == deps[i].0
  {
    seq(|deps|, i requires 0 <= i < |deps| => deps[i].0)
  }

  // ---------------------------------------------------------------------
  // generate_dict_versions_by_package

  /** The catalog after filing the versions of `keys`, one after another, under their package names. */
  function VersionsByPackage(keys: seq<string>): Catalog {
    if keys == [] then map[]
    else
      var m := VersionsByPackage(keys[..|keys| - 1]);
      var (p, v) := GetPackAndVersion(keys[|keys| - 1]);
      m[p := (if p in m then m[p] else []) + [v]]
  }

  /** The versions of the distkeys of package p in keys, in their order. */
  function VersionsListed(keys: seq<string>, p: string): seq<string> {
    if keys == [] then []
    else (if GetPackname(keys[0]) == p then [GetVersion(keys[0])] else []) + VersionsListed(keys[1..], p)
  }

  lemma {:induction false} VersionsListedAppend(keys: seq<string>, k: string, p: string)
    ensures VersionsListed(keys + [k], p)
         == VersionsListed(keys, p) + (if GetPackname(k) == p then [GetVersion(k)] else [])
  {
    if keys != [] {
      assert (keys + [k])[1..] == keys[1..] + [k];
      VersionsListedAppend(keys[1..], k, p);
    } else {
      assert VersionsListed([k][1..], p) == [];
    }
  }

  /**
   * The catalog has a key for exactly the packages of the distkeys, and
   * files under each the versions of its distkeys in their order.
   */
  lemma {:induction false} VersionsByPackageListsAll(keys: seq<string>)
    ensures VersionsByPackage(keys).Keys == set k | k in keys :: GetPackname(k)
    ensures forall p :: p in VersionsByPackage(keys) ==> VersionsByPackage(keys)[p] == VersionsListed(keys, p)
  {
    if keys != [] {
      var init, k := keys[..|keys| - 1], keys[|keys| - 1];
      assert keys == init + [k];
      VersionsByPackageListsAll(init);
      forall p ensures VersionsListed(keys, p)
          == VersionsListed(init, p) + (if GetPackname(k) == p then [GetVersion(k)] else []) {
        VersionsListedAppend(init, k, p);
      }
      forall p | p in VersionsByPackage(init) && p != GetPackname(k)
        ensures VersionsListed(init, p) == VersionsListed(keys, p) {
      }
      if GetPackname(k) !in VersionsByPackage(init) {
        VersionsListedNone(init, GetPackname(k));
      }
    }
  }

  lemma {:induction false} VersionsListedNone(keys: seq<string>, p: string)
    requires forall k :: k in keys ==> GetPackname(k) != p
    ensures VersionsListed(keys, p) == []
  {
    if keys != [] {
      VersionsListedNone(keys[1..], p);
    }
  }

  /** `generate_dict_versions_by_package(deps)` */
  /** The catalogue of one more distkey adds its version to its package's list. */
  lemma VersionsByPackageStep(keys: seq<string>, i: nat)
    requires i < |keys|
    ensures var m := VersionsByPackage(keys[..i]);
      var (p, v) := GetPackAndVersion(keys[i]);
      VersionsByPackage(keys[..i + 1]) == m[p := (if p in m then m[p] else []) + [v]]
  {
    assert keys[..i + 1][..i] == keys[..i] && keys[..i + 1][i] == keys[i];
  }

  method GenerateDictVersionsByPackage(deps: Deps) returns (versionsByPackage: Catalog)
    ensures versionsByPackage == VersionsByPackage(Distkeys(deps))
  {
    versionsByPackage := map[];
    ghost var keys := Distkeys(deps);
    assert keys[..0] == [];
    for i := 0 to |deps|
      invariant versionsByPackage == VersionsByPackage(keys[..i])
    {
      VersionsByPackageStep(keys, i);
      var (packagename, version) := GetPackAndVersion(deps[i].0);
      if packagename in versionsByPackage {
        versionsByPackage := versionsByPackage[packagename := versionsByPackage[packagename] + [version]];
      } else {
        assert [] + [version] == [version];
        versionsByPackage := versionsByPackage[packagename := [version]];
      }
    }
    assert keys[..|deps|] == keys;
  }

  // ---------------------------------------------------------------------
  // spectuples_to_specstring

  /** One specifier written out: operator then version. */
  function Term(t: SpecTuple): string {
    t.0 + t.1
  }

  /** The specifiers written out and joined by commas. */
  function SpecString(ts: seq<SpecTuple>): string {
    if |ts| == 0 then ""
    else if |ts| == 1 then Term(ts[0])
    else SpecString(ts[..|ts| - 1]) + "," + Term(ts[|ts| - 1])
  }

  /**
   * `spectuples_to_specstring(list_of_spectuples)`: every specifier followed
   * by a comma, then the trailing comma trimmed.
   */
  method SpectuplesToSpecstring(ts: seq<SpecTuple>) returns (specstring: string)
    ensures specstring == SpecString(ts)
  {
    specstring := "";
    for i := 0 to |ts|
      invariant i == 0 ==> specstring == ""
      invariant i > 0 ==> specstring == SpecString(ts[..i]) + ","
    {
      assert ts[..i + 1][..i] == ts[..i];
      assert ts[..i + 1][i] == ts[i];
      specstring := specstring + (ts[i].0 + ts[i].1) + ",";
    }
    assert ts[..|ts|] == ts;
    if EndsWith(specstring, ",") {
      specstring := specstring[..|specstring| - 1];
    }
  }

  /** The terms of the specifiers, in order. */
  function Terms(ts: seq<SpecTuple>): (r: seq<string>)
    ensures |r| == |ts|
    ensures forall k :: 0 <= k < |ts| ==> r[k] == Term(ts[k])
  {
    seq(|ts|, k requires 0 <= k < |ts| => Term(ts[k]))
  }

  /**
   * Splitting the specifier string at its commas gives back the terms,
   * whenever there is at least one and none contains a comma.
   */
  lemma {:induction false} SplitSpecString(ts: seq<SpecTuple>)
    requires ts != []
    requires forall k :: 0 <= k < |ts| ==> ',' !in Term(ts[k])
    ensures Split(SpecString(ts), ',') == Terms(ts)
  {
    var n := |ts|;
    if n == 1 {
      SplitFromNoSep(Term(ts[0]), ',', 0, 0);
    } else {
      var init := ts[..n - 1];
      SplitSpecString(init);
      var a := SpecString(init);
      SplitAppend(a, Term(ts[n - 1]), ',', 0, 0);
      assert Terms(ts) == Terms(init) + [Term(ts[n - 1])];
    }
  }

  // ---------------------------------------------------------------------
  // _elaborate_dependency

  /** `PACKAGE_VERSIONS_UNKNOWN`: a one-element list standing for "no catalog entry". */
  const PackageVersionsUnknown: seq<string> := ["----ERROR--UNAVAILABLE-VERSION-INFORMATION----"]

  /**
   * `_elaborate_dependency(dep, versions_by_package)`: the package, the
   * catalog versions the specifier admits (or the sentinel when the package
   * has no catalog entry), and the specifier string.
   */
  function ElaborateDependency(dep: RawDep, versionsByPackage: Catalog): Edep {
    var specstring := SpecString(dep.1);
    var filtered := if dep.0 in versionsByPackage then Filter(specstring, versionsByPackage[dep.0])
                    else PackageVersionsUnknown;
    Edep(dep.0, filtered, specstring)
  }

  /** No catalog version is the sentinel's text, so the sentinel cannot arise from filtering. */
  predicate NoSentinel(versionsByPackage: Catalog) {
    forall p :: p in versionsByPackage ==> PackageVersionsUnknown[0] !in versionsByPackage[p]
  }

  /**
   * The edep keeps the package name and the specifier string. A package
   * with a catalog entry gets, in catalog order, exactly the versions the
   * specifier admits, and that list differs from the sentinel unless the
   * catalog itself holds the sentinel's text; a package without one gets the
   * sentinel, which is not the empty list.
   */
  lemma ElaborateDependencyMeaning(dep: RawDep, versionsByPackage: Catalog)
    ensures var e := ElaborateDependency(dep, versionsByPackage);
      && e.packname == dep.0
      && e.specstring == SpecString(dep.1)
      && (dep.0 !in versionsByPackage ==> e.versions == PackageVersionsUnknown != [])
      && (dep.0 in versionsByPackage ==>
            && IsSubsequence(e.versions, versionsByPackage[dep.0])
            && (forall v :: v in e.versions <==> v in versionsByPackage[dep.0] && Sat(e.specstring, v)))
      && (NoSentinel(versionsByPackage) ==> (e.versions == PackageVersionsUnknown <==> dep.0 !in versionsByPackage))
  {
    var e := ElaborateDependency(dep, versionsByPackage);
    if dep.0 in versionsByPackage {
      FilterIsSubsequence(e.specstring, versionsByPackage[dep.0]);
    }
  }

  // ---------------------------------------------------------------------
  // elaborate_dependencies

  /** The edeps of one dist: one per dep, in order. */
  function ElaborateAll(ds: seq<RawDep>, versionsByPackage: Catalog): (es: seq<Edep>)
    ensures |es| == |ds|
    ensures forall j :: 0 <= j < |ds| ==> es[j] == ElaborateDependency(ds[j], versionsByPackage)
  {
    seq(|ds|, j requires 0 <= j < |ds| => ElaborateDependency(ds[j], versionsByPackage))
  }

  /** The packages of the deps of one dist that came out as the sentinel, in order. */
  function MissingPackages(ds: seq<RawDep>, versionsByPackage: Catalog): seq<string> {
    if ds == [] then []
    else
      var last := ds[|ds| - 1];
      MissingPackages(ds[..|ds| - 1], versionsByPackage)
        + (if ElaborateDependency(last, versionsByPackage).versions == PackageVersionsUnknown then [last.0] else [])
  }

  /** The dist named once for each of its deps that came out as the sentinel. */
  function MissingDists(distkey: string, ds: seq<RawDep>, versionsByPackage: Catalog): (r: seq<string>)
    ensures |r| == |MissingPackages(ds, versionsByPackage)|
    ensures forall k :: 0 <= k < |r| ==> r[k] == distkey
  {
    seq(|MissingPackages(ds, versionsByPackage)|, _ => distkey)
  }

  /** The elaborated dictionary after the first |deps| entries, a later entry replacing an earlier one of the same key. */
  function Elaborated(deps: Deps, versionsByPackage: Catalog): Edeps {
    if deps == [] then map[]
    else
      var last := deps[|deps| - 1];
      Elaborated(deps[..|deps| - 1], versionsByPackage)[last.0 := ElaborateAll(last.1, versionsByPackage)]
  }

  /** `packages_without_available_version_info` after the first |deps| entries. */
  function MissingPackagesAll(deps: Deps, versionsByPackage: Catalog): seq<string> {
    if deps == [] then []
    else
      MissingPackagesAll(deps[..|deps| - 1], versionsByPackage)
        + MissingPackages(deps[|deps| - 1].1, versionsByPackage)
  }

  /** `dists_with_missing_dependencies` after the first |deps| entries. */
  function MissingDistsAll(deps: Deps, versionsByPackage: Catalog): seq<string> {
    if deps == [] then []
    else
      var last := deps[|deps| - 1];
      MissingDistsAll(deps[..|deps| - 1], versionsByPackage) + MissingDists(last.0, last.1, versionsByPackage)
  }

  /** `elaborate_dependencies(deps, versions_by_package)` */
  method ElaborateDependencies(deps: Deps, versionsByPackage: Catalog)
    returns (depsElaborated: Edeps, packagesWithoutInfo: seq<string>, distsWithMissing: seq<string>)
    ensures depsElaborated == Elaborated(deps, versionsByPackage)
    ensures packagesWithoutInfo == MissingPackagesAll(deps, versionsByPackage)
    ensures distsWithMissing == MissingDistsAll(deps, versionsByPackage)
  {
    depsElaborated, packagesWithoutInfo, distsWithMissing := map[], [], [];
    assert deps[..0] == [];
    for i := 0 to |deps|
      invariant depsElaborated == Elaborated(deps[..i], versionsByPackage)
      invariant packagesWithoutInfo == MissingPackagesAll(deps[..i], versionsByPackage)
      invariant distsWithMissing == MissingDistsAll(deps[..i], versionsByPackage)
    {
      assert deps[..i + 1][..i] == deps[..i] && deps[..i + 1][i] == deps[i];
      var distkey := deps[i].0;
      var es;
      es, packagesWithoutInfo, distsWithMissing :=
        ElaborateDistDeps(distkey, deps[i].1, versionsByPackage, packagesWithoutInfo, distsWithMissing);
      depsElaborated := depsElaborated[distkey := es];
    }
    assert deps[..|deps|] == deps;
  }

  /**
   * The inner loop of `elaborate_dependencies` over the deps of one dist:
   * elaborates each and notes every dep whose package has no catalog entry.
   */
  method ElaborateDistDeps(distkey: string, ds: seq<RawDep>, versionsByPackage: Catalog,
                           packagesIn: seq<string>, distsIn: seq<string>)
    returns (es: seq<Edep>, packagesWithoutInfo: seq<string>, distsWithMissing: seq<string>)
    ensures es == ElaborateAll(ds, versionsByPackage)
    ensures packagesWithoutInfo == packagesIn + MissingPackages(ds, versionsByPackage)
    ensures distsWithMissing == distsIn + MissingDists(distkey, ds, versionsByPackage)
  {
    es, packagesWithoutInfo, distsWithMissing := [], packagesIn, distsIn;
    assert ds[..0] == [];
    for j := 0 to |ds|
      invariant |es| == j
      invariant forall k :: 0 <= k < j ==> es[k] == ElaborateDependency(ds[k], versionsByPackage)
      invariant packagesWithoutInfo == packagesIn + MissingPackages(ds[..j], versionsByPackage)
      invariant distsWithMissing == distsIn + MissingDists(distkey, ds[..j], versionsByPackage)
    {
      MissingStep(distkey, ds, j, versionsByPackage);
      var eDep := ElaborateDependency(ds[j], versionsByPackage);
      es := es + [eDep];
      if eDep.versions == PackageVersionsUnknown {
        packagesWithoutInfo := packagesWithoutInfo + [ds[j].0];
        distsWithMissing := distsWithMissing + [distkey];
      }
    }
    assert ds[..|ds|] == ds;
  }

  /** One more dep adds its package, and the dist, exactly when it came out as the sentinel. */
  lemma MissingStep(distkey: string, ds: seq<RawDep>, j: nat, versionsByPackage: Catalog)
    requires j < |ds|
    ensures var unknown := ElaborateDependency(ds[j], versionsByPackage).versions == PackageVersionsUnknown;
      && MissingPackages(ds[..j + 1], versionsByPackage)
        == MissingPackages(ds[..j], versionsByPackage) + (if unknown then [ds[j].0] else [])
      && MissingDists(distkey, ds[..j + 1], versionsByPackage)
        == MissingDists(distkey, ds[..j], versionsByPackage) + (if unknown then [distkey] else [])
  {
    assert ds[..j + 1][..j] == ds[..j] && ds[..j + 1][j] == ds[j];
  }

  /**
   * The elaborated dictionary has exactly the distkeys of deps as keys, and,
   * keys being distinct, each dist's edeps are its deps elaborated one by
   * one in order.
   */
  lemma ElaboratedEntries(deps: Deps, versionsByPackage: Catalog)
    requires DistinctKeys(deps)
    ensures Elaborated(deps, versionsByPackage).Keys == set i | 0 <= i < |deps| :: deps[i].0
    ensures forall i :: 0 <= i < |deps| ==>
      Elaborated(deps, versionsByPackage)[deps[i].0] == ElaborateAll(deps[i].1, versionsByPackage)
  {
    ElaboratedKeys(deps, versionsByPackage);
    ElaboratedValues(deps, versionsByPackage);
  }

  lemma {:induction false} ElaboratedKeys(deps: Deps, versionsByPackage: Catalog)
    ensures Elaborated(deps, versionsByPackage).Keys == set i | 0 <= i < |deps| :: deps[i].0
  {
    if deps != [] {
      var n := |deps|;
      var init := deps[..n - 1];
      ElaboratedKeys(init, versionsByPackage);
      var all := set i | 0 <= i < n :: deps[i].0;
      var before := set i | 0 <= i < n - 1 :: init[i].0;
      forall d | d in all ensures d in before + {deps[n - 1].0} {
        var i :| 0 <= i < n && deps[i].0 == d;
        if i < n - 1 { assert init[i].0 == d; }
      }
      forall d | d in before ensures d in all {
        var i :| 0 <= i < n - 1 && init[i].0 == d;
        assert deps[i].0 == d;
      }
    }
  }

  lemma {:induction false} ElaboratedValues(deps: Deps, versionsByPackage: Catalog)
    requires DistinctKeys(deps)
    ensures forall i :: 0 <= i < |deps| ==>
      deps[i].0 in Elaborated(deps, versionsByPackage) &&
      Elaborated(deps, versionsByPackage)[deps[i].0] == ElaborateAll(deps[i].1, versionsByPackage)
  {
    if deps != [] {
      var n := |deps|;
      var init := deps[..n - 1];
      ElaboratedValues(init, versionsByPackage);
      forall i | 0 <= i < n
        ensures deps[i].0 in Elaborated(deps, versionsByPackage)
        ensures Elaborated(deps, versionsByPackage)[deps[i].0] == ElaborateAll(deps[i].1, versionsByPackage)
      {
        if i < n - 1 {
          assert init[i] == deps[i];
          assert deps[i].0 != deps[n - 1].0;
        }
      }
    }
  }

  /** Each missing package is paired, position by position, with the dist that depends on it. */
  lemma {:induction false} MissingListsAlign(deps: Deps, versionsByPackage: Catalog)
    ensures |MissingPackagesAll(deps, versionsByPackage)| == |MissingDistsAll(deps, versionsByPackage)|
    ensures forall d :: d in MissingDistsAll(deps, versionsByPackage) ==> exists i :: 0 <= i < |deps| && deps[i].0 == d
  {
    if deps != [] {
      var n := |deps|;
      MissingListsAlign(deps[..n - 1], versionsByPackage);
      assert forall i :: 0 <= i < n - 1 ==> deps[..n - 1][i] == deps[i];
    }
  }

  /**
   * When no catalog version is the sentinel's text, the packages noted as
   * missing for one dist are exactly those of its deps that have no catalog
   * entry.
   */
  lemma {:induction false} MissingPackagesExact(ds: seq<RawDep>, versionsByPackage: Catalog)
    requires NoSentinel(versionsByPackage)
    ensures forall p :: (p in MissingPackages(ds, versionsByPackage) <==>
      p !in versionsByPackage && exists j :: 0 <= j < |ds| && ds[j].0 == p)
  {
    if ds != [] {
      var n := |ds|;
      var init := ds[..n - 1];
      MissingPackagesExact(init, versionsByPackage);
      SentinelIffUnknown(ds[n - 1], versionsByPackage);
      assert MissingPackages(ds, versionsByPackage) == MissingPackages(init, versionsByPackage)
        + (if ds[n - 1].0 !in versionsByPackage then [ds[n - 1].0] else []);
      forall p | p !in versionsByPackage && exists j :: 0 <= j < n && ds[j].0 == p
        ensures p in MissingPackages(ds, versionsByPackage) {
        var j :| 0 <= j < n && ds[j].0 == p;
        if j < n - 1 {
          assert init[j].0 == p;
        }
      }
      forall p | p in MissingPackages(init, versionsByPackage)
        ensures exists j :: 0 <= j < n && ds[j].0 == p {
        var j :| 0 <= j < n - 1 && init[j].0 == p;
        assert ds[j].0 == p;
      }
    }
  }

  /** With no catalog version equal to the sentinel's text, an edep is the sentinel exactly when its package is unknown. */
  lemma SentinelIffUnknown(dep: RawDep, versionsByPackage: Catalog)
    requires NoSentinel(versionsByPackage)
    ensures ElaborateDependency(dep, versionsByPackage).versions == PackageVersionsUnknown <==> dep.0 !in versionsByPackage
  {
    ElaborateDependencyMeaning(dep, versionsByPackage);
  }
}
