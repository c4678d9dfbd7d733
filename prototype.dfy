/**
 * The earlier resolver prototype (resolver/resolvability.py): intersecting
 * the versions several specifiers admit, its placeholder version sort, and
 * its strawman resolver.
 */
module ResolverPrototype {
  import opened PyStr
  import opened Errors
  import opened DistKeys
  import opened Specifiers
  import opened Resolvability
  import opened DepTools
  import Sorting

  // ---------------------------------------------------------------------
  // select_satisfying_versions

  /** Every specifier of specs admits v. */
  predicate AdmittedByAll(specs: seq<string>, v: string) {
    forall k :: 0 <= k < |specs| ==> Sat(specs[k], v)
  }

  lemma AdmittedByOneMore(specs: seq<string>, spec: string, v: string)
    ensures AdmittedByAll(specs + [spec], v) <==> AdmittedByAll(specs, v) && Sat(spec, v)
  {
    var all := specs + [spec];
    assert all[|specs|] == spec;
    assert forall k :: 0 <= k < |specs| ==> all[k] == specs[k];
  }

  /** The versions of vs, in order, that every specifier of specs admits. */
  function SatisfyingAll(specs: seq<string>, vs: seq<string>): seq<string> {
    if vs == [] then []
    else (if AdmittedByAll(specs, vs[0]) then [vs[0]] else []) + SatisfyingAll(specs, vs[1..])
  }

  lemma {:induction false} SatisfyingNone(vs: seq<string>)
    ensures SatisfyingAll([], vs) == vs
  {
    if vs != [] {
      SatisfyingNone(vs[1..]);
    }
  }

  /** Filtering by one more specifier narrows the intersection by that specifier. */
  lemma {:induction false} FilterNarrows(specs: seq<string>, spec: string, vs: seq<string>)
    ensures Filter(spec, SatisfyingAll(specs, vs)) == SatisfyingAll(specs + [spec], vs)
  {
    if vs != [] {
      FilterNarrows(specs, spec, vs[1..]);
      AdmittedByOneMore(specs, spec, vs[0]);
      var rest := SatisfyingAll(specs, vs[1..]);
      if AdmittedByAll(specs, vs[0]) {
        assert SatisfyingAll(specs, vs) == [vs[0]] + rest;
        assert ([vs[0]] + rest)[1..] == rest;
      } else {
        assert SatisfyingAll(specs, vs) == [] + rest;
        assert [] + rest == rest;
      }
    }
  }

  /** Filtering by the next specifier string extends the intersection by one specifier. */
  lemma FilterStep(specs: seq<string>, i: nat, vs: seq<string>)
    requires i < |specs|
    ensures Filter(specs[i], SatisfyingAll(specs[..i], vs)) == SatisfyingAll(specs[..i + 1], vs)
  {
    FilterNarrows(specs[..i], specs[i], vs);
    assert specs[..i] + [specs[i]] == specs[..i + 1];
  }

  /**
   * The intersection holds, in catalog order, exactly the catalog versions
   * every specifier admits; it is empty when they have none in common.
   */
  lemma {:induction false} SatisfyingAllMembers(specs: seq<string>, vs: seq<string>)
    ensures IsSubsequence(SatisfyingAll(specs, vs), vs)
    ensures forall v :: v in SatisfyingAll(specs, vs) <==> v in vs && AdmittedByAll(specs, v)
    ensures (forall v :: v in vs ==> !AdmittedByAll(specs, v)) ==> SatisfyingAll(specs, vs) == []
  {
    if vs != [] {
      SatisfyingAllMembers(specs, vs[1..]);
      var rest := SatisfyingAll(specs, vs[1..]);
      assert vs == [vs[0]] + vs[1..];
      if AdmittedByAll(specs, vs[0]) {
        assert SatisfyingAll(specs, vs)[1..] == rest;
      } else {
        assert SatisfyingAll(specs, vs) == rest;
      }
    }
  }

  /**
   * `select_satisfying_versions(satisfying_packname, specstrings,
   * versions_by_package)`: a copy of the package's catalog versions,
   * filtered by each specifier string in turn; KeyError when the package
   * has no catalog entry. The catalog is a value here, so the copy leaves
   * it unchanged by construction.
   */
  method SelectSatisfyingVersions(satisfyingPackname: string, specstrings: seq<string>, versionsByPackage: Catalog)
    returns (r: Result<seq<string>>)
    ensures satisfyingPackname !in versionsByPackage ==> r == Err(KeyError)
    ensures satisfyingPackname in versionsByPackage ==>
      r == Ok(SatisfyingAll(specstrings, versionsByPackage[satisfyingPackname]))
  {
    if satisfyingPackname !in versionsByPackage {
      return Err(KeyError);
    }
    var catalogVersions := versionsByPackage[satisfyingPackname];
    var satisfyingVersions := catalogVersions;
    SatisfyingNone(catalogVersions);
    assert specstrings[..0] == [];
    for i := 0 to |specstrings|
      invariant satisfyingVersions == SatisfyingAll(specstrings[..i], catalogVersions)
    {
      FilterStep(specstrings, i, catalogVersions);
      satisfyingVersions := Filter(specstrings[i], satisfyingVersions);
    }
    assert specstrings[..|specstrings|] == specstrings;
    return Ok(satisfyingVersions);
  }

  // ---------------------------------------------------------------------
  // sort_versions (the placeholder)

  lemma StrLeIsTotalOrder()
    ensures Sorting.TotalOrder(StrLe)
  {
    forall a, b, c ensures (StrLe(a, b) || StrLe(b, a))
      && (StrLe(a, b) && StrLe(b, a) ==> a == b)
      && (StrLe(a, b) && StrLe(b, c) ==> StrLe(a, c)) {
      StrLeTotalOrder(a, b, c);
    }
  }

  /** `sort_versions(versions)`: `sorted(versions, reverse=True)`, reverse string order. */
  function StubSortVersions(versions: seq<string>): (r: seq<string>)
    ensures multiset(r) == multiset(versions)
    ensures forall i, j :: 0 <= i < j < |r| ==> StrLe(r[j], r[i])
  {
    StrLeIsTotalOrder();
    Sorting.SortDesc(versions, StrLe)
  }

  /** String order puts '9' before '10', so the placeholder sorts versions wrongly: '9' comes out newer. */
  lemma StubSortPutsNineFirst()
    ensures StubSortVersions(["10", "9"]) == ["9", "10"]
  {
    StrLeIsTotalOrder();
    var s := ["9", "10"];
    assert StrLe("10", "9");
    assert multiset(s) == multiset(["10", "9"]);
    Sorting.SortedDescUnique(StubSortVersions(["10", "9"]), s, StrLe);
  }

  // ---------------------------------------------------------------------
  // fully_satisfy_strawman1

  /**
   * `fully_satisfy_strawman1(distkey, edeps, versions_by_package)` as
   * written. Neither `NoSatisfyingVersion` nor `strawman_fully_satisfy` is
   * defined in this module, so the first edep, with or without versions,
   * ends the call with a NameError.
   */
  function Strawman1AsWritten(distkey: string, edeps: Edeps): Result<seq<string>> {
    if distkey !in edeps then Err(KeyError)
    else if edeps[distkey] == [] then Ok([])
    else Err(NameError)
  }

  /**
   * `fully_satisfy_strawman1` as written, with its loop: the first edep
   * either raises the undefined `NoSatisfyingVersion` or reaches the call to
   * the undefined `strawman_fully_satisfy`; both raise NameError.
   */
  method FullySatisfyStrawman1(distkey: string, edeps: Edeps) returns (r: Result<seq<string>>)
    ensures r == Strawman1AsWritten(distkey, edeps)
  {
    if distkey !in edeps {
      return Err(KeyError);
    }
    var myEdeps := edeps[distkey];
    if myEdeps == [] {
      return Ok([]);
    }
    var satisfyingCandidateSet: seq<string> := [];
    r := Ok([]);
    var i := 0;
    while i < |myEdeps| && r.Ok?
      invariant 0 <= i <= |myEdeps|
      invariant i == 0 ==> r.Ok?
      invariant i > 0 ==> r == Err(NameError)
    {
      var edep := myEdeps[i];
      if edep.versions == [] {
        r := Err(NameError);
      } else {
        satisfyingCandidateSet := satisfyingCandidateSet + [StubFirst(edep)];
        r := Err(NameError);
      }
      i := i + 1;
    }
  }

  /** Any dist with a dependency makes the strawman as written fail. */
  lemma Strawman1AsWrittenFails(distkey: string, edeps: Edeps)
    requires distkey in edeps && edeps[distkey] != []
    ensures Strawman1AsWritten(distkey, edeps) == Err(NameError)
  {
  }

  /** The dist this strawman picks: the first version by the placeholder sort. */
  function StubFirst(e: Edep): string
    requires e.versions != []
  {
    DistkeyFormat(e.packname, StubSortVersions(e.versions)[0])
  }

  /**
   * The strawman as intended: it calls itself on each chosen dist and raises
   * NoSatisfyingVersionError for an edep without versions. Recursion is
   * bounded by `fuel`, standing for Python's recursion limit.
   */
  function Strawman1(distkey: string, edeps: Edeps, fuel: nat): Result<seq<string>>
    decreases fuel, 0, 0
  {
    if fuel == 0 then Err(RecursionLimit)
    else if distkey !in edeps then Err(KeyError)
    else Strawman1Deps(edeps[distkey], edeps, fuel - 1)
  }

  function Strawman1Deps(es: seq<Edep>, edeps: Edeps, fuel: nat): Result<seq<string>>
    decreases fuel, 1, |es|
  {
    if es == [] then Ok([])
    else if es[0].versions == [] then Err(NoSatisfyingVersion)
    else
      var chosen := StubFirst(es[0]);
      match Strawman1(chosen, edeps, fuel)
      case Err(e) => Err(e)
      case Ok(sub) =>
        match Strawman1Deps(es[1..], edeps, fuel)
        case Err(e) => Err(e)
        case Ok(rest) => Ok([chosen] + sub + rest)
  }

  /** The elaborated dependencies of the small test graph: X(1) needs B and C; B(1) needs A in ['2','3']; C(1) needs A == 3. */
  function SimpleEdeps(): Edeps {
    map[
      "X(1)" := [Edep("B", ["1"], ""), Edep("C", ["1"], "")],
      "B(1)" := [Edep("A", ["2", "3"], ">=2,<4")],
      "C(1)" := [Edep("A", ["3"], "==3")],
      "A(1)" := [], "A(2)" := [], "A(3)" := [], "A(4)" := []
    ]
  }

  lemma StubFirstOfTwoThree()
    ensures StubSortVersions(["2", "3"])[0] == "3"
  {
    StrLeIsTotalOrder();
    var s := ["3", "2"];
    assert StrLe("2", "3");
    assert multiset(s) == multiset(["2", "3"]);
    Sorting.SortedDescUnique(StubSortVersions(["2", "3"]), s, StrLe);
  }

  lemma StubFirstOfOne(v: string)
    ensures StubSortVersions([v]) == [v]
  {
    var r := StubSortVersions([v]);
    assert |r| == 1 && r[0] in multiset(r);
  }

  /** An edep with a single version picks that version. */
  lemma StubFirstSingle(e: Edep, chosen: string)
    requires |e.versions| == 1 && chosen == DistkeyFormat(e.packname, e.versions[0])
    ensures StubFirst(e) == chosen
  {
    assert e.versions == [e.versions[0]];
    StubFirstOfOne(e.versions[0]);
  }

  /** A(3) has no dependencies in the small test graph. */
  lemma {:induction false} LeafOfA(edeps: Edeps, fuel: nat)
    requires edeps == SimpleEdeps() && fuel == 1
    ensures Strawman1("A(3)", edeps, fuel) == Ok([])
  {
    assert "A(3)" in edeps && edeps["A(3)"] == [];
  }

  /** One step of the strawman loop: the chosen dist, what it needs, then the rest. */
  lemma {:induction false} Strawman1DepsCons(es: seq<Edep>, edeps: Edeps, fuel: nat, sub: seq<string>, rest: seq<string>)
    requires es != [] && es[0].versions != []
    requires Strawman1(StubFirst(es[0]), edeps, fuel) == Ok(sub)
    requires Strawman1Deps(es[1..], edeps, fuel) == Ok(rest)
    ensures Strawman1Deps(es, edeps, fuel) == Ok([StubFirst(es[0])] + sub + rest)
  {
  }

  /** A single edep whose newest dist is A(3) contributes exactly A(3). */
  lemma {:induction false} OneEdepToA(e: Edep, edeps: Edeps, fuel: nat)
    requires edeps == SimpleEdeps() && fuel == 1 && e.versions != [] && StubFirst(e) == "A(3)"
    ensures Strawman1Deps([e], edeps, fuel) == Ok(["A(3)"])
  {
    LeafOfA(edeps, fuel);
    assert [e][1..] == [];
    Strawman1DepsCons([e], edeps, fuel, [], []);
    assert ["A(3)"] + [] + [] == ["A(3)"];
  }

  /** B(1) needs A in ['2', '3']; the strawman picks A(3). */
  lemma {:induction false} StrawmanOfB(edeps: Edeps, fuel: nat)
    requires edeps == SimpleEdeps() && fuel == 2
    ensures Strawman1("B(1)", edeps, fuel) == Ok(["A(3)"])
  {
    StubFirstOfTwoThree();
    var e := Edep("A", ["2", "3"], ">=2,<4");
    assert StubFirst(e) == "A(3)";
    OneEdepToA(e, edeps, fuel - 1);
    assert edeps["B(1)"] == [e];
  }

  /** C(1) needs A == 3; the strawman picks A(3). */
  lemma {:induction false} StrawmanOfC(edeps: Edeps, fuel: nat)
    requires edeps == SimpleEdeps() && fuel == 2
    ensures Strawman1("C(1)", edeps, fuel) == Ok(["A(3)"])
  {
    StubFirstOfOne("3");
    var e := Edep("A", ["3"], "==3");
    assert StubFirst(e) == "A(3)";
    OneEdepToA(e, edeps, fuel - 1);
    assert edeps["C(1)"] == [e];
  }

  /** The second edep of X(1), on C, contributes C(1) and then A(3). */
  lemma {:induction false} StrawmanOfXTail(es: seq<Edep>, edeps: Edeps, fuel: nat)
    requires edeps == SimpleEdeps() && fuel == 2 && es == [Edep("C", ["1"], "")]
    ensures Strawman1Deps(es, edeps, fuel) == Ok(["C(1)", "A(3)"])
  {
    StubFirstSingle(es[0], "C(1)");
    StrawmanOfC(edeps, fuel);
    assert es[1..] == [];
    Strawman1DepsCons(es, edeps, fuel, ["A(3)"], []);
    ListOfXTail(StubFirst(es[0]));
  }

  lemma ListOfXTail(c: string)
    requires c == "C(1)"
    ensures [c] + ["A(3)"] + [] == ["C(1)", "A(3)"]
  {
  }

  /** The edeps of X(1), on B and then C, contribute B(1), A(3), C(1), A(3). */
  lemma {:induction false} StrawmanOfXDeps(es: seq<Edep>, edeps: Edeps, fuel: nat)
    requires edeps == SimpleEdeps() && fuel == 2 && es == [Edep("B", ["1"], ""), Edep("C", ["1"], "")]
    ensures Strawman1Deps(es, edeps, fuel) == Ok(["B(1)", "A(3)", "C(1)", "A(3)"])
  {
    StubFirstSingle(es[0], "B(1)");
    StrawmanOfB(edeps, fuel);
    StrawmanOfXTail(es[1..], edeps, fuel);
    Strawman1DepsCons(es, edeps, fuel, ["A(3)"], ["C(1)", "A(3)"]);
    ListOfX(StubFirst(es[0]));
  }

  lemma ListOfX(b: string)
    requires b == "B(1)"
    ensures [b] + ["A(3)"] + ["C(1)", "A(3)"] == ["B(1)", "A(3)", "C(1)", "A(3)"]
  {
  }

  /**
   * On the small test graph the intended strawman lists B(1), A(3), C(1),
   * A(3): once sorted, the test's expected ['A(3)', 'A(3)', 'B(1)',
   * 'C(1)'], where the code as written fails.
   */
  lemma {:induction false} Strawman1OnSimpleGraph(edeps: Edeps, fuel: nat)
    requires edeps == SimpleEdeps() && fuel == 3
    ensures Strawman1("X(1)", edeps, fuel) == Ok(["B(1)", "A(3)", "C(1)", "A(3)"])
    ensures Strawman1AsWritten("X(1)", edeps) == Err(NameError)
  {
    StrawmanOfXDeps(edeps["X(1)"], edeps, fuel - 1);
  }
}
