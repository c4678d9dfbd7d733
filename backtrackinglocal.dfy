/**
 * The backtracking resolver on DEPS_SIMPLE3 and DEPS_SIMPLE4 of the
 * repository's tests. Both graphs have a solution, and on both the resolver
 * raises UnresolvableConflictError, as the tests expect: backtracking stays
 * within one dependency's candidate list, so a version taken for an earlier
 * dependency is never revisited when a later one, two levels down, needs
 * another version of the same package.
 */
module BacktrackingLocalExamples {
  import opened PyStr
  import opened Errors
  import opened DistKeys
  import opened Resolvability
  import opened Backtracking
  import opened Versions
  import opened BacktrackingExamples

  // ---------------------------------------------------------------------
  // Growing the candidate list by one dist

  /** The packages of s + [d] are those of s and d's. */
  lemma PackagesSnoc(s: seq<string>, d: string)
    ensures Packages(s + [d]) == Packages(s) + {GetPackname(d)}
  {
    forall p | p in Packages(s) ensures p in Packages(s + [d]) {
      var y :| y in s && GetPackname(y) == p;
      assert y in s + [d];
    }
    assert d in s + [d];
  }

  /** Appending a dist of a new package keeps one dist per package. */
  lemma OnePerPackageSnoc(s: seq<string>, d: string)
    requires OnePerPackage(s) && GetPackname(d) !in Packages(s)
    ensures OnePerPackage(s + [d]) && NoDuplicates(s + [d])
  {
    var u := s + [d];
    forall i, j | 0 <= i < |u| && 0 <= j < |u| && i != j ensures GetPackname(u[i]) != GetPackname(u[j]) {
      if i < |s| && j < |s| {
        assert u[i] == s[i] && u[j] == s[j];
      } else if i < |s| {
        assert u[i] == s[i] && s[i] in s;
      } else {
        assert u[j] == s[j] && s[j] in s;
      }
    }
  }

  /**
   * A dist whose one edep is on a new package with one acceptable version,
   * whose search fails, cannot be satisfied: its only choice is given up.
   */
  lemma OnlyEdepGivesUp(d: string, edeps: Edeps, t: seq<string>, err: Error)
    requires WellFormedEdeps(edeps) && d in edeps && |edeps[d]| == 1
    requires GetPackname(d) !in Packages(t) && OnePerPackage(t + [d])
    requires edeps[d][0].packname !in Packages(t + [d])
    requires |SortVersions(edeps[d][0].versions)| == 1
    requires err == ConflictingVersion || err == UnresolvableConflict
    requires GetPackname(DistkeyFormat(edeps[d][0].packname, SortVersions(edeps[d][0].versions)[0])) !in Packages(t + [d])
    requires Satisfy(DistkeyFormat(edeps[d][0].packname, SortVersions(edeps[d][0].versions)[0]), edeps, t + [d]) == Err(err)
    ensures Satisfy(d, edeps, t) == Err(UnresolvableConflict)
  {
    var e := edeps[d][0];
    assert '(' !in e.packname;
    SatisfyUnfold(d, edeps, t);
    NewPackageGivesUp(e, edeps, t + [d], err);
    DepsErr(edeps[d], edeps, t + [d], UnresolvableConflict);
  }

  /** Newest first: '2' before '1'. */
  lemma SortOneTwo(vs: seq<string>)
    requires vs == ["1", "2"]
    ensures SortVersions(vs) == ["2", "1"]
  {
    assert KeyLe("1", "2");
    assert multiset(["2", "1"]) == multiset(vs);
    SortVersionsUnique(vs, ["2", "1"]);
  }

  // ---------------------------------------------------------------------
  // DEPS_SIMPLE3: X needs any B and any C; C(1) needs any D; D(1) needs B == 1.

  function Simple3Edeps(): Edeps {
    map[
      "x(1)" := [Edep("b", ["2", "1"], ""), Edep("c", ["1"], "")],
      "b(2)" := [],
      "b(1)" := [],
      "c(1)" := [Edep("d", ["1"], "")],
      "d(1)" := [Edep("b", ["1"], "==1")]
    ]
  }

  /** The entries of DEPS_SIMPLE3 the walk reads. */
  lemma Simple3Entries(edeps: Edeps)
    requires edeps == Simple3Edeps()
    ensures WellFormedEdeps(edeps)
    ensures "x(1)" in edeps && |edeps["x(1)"]| == 2
    ensures edeps["x(1)"][0] == Edep("b", ["2", "1"], "") && edeps["x(1)"][1] == Edep("c", ["1"], "")
    ensures "b(2)" in edeps && edeps["b(2)"] == [] && "b(1)" in edeps && edeps["b(1)"] == []
    ensures "c(1)" in edeps && edeps["c(1)"] == [Edep("d", ["1"], "")]
    ensures "d(1)" in edeps && edeps["d(1)"] == [Edep("b", ["1"], "==1")]
  {
  }

  /** The names and versions of the keys of DEPS_SIMPLE3. */
  lemma Simple3Names(x1: string, b1: string, b2: string, c1: string, d1: string)
    requires x1 == "x(1)" && b1 == "b(1)" && b2 == "b(2)" && c1 == "c(1)" && d1 == "d(1)"
    ensures GetPackname(x1) == "x" && GetPackname(b1) == "b" && GetVersion(b1) == "1"
    ensures GetPackname(b2) == "b" && GetVersion(b2) == "2"
    ensures GetPackname(c1) == "c" && GetPackname(d1) == "d" && GetVersion(d1) == "1"
  {
    NamesOf(x1, b1, b2, c1);
    KeyParts(d1, "d", "1");
  }

  /** The lists the walk builds: [X(1), B(2)], then C(1) and D(1) of new packages. */
  lemma Simple3Lists(x1: string, b2: string, c1: string, d1: string)
    requires GetPackname(x1) == "x" && GetPackname(b2) == "b" && GetPackname(c1) == "c" && GetPackname(d1) == "d"
    ensures OnePerPackage([x1, b2]) && "c" !in Packages([x1, b2])
    ensures OnePerPackage([x1, b2, c1]) && "d" !in Packages([x1, b2, c1])
    ensures OnePerPackage([x1, b2, c1, d1])
  {
    PackagesOfTwo(x1, b2);
    PackagesOfThree(x1, b2, c1);
    OnePerPackageOfTwo(x1, b2);
    OnePerPackageOfThree(x1, b2, c1);
    OnePerPackageOfFour(x1, b2, c1, d1);
  }

  /** D(1) needs B == 1, but B(2) is already in the list: a ConflictingVersion. */
  lemma Simple3D1Conflicts(edeps: Edeps, x1: string, b2: string, c1: string, d1: string)
    requires WellFormedEdeps(edeps) && d1 in edeps && edeps[d1] == [Edep("b", ["1"], "==1")]
    requires GetPackname(x1) == "x" && GetPackname(b2) == "b" && GetVersion(b2) == "2"
    requires GetPackname(c1) == "c" && GetPackname(d1) == "d"
    ensures "d" !in Packages([x1, b2, c1])
    ensures Satisfy(d1, edeps, [x1, b2, c1]) == Err(ConflictingVersion)
  {
    Simple3Lists(x1, b2, c1, d1);
    assert [x1, b2, c1] + [d1] == [x1, b2, c1, d1];
    OnlyEdepConflicts(edeps, [x1, b2, c1], b2, d1);
  }

  /** C(1)'s only choice for D, D(1), conflicts: C(1) cannot be satisfied. */
  lemma Simple3C1GivesUp(edeps: Edeps, x1: string, b2: string, c1: string, d1: string)
    requires WellFormedEdeps(edeps) && c1 in edeps && edeps[c1] == [Edep("d", ["1"], "")]
    requires d1 == "d(1)" && d1 in edeps && edeps[d1] == [Edep("b", ["1"], "==1")]
    requires GetPackname(x1) == "x" && GetPackname(b2) == "b" && GetVersion(b2) == "2"
    requires GetPackname(c1) == "c" && GetPackname(d1) == "d"
    ensures "c" !in Packages([x1, b2])
    ensures Satisfy(c1, edeps, [x1, b2]) == Err(UnresolvableConflict)
  {
    Simple3Lists(x1, b2, c1, d1);
    PicksSingle(edeps[c1][0], d1);
    Simple3D1Conflicts(edeps, x1, b2, c1, d1);
    assert [x1, b2] + [c1] == [x1, b2, c1];
    OnlyEdepGivesUp(c1, edeps, [x1, b2], ConflictingVersion);
  }

  /** X's edep on C, with B(2) taken: C(1), its only version, fails, and the edep is given up. */
  lemma Simple3StepC(edeps: Edeps, e: Edep, x1: string, b2: string, c1: string, d1: string)
    requires WellFormedEdeps(edeps) && e == Edep("c", ["1"], "") && c1 == "c(1)"
    requires c1 in edeps && edeps[c1] == [Edep("d", ["1"], "")]
    requires d1 == "d(1)" && d1 in edeps && edeps[d1] == [Edep("b", ["1"], "==1")]
    requires GetPackname(x1) == "x" && GetPackname(b2) == "b" && GetVersion(b2) == "2"
    requires GetPackname(c1) == "c" && GetPackname(d1) == "d"
    ensures EdepStep(e, edeps, [x1, b2]) == Err(UnresolvableConflict)
  {
    PicksSingle(e, c1);
    Simple3C1GivesUp(edeps, x1, b2, c1, d1);
    Simple3Lists(x1, b2, c1, d1);
    NewPackageGivesUp(e, edeps, [x1, b2], UnresolvableConflict);
  }

  /** X's two edeps: B is met by B(2), its newest version; then C cannot be met. */
  lemma Simple3Deps(edeps: Edeps, es: seq<Edep>, x1: string, b2: string, c1: string, d1: string)
    requires WellFormedEdeps(edeps) && x1 in edeps && es == edeps[x1] && |es| == 2
    requires es[0] == Edep("b", ["2", "1"], "") && es[1] == Edep("c", ["1"], "")
    requires b2 == "b(2)" && b2 in edeps && edeps[b2] == []
    requires c1 == "c(1)" && c1 in edeps && edeps[c1] == [Edep("d", ["1"], "")]
    requires d1 == "d(1)" && d1 in edeps && edeps[d1] == [Edep("b", ["1"], "==1")]
    requires GetPackname(x1) == "x" && GetPackname(b2) == "b" && GetVersion(b2) == "2"
    requires GetPackname(c1) == "c" && GetPackname(d1) == "d"
    ensures SatisfyDeps(es, edeps, [x1]) == Err(UnresolvableConflict)
  {
    PicksB2(es[0], b2);
    Simple3AfterB(edeps, es, x1, b2);
    Simple3StepC(edeps, es[1], x1, b2, c1, d1);
    DepsErr(es[1..], edeps, [x1, b2], UnresolvableConflict);
  }

  lemma Simple3AfterB(edeps: Edeps, es: seq<Edep>, x1: string, b2: string)
    requires WellFormedEdeps(edeps) && x1 in edeps && es == edeps[x1] && |es| == 2
    requires es[0].packname == "b"
    requires SortVersions(es[0].versions) != [] && b2 == DistkeyFormat("b", SortVersions(es[0].versions)[0])
    requires b2 in edeps && edeps[b2] == []
    requires GetPackname(x1) == "x"
    ensures SatisfyDeps(es, edeps, [x1]) == SatisfyDeps(es[1..], edeps, [x1, b2])
  {
    Simple2StepB(edeps, [x1], es[0], x1, b2);
    assert [x1] + [b2] == [x1, b2];
    DepsCons(es, edeps, [x1], [x1, b2]);
  }

  /**
   * backtracking_satisfy('x(1)', DEPS_SIMPLE3) raises UnresolvableConflictError:
   * B(2) is taken for X's first edep, and when D(1), below C(1), needs B(1),
   * the search gives up C instead of going back to B.
   */
  lemma Simple3Unresolvable(edeps: Edeps, x1: string)
    requires edeps == Simple3Edeps() && x1 == "x(1)"
    ensures BacktrackingSatisfy(x1, edeps) == Err(UnresolvableConflict)
  {
    Simple3Entries(edeps);
    Simple3Names(x1, "b(1)", "b(2)", "c(1)", "d(1)");
    assert Packages([]) == {};
    SatisfyUnfold(x1, edeps, []);
    assert [] + [x1] == [x1];
    Simple3Deps(edeps, edeps[x1], x1, "b(2)", "c(1)", "d(1)");
  }

  /**
   * DEPS_SIMPLE3 does have a solution, [X(1), B(1), C(1), D(1)]: it passes
   * `are_fully_satisfied`, though the resolver does not find it.
   */
  lemma Simple3HasSolution(edeps: Edeps, sol: seq<string>, disregardSetuptools: bool)
    requires edeps == Simple3Edeps() && sol == ["x(1)", "b(1)", "c(1)", "d(1)"]
    ensures AreFullySatisfied(sol, edeps, disregardSetuptools) == Ok(true)
  {
    Simple3KeysLower(edeps);
    Simple3SolutionOnePerPackage(sol);
    Simple3SolutionClosed(edeps, sol);
    ClosedListIsFullySatisfied(sol, edeps, disregardSetuptools);
  }

  /** Every key of DEPS_SIMPLE3 is lower-case, as the validator expects. */
  lemma Simple3KeysLower(edeps: Edeps)
    requires edeps == Simple3Edeps()
    ensures forall k :: k in edeps ==> IsLower(k)
  {
  }

  lemma Simple3SolutionOnePerPackage(sol: seq<string>)
    requires sol == ["x(1)", "b(1)", "c(1)", "d(1)"]
    ensures OnePerPackage(sol)
  {
    Simple3Names(sol[0], sol[1], "b(2)", sol[2], sol[3]);
    OnePerPackageOfFour(sol[0], sol[1], sol[2], sol[3]);
  }

  /** Every edep of every dist in [X(1), B(1), C(1), D(1)] is met in that list. */
  lemma Simple3SolutionClosed(edeps: Edeps, sol: seq<string>)
    requires edeps == Simple3Edeps() && sol == ["x(1)", "b(1)", "c(1)", "d(1)"]
    ensures forall d :: d in sol ==> Closed(d, edeps, sol)
  {
    Simple3Entries(edeps);
    Simple3Names(sol[0], sol[1], "b(2)", sol[2], sol[3]);
    KeyParts(sol[2], "c", "1");
    Simple3ClosedAt(edeps, sol);
  }

  lemma Simple3ClosedAt(edeps: Edeps, sol: seq<string>)
    requires |sol| == 4 && sol[0] in edeps && |edeps[sol[0]]| == 2
    requires edeps[sol[0]][0] == Edep("b", ["2", "1"], "") && edeps[sol[0]][1] == Edep("c", ["1"], "")
    requires sol[1] in edeps && edeps[sol[1]] == []
    requires sol[2] in edeps && edeps[sol[2]] == [Edep("d", ["1"], "")]
    requires sol[3] in edeps && edeps[sol[3]] == [Edep("b", ["1"], "==1")]
    requires GetPackname(sol[1]) == "b" && GetVersion(sol[1]) == "1"
    requires GetPackname(sol[2]) == "c" && GetVersion(sol[2]) == "1"
    requires GetPackname(sol[3]) == "d" && GetVersion(sol[3]) == "1"
    ensures forall d :: d in sol ==> Closed(d, edeps, sol)
  {
    assert sol[1] in sol && sol[2] in sol && sol[3] in sol;
    ClosedByTwo(sol[0], edeps, sol, sol[1], sol[2]);
    ClosedLeaf(sol[1], edeps, sol);
    ClosedByOne(sol[2], edeps, sol, sol[3]);
    ClosedByOne(sol[3], edeps, sol, sol[1]);
    ClosedEverywhere(edeps, sol);
  }

  /** Closure at every position is closure of every member. */
  lemma ClosedEverywhere(edeps: Edeps, sol: seq<string>)
    requires forall i :: 0 <= i < |sol| ==> Closed(sol[i], edeps, sol)
    ensures forall d :: d in sol ==> Closed(d, edeps, sol)
  {
    forall d | d in sol ensures Closed(d, edeps, sol) {
      var i :| 0 <= i < |sol| && sol[i] == d;
    }
  }

  /** A dist without edeps is closed in any list. */
  lemma ClosedLeaf(d: string, edeps: Edeps, sol: seq<string>)
    requires d in edeps && edeps[d] == []
    ensures Closed(d, edeps, sol)
  {
  }

  /** A dist whose one edep is met by x in the list is closed in it. */
  lemma ClosedByOne(d: string, edeps: Edeps, sol: seq<string>, x: string)
    requires d in edeps && |edeps[d]| == 1 && x in sol
    requires GetPackname(x) == edeps[d][0].packname && GetVersion(x) in edeps[d][0].versions
    ensures Closed(d, edeps, sol)
  {
    assert EdepMet(edeps[d][0], sol);
  }

  /** A dist whose two edeps are met by x and y in the list is closed in it. */
  lemma ClosedByTwo(d: string, edeps: Edeps, sol: seq<string>, x: string, y: string)
    requires d in edeps && |edeps[d]| == 2 && x in sol && y in sol
    requires GetPackname(x) == edeps[d][0].packname && GetVersion(x) in edeps[d][0].versions
    requires GetPackname(y) == edeps[d][1].packname && GetVersion(y) in edeps[d][1].versions
    ensures Closed(d, edeps, sol)
  {
    assert EdepMet(edeps[d][0], sol) && EdepMet(edeps[d][1], sol);
  }

  // ---------------------------------------------------------------------
  // DEPS_SIMPLE4: X needs any B and any C; B(1) needs any E; C(1) needs any D;
  // D(1) needs E == 1.

  function Simple4Edeps(): Edeps {
    map[
      "x(1)" := [Edep("b", ["1"], ""), Edep("c", ["1"], "")],
      "b(1)" := [Edep("e", ["1", "2"], "")],
      "c(1)" := [Edep("d", ["1"], "")],
      "d(1)" := [Edep("e", ["1"], "==1")],
      "e(1)" := [],
      "e(2)" := []
    ]
  }

  /** The entries of DEPS_SIMPLE4 the walk reads. */
  lemma Simple4Entries(edeps: Edeps)
    requires edeps == Simple4Edeps()
    ensures WellFormedEdeps(edeps)
    ensures "x(1)" in edeps && edeps["x(1)"] == [Edep("b", ["1"], ""), Edep("c", ["1"], "")]
    ensures "b(1)" in edeps && edeps["b(1)"] == [Edep("e", ["1", "2"], "")]
    ensures "c(1)" in edeps && edeps["c(1)"] == [Edep("d", ["1"], "")]
    ensures "d(1)" in edeps && edeps["d(1)"] == [Edep("e", ["1"], "==1")]
    ensures "e(1)" in edeps && edeps["e(1)"] == [] && "e(2)" in edeps && edeps["e(2)"] == []
  {
  }

  /** The names and versions of the keys of DEPS_SIMPLE4. */
  lemma Simple4Names(x1: string, b1: string, c1: string, d1: string, e1: string, e2: string)
    requires x1 == "x(1)" && b1 == "b(1)" && c1 == "c(1)" && d1 == "d(1)" && e1 == "e(1)" && e2 == "e(2)"
    ensures GetPackname(x1) == "x" && GetPackname(b1) == "b" && GetVersion(b1) == "1"
    ensures GetPackname(c1) == "c" && GetVersion(c1) == "1" && GetPackname(d1) == "d" && GetVersion(d1) == "1"
    ensures GetPackname(e1) == "e" && GetVersion(e1) == "1" && GetPackname(e2) == "e" && GetVersion(e2) == "2"
  {
    KeyParts(x1, "x", "1");
    KeyParts(b1, "b", "1");
    KeyParts(c1, "c", "1");
    KeyParts(d1, "d", "1");
    KeyParts(e1, "e", "1");
    KeyParts(e2, "e", "2");
  }

  /** The lists the walk builds: [X(1)], then B(1), E(2), C(1) and D(1), each of a new package. */
  lemma Simple4Lists(x1: string, b1: string, e2: string, c1: string, d1: string)
    requires GetPackname(x1) == "x" && GetPackname(b1) == "b" && GetPackname(e2) == "e"
    requires GetPackname(c1) == "c" && GetPackname(d1) == "d"
    ensures OnePerPackage([x1]) && "b" !in Packages([x1])
    ensures OnePerPackage([x1, b1]) && "e" !in Packages([x1, b1])
    ensures OnePerPackage([x1, b1, e2]) && NoDuplicates([x1, b1, e2]) && "c" !in Packages([x1, b1, e2])
    ensures OnePerPackage([x1, b1, e2, c1]) && "d" !in Packages([x1, b1, e2, c1])
    ensures OnePerPackage([x1, b1, e2, c1, d1])
  {
    Simple4ListsShort(x1, b1, e2);
    Simple4ListsLong([x1, b1, e2], c1, d1);
    assert [x1, b1, e2] + [c1] == [x1, b1, e2, c1];
    assert [x1, b1, e2] + [c1] + [d1] == [x1, b1, e2, c1, d1];
  }

  lemma Simple4ListsShort(x1: string, b1: string, e2: string)
    requires GetPackname(x1) == "x" && GetPackname(b1) == "b" && GetPackname(e2) == "e"
    ensures OnePerPackage([x1]) && "b" !in Packages([x1])
    ensures OnePerPackage([x1, b1]) && "e" !in Packages([x1, b1])
    ensures OnePerPackage([x1, b1, e2]) && NoDuplicates([x1, b1, e2])
    ensures Packages([x1, b1, e2]) == {"x", "b", "e"}
  {
    PackagesOfOne(x1);
    PackagesOfTwo(x1, b1);
    PackagesOfThree(x1, b1, e2);
    OnePerPackageOfTwo(x1, b1);
    OnePerPackageOfThree(x1, b1, e2);
  }

  lemma Simple4ListsLong(t: seq<string>, c1: string, d1: string)
    requires OnePerPackage(t) && Packages(t) == {"x", "b", "e"}
    requires GetPackname(c1) == "c" && GetPackname(d1) == "d"
    ensures "c" !in Packages(t) && OnePerPackage(t + [c1]) && "d" !in Packages(t + [c1])
    ensures OnePerPackage(t + [c1] + [d1])
  {
    PackagesSnoc(t, c1);
    OnePerPackageSnoc(t, c1);
    OnePerPackageSnoc(t + [c1], d1);
  }

  /** B(1)'s one edep, on E: E(2), the newest, has no edeps and is taken. */
  lemma Simple4StepE(edeps: Edeps, x1: string, b1: string, e2: string)
    requires WellFormedEdeps(edeps) && b1 in edeps && edeps[b1] == [Edep("e", ["1", "2"], "")]
    requires e2 == "e(2)" && e2 in edeps && edeps[e2] == []
    requires OnePerPackage([x1, b1]) && "e" !in Packages([x1, b1]) && NoDuplicates([x1, b1, e2])
    ensures EdepStep(edeps[b1][0], edeps, [x1, b1]) == Ok([x1, b1, e2])
  {
    SortOneTwo(edeps[b1][0].versions);
    assert [x1, b1] + [e2] == [x1, b1, e2];
    NewLeafStep(edeps[b1][0], edeps, [x1, b1], e2);
  }

  /** B(1) is satisfied by taking E(2), the newest version of E, after it. */
  lemma Simple4SatisfyB1(edeps: Edeps, x1: string, b1: string, e2: string, c1: string, d1: string)
    requires WellFormedEdeps(edeps) && b1 in edeps && edeps[b1] == [Edep("e", ["1", "2"], "")]
    requires e2 == "e(2)" && e2 in edeps && edeps[e2] == []
    requires GetPackname(x1) == "x" && GetPackname(b1) == "b" && GetPackname(e2) == "e"
    requires GetPackname(c1) == "c" && GetPackname(d1) == "d"
    ensures Satisfy(b1, edeps, [x1]) == Ok([x1, b1, e2])
  {
    Simple4Lists(x1, b1, e2, c1, d1);
    Simple4StepE(edeps, x1, b1, e2);
    assert [x1] + [b1] == [x1, b1];
    OnlyEdepTaken(b1, edeps, [x1], [x1, b1, e2]);
  }

  /** X's edep on B: B(1) is taken, and E(2) with it. */
  lemma Simple4StepB(edeps: Edeps, e: Edep, x1: string, b1: string, e2: string, c1: string, d1: string)
    requires WellFormedEdeps(edeps) && e == Edep("b", ["1"], "") && b1 == "b(1)"
    requires b1 in edeps && edeps[b1] == [Edep("e", ["1", "2"], "")]
    requires e2 == "e(2)" && e2 in edeps && edeps[e2] == []
    requires GetPackname(x1) == "x" && GetPackname(b1) == "b" && GetPackname(e2) == "e"
    requires GetPackname(c1) == "c" && GetPackname(d1) == "d"
    ensures EdepStep(e, edeps, [x1]) == Ok([x1, b1, e2])
  {
    PicksSingle(e, b1);
    Simple4Lists(x1, b1, e2, c1, d1);
    Simple4SatisfyB1(edeps, x1, b1, e2, c1, d1);
    assert [x1] + [b1, e2] == [x1, b1, e2];
    NewPackageStep(e, edeps, [x1], [b1, e2]);
  }

  /** C(1)'s only choice for D, D(1), needs E == 1 while E(2) is in the list: C(1) cannot be satisfied. */
  lemma Simple4C1GivesUp(edeps: Edeps, x1: string, b1: string, e2: string, c1: string, d1: string)
    requires WellFormedEdeps(edeps) && c1 in edeps && edeps[c1] == [Edep("d", ["1"], "")]
    requires d1 == "d(1)" && d1 in edeps && edeps[d1] == [Edep("e", ["1"], "==1")]
    requires GetPackname(x1) == "x" && GetPackname(b1) == "b" && GetPackname(e2) == "e" && GetVersion(e2) == "2"
    requires GetPackname(c1) == "c" && GetPackname(d1) == "d"
    ensures Satisfy(c1, edeps, [x1, b1, e2]) == Err(UnresolvableConflict)
  {
    var t := [x1, b1, e2];
    Simple4Lists(x1, b1, e2, c1, d1);
    PicksSingle(edeps[c1][0], d1);
    assert t + [c1] == [x1, b1, e2, c1];
    assert t + [c1] + [d1] == [x1, b1, e2, c1, d1];
    assert e2 in t + [c1];
    OnlyEdepConflicts(edeps, t + [c1], e2, d1);
    OnlyEdepGivesUp(c1, edeps, t, ConflictingVersion);
  }

  /** X's edep on C, with E(2) taken below B(1): C(1), its only version, fails, and the edep is given up. */
  lemma Simple4StepC(edeps: Edeps, e: Edep, x1: string, b1: string, e2: string, c1: string, d1: string)
    requires WellFormedEdeps(edeps) && e == Edep("c", ["1"], "") && c1 == "c(1)"
    requires c1 in edeps && edeps[c1] == [Edep("d", ["1"], "")]
    requires d1 == "d(1)" && d1 in edeps && edeps[d1] == [Edep("e", ["1"], "==1")]
    requires GetPackname(x1) == "x" && GetPackname(b1) == "b" && GetPackname(e2) == "e" && GetVersion(e2) == "2"
    requires GetPackname(c1) == "c" && GetPackname(d1) == "d"
    ensures EdepStep(e, edeps, [x1, b1, e2]) == Err(UnresolvableConflict)
  {
    PicksSingle(e, c1);
    Simple4C1GivesUp(edeps, x1, b1, e2, c1, d1);
    Simple4Lists(x1, b1, e2, c1, d1);
    NewPackageGivesUp(e, edeps, [x1, b1, e2], UnresolvableConflict);
  }

  /** X's two edeps: B is met by B(1) with E(2); then C cannot be met. */
  lemma Simple4Deps(edeps: Edeps, es: seq<Edep>, x1: string, b1: string, e2: string, c1: string, d1: string)
    requires WellFormedEdeps(edeps) && x1 in edeps && es == edeps[x1] && |es| == 2
    requires es[0] == Edep("b", ["1"], "") && es[1] == Edep("c", ["1"], "")
    requires b1 == "b(1)" && b1 in edeps && edeps[b1] == [Edep("e", ["1", "2"], "")]
    requires e2 == "e(2)" && e2 in edeps && edeps[e2] == []
    requires c1 == "c(1)" && c1 in edeps && edeps[c1] == [Edep("d", ["1"], "")]
    requires d1 == "d(1)" && d1 in edeps && edeps[d1] == [Edep("e", ["1"], "==1")]
    requires GetPackname(x1) == "x" && GetPackname(b1) == "b" && GetPackname(e2) == "e" && GetVersion(e2) == "2"
    requires GetPackname(c1) == "c" && GetPackname(d1) == "d"
    ensures SatisfyDeps(es, edeps, [x1]) == Err(UnresolvableConflict)
  {
    Simple4StepB(edeps, es[0], x1, b1, e2, c1, d1);
    DepsCons(es, edeps, [x1], [x1, b1, e2]);
    Simple4StepC(edeps, es[1], x1, b1, e2, c1, d1);
    DepsErr(es[1..], edeps, [x1, b1, e2], UnresolvableConflict);
  }

  /**
   * backtracking_satisfy('x(1)', DEPS_SIMPLE4) raises UnresolvableConflictError:
   * E(2) is taken under B(1), and when D(1), under C(1), needs E(1), the
   * search gives up C instead of going back to E.
   */
  lemma Simple4Unresolvable(edeps: Edeps, x1: string)
    requires edeps == Simple4Edeps() && x1 == "x(1)"
    ensures BacktrackingSatisfy(x1, edeps) == Err(UnresolvableConflict)
  {
    Simple4Entries(edeps);
    Simple4Names(x1, "b(1)", "c(1)", "d(1)", "e(1)", "e(2)");
    assert Packages([]) == {};
    SatisfyUnfold(x1, edeps, []);
    assert [] + [x1] == [x1];
    Simple4Deps(edeps, edeps[x1], x1, "b(1)", "e(2)", "c(1)", "d(1)");
  }

  /**
   * DEPS_SIMPLE4 does have a solution, [X(1), B(1), C(1), D(1), E(1)]: it
   * passes `are_fully_satisfied`, though the resolver does not find it.
   */
  lemma Simple4HasSolution(edeps: Edeps, sol: seq<string>, disregardSetuptools: bool)
    requires edeps == Simple4Edeps() && sol == ["x(1)", "b(1)", "c(1)", "d(1)", "e(1)"]
    ensures AreFullySatisfied(sol, edeps, disregardSetuptools) == Ok(true)
  {
    Simple4KeysLower(edeps);
    Simple4SolutionOnePerPackage(sol);
    Simple4SolutionClosed(edeps, sol);
    ClosedListIsFullySatisfied(sol, edeps, disregardSetuptools);
  }

  /** Every key of DEPS_SIMPLE4 is lower-case, as the validator expects. */
  lemma Simple4KeysLower(edeps: Edeps)
    requires edeps == Simple4Edeps()
    ensures forall k :: k in edeps ==> IsLower(k)
  {
  }

  /** The solution holds the walk's packages x, b, e, c, d in another order. */
  lemma Simple4SolutionOnePerPackage(sol: seq<string>)
    requires sol == ["x(1)", "b(1)", "c(1)", "d(1)", "e(1)"]
    ensures OnePerPackage(sol)
  {
    Simple4Names(sol[0], sol[1], sol[2], sol[3], sol[4], "e(2)");
    Simple4Lists(sol[0], sol[1], sol[4], sol[2], sol[3]);
    Reordered(sol, [sol[0], sol[1], sol[4], sol[2], sol[3]]);
  }

  lemma Reordered(sol: seq<string>, w: seq<string>)
    requires |sol| == 5 && w == [sol[0], sol[1], sol[4], sol[2], sol[3]] && OnePerPackage(w)
    ensures OnePerPackage(sol)
  {
    var pos := [0, 1, 3, 4, 2];
    forall i, j | 0 <= i < |sol| && 0 <= j < |sol| && i != j ensures GetPackname(sol[i]) != GetPackname(sol[j]) {
      assert sol[i] == w[pos[i]] && sol[j] == w[pos[j]];
    }
  }

  /** Every edep of every dist in [X(1), B(1), C(1), D(1), E(1)] is met in that list. */
  lemma Simple4SolutionClosed(edeps: Edeps, sol: seq<string>)
    requires edeps == Simple4Edeps() && sol == ["x(1)", "b(1)", "c(1)", "d(1)", "e(1)"]
    ensures forall d :: d in sol ==> Closed(d, edeps, sol)
  {
    Simple4Entries(edeps);
    Simple4Names(sol[0], sol[1], sol[2], sol[3], sol[4], "e(2)");
    Simple4ClosedAt(edeps, sol);
  }

  lemma Simple4ClosedAt(edeps: Edeps, sol: seq<string>)
    requires |sol| == 5
    requires sol[0] in edeps && edeps[sol[0]] == [Edep("b", ["1"], ""), Edep("c", ["1"], "")]
    requires sol[1] in edeps && edeps[sol[1]] == [Edep("e", ["1", "2"], "")]
    requires sol[2] in edeps && edeps[sol[2]] == [Edep("d", ["1"], "")]
    requires sol[3] in edeps && edeps[sol[3]] == [Edep("e", ["1"], "==1")]
    requires sol[4] in edeps && edeps[sol[4]] == []
    requires GetPackname(sol[1]) == "b" && GetVersion(sol[1]) == "1"
    requires GetPackname(sol[2]) == "c" && GetVersion(sol[2]) == "1"
    requires GetPackname(sol[3]) == "d" && GetVersion(sol[3]) == "1"
    requires GetPackname(sol[4]) == "e" && GetVersion(sol[4]) == "1"
    ensures forall d :: d in sol ==> Closed(d, edeps, sol)
  {
    assert sol[1] in sol && sol[2] in sol && sol[3] in sol && sol[4] in sol;
    ClosedByTwo(sol[0], edeps, sol, sol[1], sol[2]);
    ClosedByOne(sol[1], edeps, sol, sol[4]);
    ClosedByOne(sol[2], edeps, sol, sol[3]);
    ClosedByOne(sol[3], edeps, sol, sol[4]);
    ClosedLeaf(sol[4], edeps, sol);
    ClosedEverywhere(edeps, sol);
  }
}
