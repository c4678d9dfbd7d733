/**
 * The backtracking resolver on two graphs of the repository's tests: it
 * solves DEPS_SIMPLE, and it gives up on DEPS_SIMPLE2 although that graph
 * has a solution, because it never revisits a dependency already satisfied.
 * The graphs are given in elaborated form, keyed by lower-case distkeys as
 * the tests' call with 'x(1)' expects.
 */
module BacktrackingExamples {
  import opened PyStr
  import opened Errors
  import opened DistKeys
  import opened Resolvability
  import opened Backtracking
  import opened Versions

  // ---------------------------------------------------------------------
  // Small facts used by both walks

  /** A formatted key splits into its name and version. */
  lemma KeyParts(d: string, p: string, v: string)
    requires '(' !in p && d == DistkeyFormat(p, v)
    ensures GetPackname(d) == p && GetVersion(d) == v
  {
    SplitFormat(p, v);
  }

  /** Combining with a list whose members are all present already changes nothing. */
  lemma {:induction false} DedupAllPresent(a: seq<string>, b: seq<string>)
    requires NoDuplicates(a)
    requires forall y :: y in b ==> y in a
    ensures Dedup(a + b) == a
    decreases |b|
  {
    if b == [] {
      assert a + b == a;
      DedupNoDuplicates(a);
    } else {
      var b' := b[..|b| - 1];
      assert (a + b)[..|a + b| - 1] == a + b';
      assert (a + b)[|a + b| - 1] == b[|b| - 1];
      DedupAllPresent(a, b');
    }
  }

  /** Merging a child's solution that starts with the list and adds dists of its own. */
  lemma CombineExtends(s: seq<string>, t: seq<string>)
    requires NoDuplicates(s + t)
    ensures Combine(s, s + t) == s + t
  {
    assert NoDuplicates(s) by {
      forall i, j | 0 <= i < j < |s| ensures s[i] != s[j] {
        assert s[i] == (s + t)[i] && s[j] == (s + t)[j];
      }
    }
    DedupAllPresent(s, s);
    assert s + (s + t) == (s + s) + t;
    DedupGrows(s + s, s, t);
  }

  /** Appending new distinct dists after a prefix Dedup reduces to s appends them. */
  lemma {:induction false} DedupGrows(x: seq<string>, s: seq<string>, t: seq<string>)
    requires Dedup(x) == s && NoDuplicates(s + t)
    ensures Dedup(x + t) == s + t
    decreases |t|
  {
    if t == [] {
      assert x + t == x && s + t == s;
    } else {
      var t' := t[..|t| - 1];
      var last := t[|t| - 1];
      assert (x + t)[..|x + t| - 1] == x + t';
      assert (x + t)[|x + t| - 1] == last;
      assert s + t == (s + t') + [last];
      assert NoDuplicates(s + t') by {
        forall i, j | 0 <= i < j < |s + t'| ensures (s + t')[i] != (s + t')[j] {
          assert (s + t')[i] == (s + t)[i] && (s + t')[j] == (s + t)[j];
        }
      }
      DedupGrows(x, s, t');
      assert last !in s + t' by {
        forall i | 0 <= i < |s + t'| ensures (s + t')[i] != last {
          assert (s + t')[i] == (s + t)[i] && last == (s + t)[|s + t| - 1];
        }
      }
    }
  }

  /** Three dists of three different packages. */
  lemma ThreePackages(a: string, b: string, c: string)
    requires GetPackname(a) != GetPackname(b) && GetPackname(a) != GetPackname(c) && GetPackname(b) != GetPackname(c)
    ensures OnePerPackage([a, b]) && OnePerPackage([a, b, c])
    ensures NoDuplicates([a, b]) && NoDuplicates([a, b, c])
  {
    OnePerPackageOfThree(a, b, c);
    OnePerPackageOfTwo(a, b);
  }

  lemma OnePerPackageOfThree(a: string, b: string, c: string)
    requires GetPackname(a) != GetPackname(b) && GetPackname(a) != GetPackname(c) && GetPackname(b) != GetPackname(c)
    ensures OnePerPackage([a, b, c]) && NoDuplicates([a, b, c])
  {
    var s := [a, b, c];
    forall i, j | 0 <= i < |s| && 0 <= j < |s| && i != j ensures GetPackname(s[i]) != GetPackname(s[j]) {
      if i == 0 || j == 0 { } else { }
    }
  }

  lemma OnePerPackageOfTwo(a: string, b: string)
    requires GetPackname(a) != GetPackname(b)
    ensures OnePerPackage([a, b]) && NoDuplicates([a, b])
  {
  }

  lemma OnePerPackageOfFour(a: string, b: string, c: string, d: string)
    requires GetPackname(a) != GetPackname(b) && GetPackname(a) != GetPackname(c) && GetPackname(a) != GetPackname(d)
    requires GetPackname(b) != GetPackname(c) && GetPackname(b) != GetPackname(d) && GetPackname(c) != GetPackname(d)
    ensures OnePerPackage([a, b, c, d]) && NoDuplicates([a, b, c, d])
  {
    var s := [a, b, c, d];
    forall i, j | 0 <= i < |s| && 0 <= j < |s| && i != j ensures GetPackname(s[i]) != GetPackname(s[j]) {
      if i == 0 || j == 0 { } else if i == 1 || j == 1 { } else { }
    }
  }

  /** The packages of a three-dist list. */
  lemma PackagesOfThree(a: string, b: string, c: string)
    ensures Packages([a, b, c]) == {GetPackname(a), GetPackname(b), GetPackname(c)}
  {
    var t := [a, b, c];
    forall p | p in Packages(t) ensures p == GetPackname(a) || p == GetPackname(b) || p == GetPackname(c) {
      var d :| d in t && GetPackname(d) == p;
    }
    assert GetPackname(t[0]) in Packages(t) && GetPackname(t[1]) in Packages(t) && GetPackname(t[2]) in Packages(t);
  }

  lemma PackagesOfOne(a: string)
    ensures Packages([a]) == {GetPackname(a)}
  {
    assert [a][0] == a;
  }

  /** The packages of a two-dist list. */
  lemma PackagesOfTwo(a: string, b: string)
    ensures Packages([a, b]) == {GetPackname(a), GetPackname(b)}
  {
    var t := [a, b];
    forall p | p in Packages(t) ensures p == GetPackname(a) || p == GetPackname(b) {
      var d :| d in t && GetPackname(d) == p;
    }
    assert GetPackname(t[0]) in Packages(t) && GetPackname(t[1]) in Packages(t);
  }

  /** A dist with no edeps is satisfied by committing it. */
  lemma SatisfyLeaf(d: string, edeps: Edeps, c: seq<string>)
    requires WellFormedEdeps(edeps) && GetPackname(d) !in Packages(c)
    requires d in edeps && edeps[d] == []
    ensures Satisfy(d, edeps, c) == Ok(c + [d])
  {
  }

  /** The loop over edeps moves on after an edep that is met. */
  lemma DepsCons(es: seq<Edep>, edeps: Edeps, s: seq<string>, t: seq<string>)
    requires WellFormedEdeps(edeps)
    requires forall m :: 0 <= m < |es| ==> '(' !in es[m].packname
    requires es != [] && EdepStep(es[0], edeps, s) == Ok(t)
    ensures SatisfyDeps(es, edeps, s) == SatisfyDeps(es[1..], edeps, t)
  {
  }

  /** A dist whose one edep is met by extending the list to t is satisfied with t. */
  lemma OnlyEdepTaken(d: string, edeps: Edeps, c: seq<string>, t: seq<string>)
    requires WellFormedEdeps(edeps) && d in edeps && |edeps[d]| == 1
    requires GetPackname(d) !in Packages(c)
    requires EdepStep(edeps[d][0], edeps, c + [d]) == Ok(t)
    ensures Satisfy(d, edeps, c) == Ok(t)
  {
    SatisfyUnfold(d, edeps, c);
    DepsCons(edeps[d], edeps, c + [d], t);
    assert edeps[d][1..] == [];
  }

  /** The loop over edeps stops at the first error. */
  lemma DepsErr(es: seq<Edep>, edeps: Edeps, s: seq<string>, err: Error)
    requires WellFormedEdeps(edeps)
    requires forall m :: 0 <= m < |es| ==> '(' !in es[m].packname
    requires es != [] && EdepStep(es[0], edeps, s) == Err(err)
    ensures SatisfyDeps(es, edeps, s) == Err(err)
  {
  }

  /** An edep on a package not yet in the list goes to the loop over its sorted versions. */
  lemma EdepStepNew(e: Edep, edeps: Edeps, s: seq<string>)
    requires WellFormedEdeps(edeps) && '(' !in e.packname
    requires e.packname !in Packages(s) && SortVersions(e.versions) != []
    ensures EdepStep(e, edeps, s) == TryCandidates(e.packname, SortVersions(e.versions), edeps, s)
  {
    MatchingEmptyIff(e.packname, s);
  }

  /** An edep on a new package whose newest version is satisfied by extending the list with t takes s + t. */
  lemma NewPackageStep(e: Edep, edeps: Edeps, s: seq<string>, t: seq<string>)
    requires WellFormedEdeps(edeps) && '(' !in e.packname
    requires e.packname !in Packages(s) && OnePerPackage(s)
    requires SortVersions(e.versions) != []
    requires GetPackname(DistkeyFormat(e.packname, SortVersions(e.versions)[0])) !in Packages(s)
    requires Satisfy(DistkeyFormat(e.packname, SortVersions(e.versions)[0]), edeps, s) == Ok(s + t)
    requires NoDuplicates(s + t)
    ensures EdepStep(e, edeps, s) == Ok(s + t)
  {
    EdepStepNew(e, edeps, s);
    TryCandidatesStep(e.packname, SortVersions(e.versions), edeps, s);
    CombineExtends(s, t);
  }

  /** An edep on a new package whose newest version has no edeps takes that version. */
  lemma NewLeafStep(e: Edep, edeps: Edeps, s: seq<string>, d: string)
    requires WellFormedEdeps(edeps) && '(' !in e.packname
    requires e.packname !in Packages(s) && OnePerPackage(s)
    requires SortVersions(e.versions) != [] && d == DistkeyFormat(e.packname, SortVersions(e.versions)[0])
    requires d in edeps && edeps[d] == [] && NoDuplicates(s + [d])
    ensures EdepStep(e, edeps, s) == Ok(s + [d])
  {
    KeyParts(d, e.packname, SortVersions(e.versions)[0]);
    SatisfyLeaf(d, edeps, s);
    NewPackageStep(e, edeps, s, [d]);
  }

  /**
   * An edep on a new package with one acceptable version, whose search fails
   * with ConflictingVersion or UnresolvableConflict, cannot be resolved.
   */
  lemma NewPackageGivesUp(e: Edep, edeps: Edeps, s: seq<string>, err: Error)
    requires WellFormedEdeps(edeps) && '(' !in e.packname
    requires e.packname !in Packages(s) && OnePerPackage(s)
    requires |SortVersions(e.versions)| == 1
    requires err == ConflictingVersion || err == UnresolvableConflict
    requires GetPackname(DistkeyFormat(e.packname, SortVersions(e.versions)[0])) !in Packages(s)
    requires Satisfy(DistkeyFormat(e.packname, SortVersions(e.versions)[0]), edeps, s) == Err(err)
    ensures EdepStep(e, edeps, s) == Err(UnresolvableConflict)
  {
    var vs := SortVersions(e.versions);
    EdepStepNew(e, edeps, s);
    TryCandidatesStep(e.packname, vs, edeps, s);
    assert vs[1..] == [];
  }

  /** An edep on a package present at an acceptable version leaves the list as it is. */
  lemma PresentStep(e: Edep, edeps: Edeps, s: seq<string>, x: string)
    requires WellFormedEdeps(edeps) && '(' !in e.packname && OnePerPackage(s)
    requires x in s && GetPackname(x) == e.packname && GetVersion(x) in e.versions
    ensures EdepStep(e, edeps, s) == Ok(s)
  {
    EdepStepOutcomes(e, edeps, s);
  }

  /** An edep on a package present at an unacceptable version is a ConflictingVersion. */
  lemma PresentConflict(e: Edep, edeps: Edeps, s: seq<string>, x: string)
    requires WellFormedEdeps(edeps) && '(' !in e.packname && OnePerPackage(s)
    requires e.versions != []
    requires x in s && GetPackname(x) == e.packname && GetVersion(x) !in e.versions
    ensures EdepStep(e, edeps, s) == Err(ConflictingVersion)
  {
    EdepStepOutcomes(e, edeps, s);
    assert e.packname in Packages(s);
    forall y | y in s && GetPackname(y) == e.packname ensures GetVersion(y) !in e.versions {
      OnePerPackageSame(s, x, y);
    }
  }

  // ---------------------------------------------------------------------
  // DEPS_SIMPLE2: X needs any B and any C; C(1) needs B <= 1.

  function Simple2Edeps(): Edeps {
    map[
      "x(1)" := [Edep("b", ["2", "1"], ""), Edep("c", ["1"], "")],
      "b(2)" := [],
      "b(1)" := [],
      "c(1)" := [Edep("b", ["1"], "<=1")]
    ]
  }

  lemma Simple2WellFormed(edeps: Edeps)
    requires edeps == Simple2Edeps()
    ensures WellFormedEdeps(edeps)
  {
  }

  /** The names and versions of the keys used below. */
  lemma NamesOf(x1: string, b1: string, b2: string, c1: string)
    requires x1 == "x(1)" && b1 == "b(1)" && b2 == "b(2)" && c1 == "c(1)"
    ensures GetPackname(x1) == "x" && GetVersion(x1) == "1"
    ensures GetPackname(b1) == "b" && GetVersion(b1) == "1"
    ensures GetPackname(b2) == "b" && GetVersion(b2) == "2"
    ensures GetPackname(c1) == "c" && GetVersion(c1) == "1"
  {
    KeyParts(x1, "x", "1");
    KeyParts(b1, "b", "1");
    KeyParts(b2, "b", "2");
    KeyParts(c1, "c", "1");
  }

  /** Newest first: '2' before '1'. */
  lemma SortTwoOne(vs: seq<string>)
    requires vs == ["2", "1"]
    ensures SortVersions(vs) == vs
  {
    assert KeyLe("1", "2");
    SortVersionsUnique(vs, vs);
  }

  /** Newest first: '3' before '2'. */
  lemma SortTwoThree(vs: seq<string>)
    requires vs == ["2", "3"]
    ensures SortVersions(vs) == ["3", "2"]
  {
    assert KeyLe("2", "3");
    assert multiset(["3", "2"]) == multiset(vs);
    SortVersionsUnique(vs, ["3", "2"]);
  }

  lemma SortSingle(vs: seq<string>)
    requires |vs| == 1
    ensures SortVersions(vs) == vs
  {
    SortVersionsUnique(vs, vs);
  }

  /** X's edep on B: B(2), the newest, has no edeps and is taken. */
  lemma Simple2StepB(edeps: Edeps, s: seq<string>, e: Edep, x1: string, b2: string)
    requires WellFormedEdeps(edeps) && b2 in edeps && edeps[b2] == []
    requires s == [x1] && GetPackname(x1) == "x"
    requires e.packname == "b" && SortVersions(e.versions) != []
    requires b2 == DistkeyFormat("b", SortVersions(e.versions)[0])
    ensures EdepStep(e, edeps, s) == Ok(s + [b2])
  {
    assert GetPackname(b2) !in Packages(s) && NoDuplicates(s + [b2]) by {
      KeyParts(b2, "b", SortVersions(e.versions)[0]);
      PackagesOfOne(x1);
      OnePerPackageOfTwo(x1, b2);
    }
    SatisfyLeaf(b2, edeps, s);
    NewPackageStep(e, edeps, s, [b2]);
  }

  /** A dist whose one edep needs a package in the list at another version: a ConflictingVersion. */
  lemma OnlyEdepConflicts(edeps: Edeps, t: seq<string>, b2: string, c1: string)
    requires WellFormedEdeps(edeps) && c1 in edeps && |edeps[c1]| == 1
    requires edeps[c1][0].packname == GetPackname(b2) && edeps[c1][0].versions != []
    requires b2 in t && GetVersion(b2) !in edeps[c1][0].versions
    requires GetPackname(c1) !in Packages(t) && OnePerPackage(t + [c1])
    ensures Satisfy(c1, edeps, t) == Err(ConflictingVersion)
  {
    var u := t + [c1];
    SatisfyUnfold(c1, edeps, t);
    PresentConflict(edeps[c1][0], edeps, u, b2);
    DepsErr(edeps[c1], edeps, u, ConflictingVersion);
  }

  /** The list [X(1), B(2)] and C(1): three packages. */
  lemma Simple2Names(t: seq<string>, x1: string, b2: string, c1: string)
    requires t == [x1, b2] && GetPackname(x1) == "x" && GetPackname(b2) == "b" && GetPackname(c1) == "c"
    ensures b2 in t && OnePerPackage(t) && GetPackname(c1) !in Packages(t) && OnePerPackage(t + [c1])
  {
    ThreePackages(x1, b2, c1);
    PackagesOfTwo(x1, b2);
    assert t + [c1] == [x1, b2, c1];
  }

  /**
   * X's edep on C, with B(2) already taken: C(1) needs B at '1', B(2) is in
   * the way, and C has no other version to try.
   */
  lemma Simple2StepC(edeps: Edeps, t: seq<string>, e: Edep, x1: string, b2: string, c1: string)
    requires WellFormedEdeps(edeps) && c1 in edeps && |edeps[c1]| == 1
    requires edeps[c1][0].packname == "b" && edeps[c1][0].versions != []
    requires t == [x1, b2] && GetPackname(x1) == "x"
    requires GetPackname(b2) == "b" && GetVersion(b2) !in edeps[c1][0].versions
    requires e.packname == "c" && |SortVersions(e.versions)| == 1
    requires c1 == DistkeyFormat("c", SortVersions(e.versions)[0])
    ensures EdepStep(e, edeps, t) == Err(UnresolvableConflict)
  {
    KeyParts(c1, "c", SortVersions(e.versions)[0]);
    Simple2Names(t, x1, b2, c1);
    OnlyEdepConflicts(edeps, t, b2, c1);
    NewPackageGivesUp(e, edeps, t, ConflictingVersion);
  }

  /** The shape of DEPS_SIMPLE2 that the walk depends on, with the versions left abstract. */
  predicate Simple2Shape(edeps: Edeps, es: seq<Edep>, x1: string, b2: string, c1: string) {
    Simple2ShapeB(edeps, es, x1, b2) && Simple2ShapeC(edeps, es, c1)
  }

  predicate Simple2ShapeB(edeps: Edeps, es: seq<Edep>, x1: string, b2: string) {
    && WellFormedEdeps(edeps) && GetPackname(x1) == "x" && x1 in edeps && es == edeps[x1]
    && |es| == 2 && es[0].packname == "b" && es[1].packname == "c"
    && SortVersions(es[0].versions) != []
    && b2 == DistkeyFormat("b", SortVersions(es[0].versions)[0]) && b2 in edeps && edeps[b2] == []
  }

  predicate Simple2ShapeC(edeps: Edeps, es: seq<Edep>, c1: string)
    requires |es| == 2 && SortVersions(es[0].versions) != []
  {
    && |SortVersions(es[1].versions)| == 1
    && c1 == DistkeyFormat("c", SortVersions(es[1].versions)[0]) && c1 in edeps && |edeps[c1]| == 1
    && edeps[c1][0].packname == "b" && edeps[c1][0].versions != []
    && SortVersions(es[0].versions)[0] !in edeps[c1][0].versions
  }

  /** X's two edeps: B is met by its newest version, then C cannot be met. */
  lemma Simple2Deps(edeps: Edeps, es: seq<Edep>, x1: string, b2: string, c1: string)
    requires Simple2Shape(edeps, es, x1, b2, c1)
    ensures SatisfyDeps(es, edeps, [x1]) == Err(UnresolvableConflict)
  {
    Simple2AfterB(edeps, es, x1, b2, c1);
    KeyParts(b2, "b", SortVersions(es[0].versions)[0]);
    Simple2AfterC(edeps, es[1..], x1, b2, c1);
  }

  lemma Simple2AfterB(edeps: Edeps, es: seq<Edep>, x1: string, b2: string, c1: string)
    requires Simple2Shape(edeps, es, x1, b2, c1)
    ensures SatisfyDeps(es, edeps, [x1]) == SatisfyDeps(es[1..], edeps, [x1, b2])
  {
    Simple2StepB(edeps, [x1], es[0], x1, b2);
    assert [x1] + [b2] == [x1, b2];
    DepsCons(es, edeps, [x1], [x1, b2]);
  }

  lemma Simple2AfterC(edeps: Edeps, es: seq<Edep>, x1: string, b2: string, c1: string)
    requires WellFormedEdeps(edeps)
    requires c1 in edeps && |edeps[c1]| == 1
    requires edeps[c1][0].packname == "b" && edeps[c1][0].versions != []
    requires |es| == 1 && es[0].packname == "c"
    requires |SortVersions(es[0].versions)| == 1 && c1 == DistkeyFormat("c", SortVersions(es[0].versions)[0])
    requires GetPackname(x1) == "x" && GetPackname(b2) == "b" && GetVersion(b2) !in edeps[c1][0].versions
    ensures SatisfyDeps(es, edeps, [x1, b2]) == Err(UnresolvableConflict)
  {
    Simple2StepC(edeps, [x1, b2], es[0], x1, b2, c1);
    DepsErr(es, edeps, [x1, b2], UnresolvableConflict);
  }

  /** The entries of DEPS_SIMPLE2 the walk reads. */
  lemma Simple2Entries(edeps: Edeps)
    requires edeps == Simple2Edeps()
    ensures WellFormedEdeps(edeps)
    ensures "x(1)" in edeps && |edeps["x(1)"]| == 2
    ensures edeps["x(1)"][0] == Edep("b", ["2", "1"], "") && edeps["x(1)"][1] == Edep("c", ["1"], "")
    ensures "b(2)" in edeps && edeps["b(2)"] == [] && "b(1)" in edeps && edeps["b(1)"] == []
    ensures "c(1)" in edeps && |edeps["c(1)"]| == 1 && edeps["c(1)"][0] == Edep("b", ["1"], "<=1")
  {
  }

  lemma PicksB2(e: Edep, b2: string)
    requires e == Edep("b", ["2", "1"], "") && b2 == "b(2)"
    ensures SortVersions(e.versions) != [] && b2 == DistkeyFormat("b", SortVersions(e.versions)[0])
    ensures SortVersions(e.versions)[0] == "2"
  {
    SortTwoOne(e.versions);
  }

  /** DEPS_SIMPLE2 has that shape. */
  lemma Simple2Facts(edeps: Edeps, x1: string, b2: string, c1: string)
    requires WellFormedEdeps(edeps) && x1 == "x(1)" && b2 == "b(2)" && c1 == "c(1)"
    requires x1 in edeps && |edeps[x1]| == 2
    requires edeps[x1][0] == Edep("b", ["2", "1"], "") && edeps[x1][1] == Edep("c", ["1"], "")
    requires b2 in edeps && edeps[b2] == []
    requires c1 in edeps && |edeps[c1]| == 1 && edeps[c1][0] == Edep("b", ["1"], "<=1")
    ensures Simple2Shape(edeps, edeps[x1], x1, b2, c1)
  {
    Simple2FactsB(edeps, x1, b2);
    Simple2FactsC(edeps, x1, c1);
  }

  lemma Simple2FactsB(edeps: Edeps, x1: string, b2: string)
    requires WellFormedEdeps(edeps) && x1 == "x(1)" && b2 == "b(2)"
    requires x1 in edeps && |edeps[x1]| == 2
    requires edeps[x1][0] == Edep("b", ["2", "1"], "") && edeps[x1][1].packname == "c"
    requires b2 in edeps && edeps[b2] == []
    ensures Simple2ShapeB(edeps, edeps[x1], x1, b2)
    ensures SortVersions(edeps[x1][0].versions)[0] == "2"
  {
    KeyParts(x1, "x", "1");
    PicksB2(edeps[x1][0], b2);
  }

  lemma Simple2FactsC(edeps: Edeps, x1: string, c1: string)
    requires x1 in edeps && |edeps[x1]| == 2 && c1 == "c(1)"
    requires SortVersions(edeps[x1][0].versions) != [] && SortVersions(edeps[x1][0].versions)[0] == "2"
    requires edeps[x1][1] == Edep("c", ["1"], "")
    requires c1 in edeps && |edeps[c1]| == 1 && edeps[c1][0] == Edep("b", ["1"], "<=1")
    ensures Simple2ShapeC(edeps, edeps[x1], c1)
  {
    PicksSingle(edeps[x1][1], c1);
  }

  /**
   * backtracking_satisfy('x(1)', DEPS_SIMPLE2) raises UnresolvableConflictError:
   * B(2) is taken for X's first edep and never revisited when C(1) turns out
   * to need B(1).
   */
  lemma Simple2Unresolvable(edeps: Edeps, x1: string)
    requires edeps == Simple2Edeps() && x1 == "x(1)"
    ensures BacktrackingSatisfy(x1, edeps) == Err(UnresolvableConflict)
  {
    Simple2Entries(edeps);
    Simple2Facts(edeps, x1, "b(2)", "c(1)");
    assert Packages([]) == {};
    SatisfyUnfold(x1, edeps, []);
    assert [] + [x1] == [x1];
    Simple2Deps(edeps, edeps[x1], x1, "b(2)", "c(1)");
  }

  /** Every key of DEPS_SIMPLE2 is lower-case, as the validator expects. */
  lemma Simple2KeysLower(edeps: Edeps)
    requires edeps == Simple2Edeps()
    ensures forall k :: k in edeps ==> IsLower(k)
  {
  }

  /** Every edep of every dist in [X(1), B(1), C(1)] is met in that list. */
  lemma Simple2SolutionClosed(edeps: Edeps, sol: seq<string>)
    requires edeps == Simple2Edeps() && sol == ["x(1)", "b(1)", "c(1)"]
    ensures forall d :: d in sol ==> Closed(d, edeps, sol)
  {
    Simple2Entries(edeps);
    NamesOf(sol[0], sol[1], "b(2)", sol[2]);
    Simple2ClosedX(edeps, sol);
    Simple2ClosedC(edeps, sol);
    assert Closed(sol[1], edeps, sol);
  }

  lemma Simple2ClosedX(edeps: Edeps, sol: seq<string>)
    requires |sol| == 3 && sol[0] in edeps && |edeps[sol[0]]| == 2
    requires edeps[sol[0]][0] == Edep("b", ["2", "1"], "") && edeps[sol[0]][1] == Edep("c", ["1"], "")
    requires GetPackname(sol[1]) == "b" && GetVersion(sol[1]) == "1"
    requires GetPackname(sol[2]) == "c" && GetVersion(sol[2]) == "1"
    ensures Closed(sol[0], edeps, sol)
  {
    assert EdepMet(edeps[sol[0]][0], sol) by { assert sol[1] in sol; }
    assert EdepMet(edeps[sol[0]][1], sol) by { assert sol[2] in sol; }
  }

  lemma Simple2ClosedC(edeps: Edeps, sol: seq<string>)
    requires |sol| == 3 && sol[2] in edeps && |edeps[sol[2]]| == 1
    requires edeps[sol[2]][0] == Edep("b", ["1"], "<=1")
    requires GetPackname(sol[1]) == "b" && GetVersion(sol[1]) == "1"
    ensures Closed(sol[2], edeps, sol)
  {
    assert EdepMet(edeps[sol[2]][0], sol) by { assert sol[1] in sol; }
  }

  /**
   * DEPS_SIMPLE2 does have a solution, [X(1), B(1), C(1)]: it passes
   * `are_fully_satisfied`, though the resolver does not find it.
   */
  lemma Simple2HasSolution(edeps: Edeps, sol: seq<string>, disregardSetuptools: bool)
    requires edeps == Simple2Edeps() && sol == ["x(1)", "b(1)", "c(1)"]
    ensures AreFullySatisfied(sol, edeps, disregardSetuptools) == Ok(true)
  {
    Simple2KeysLower(edeps);
    assert OnePerPackage(sol) by {
      NamesOf(sol[0], sol[1], "b(2)", sol[2]);
      OnePerPackageOfThree(sol[0], sol[1], sol[2]);
    }
    Simple2SolutionClosed(edeps, sol);
    ClosedListIsFullySatisfied(sol, edeps, disregardSetuptools);
  }

  // ---------------------------------------------------------------------
  // DEPS_SIMPLE: X needs any B and any C; B(1) needs A >= 2, < 4; C(1) needs A == 3.

  function SimpleEdeps(): Edeps {
    map[
      "a(1)" := [], "a(2)" := [], "a(4)" := [], "a(3)" := [],
      "c(1)" := [Edep("a", ["3"], "==3")],
      "b(1)" := [Edep("a", ["2", "3"], ">=2,<4")],
      "x(1)" := [Edep("b", ["1"], ""), Edep("c", ["1"], "")]
    ]
  }

  /** The shape of DEPS_SIMPLE that the walk depends on, with the versions left abstract. */
  predicate SimpleShape(edeps: Edeps, es: seq<Edep>, x1: string, b1: string, a3: string, c1: string) {
    && WellFormedEdeps(edeps) && GetPackname(x1) == "x" && x1 in edeps && es == edeps[x1]
    && |es| == 2 && es[0].packname == "b" && es[1].packname == "c"
    && SortVersions(es[0].versions) != [] && b1 == DistkeyFormat("b", SortVersions(es[0].versions)[0])
    && b1 in edeps && |edeps[b1]| == 1 && edeps[b1][0].packname == "a"
    && SortVersions(edeps[b1][0].versions) != [] && a3 == DistkeyFormat("a", SortVersions(edeps[b1][0].versions)[0])
    && a3 in edeps && edeps[a3] == []
    && SortVersions(es[1].versions) != [] && c1 == DistkeyFormat("c", SortVersions(es[1].versions)[0])
    && c1 in edeps && |edeps[c1]| == 1 && edeps[c1][0].packname == "a"
    && SortVersions(edeps[b1][0].versions)[0] in edeps[c1][0].versions
  }

  /** The names of the four dists the walk takes. */
  lemma SimpleNames(edeps: Edeps, es: seq<Edep>, x1: string, b1: string, a3: string, c1: string)
    requires SimpleShape(edeps, es, x1, b1, a3, c1)
    ensures GetPackname(b1) == "b" && GetPackname(a3) == "a" && GetPackname(c1) == "c"
    ensures GetVersion(a3) in edeps[c1][0].versions
  {
    KeyParts(b1, "b", SortVersions(es[0].versions)[0]);
    KeyParts(a3, "a", SortVersions(edeps[b1][0].versions)[0]);
    KeyParts(c1, "c", SortVersions(es[1].versions)[0]);
  }

  /** The lists the walk builds hold one dist per package, and each next package is new. */
  lemma SimpleLists(edeps: Edeps, es: seq<Edep>, x1: string, b1: string, a3: string, c1: string)
    requires SimpleShape(edeps, es, x1, b1, a3, c1)
    ensures GetPackname(a3) == "a" && GetVersion(a3) in edeps[c1][0].versions
    ensures "b" !in Packages([x1]) && "a" !in Packages([x1, b1]) && "c" !in Packages([x1, b1, a3])
    ensures GetPackname(c1) !in Packages([x1, b1, a3])
    ensures OnePerPackage([x1]) && OnePerPackage([x1, b1]) && OnePerPackage([x1, b1, a3]) && OnePerPackage([x1, b1, a3, c1])
    ensures NoDuplicates([x1, b1, a3]) && NoDuplicates([x1, b1, a3, c1])
  {
    SimpleNames(edeps, es, x1, b1, a3, c1);
    SimplePackages(x1, b1, a3, c1);
    OnePerPackageOfTwo(x1, b1);
    OnePerPackageOfThree(x1, b1, a3);
    OnePerPackageOfFour(x1, b1, a3, c1);
  }

  lemma SimplePackages(x1: string, b1: string, a3: string, c1: string)
    requires GetPackname(x1) == "x" && GetPackname(b1) == "b" && GetPackname(a3) == "a" && GetPackname(c1) == "c"
    ensures "b" !in Packages([x1]) && "a" !in Packages([x1, b1]) && "c" !in Packages([x1, b1, a3])
  {
    PackagesOfOne(x1);
    PackagesOfTwo(x1, b1);
    PackagesOfThree(x1, b1, a3);
  }

  /** B(1)'s one edep, on A: A(3), the newest acceptable, has no edeps and is taken. */
  lemma SimpleStepA(edeps: Edeps, es: seq<Edep>, x1: string, b1: string, a3: string, c1: string)
    requires SimpleShape(edeps, es, x1, b1, a3, c1)
    ensures EdepStep(edeps[b1][0], edeps, [x1, b1]) == Ok([x1, b1, a3])
  {
    SimpleLists(edeps, es, x1, b1, a3, c1);
    assert [x1, b1] + [a3] == [x1, b1, a3];
    NewLeafStep(edeps[b1][0], edeps, [x1, b1], a3);
  }

  /** B(1) is satisfied by taking A(3) after it. */
  lemma SimpleSatisfyB1(edeps: Edeps, es: seq<Edep>, x1: string, b1: string, a3: string, c1: string)
    requires SimpleShape(edeps, es, x1, b1, a3, c1)
    ensures GetPackname(b1) !in Packages([x1])
    ensures Satisfy(b1, edeps, [x1]) == Ok([x1, b1, a3])
  {
    SimpleB1New(edeps, es, x1, b1, a3, c1);
    SimpleStepA(edeps, es, x1, b1, a3, c1);
    assert [x1] + [b1] == [x1, b1];
    OnlyEdepTaken(b1, edeps, [x1], [x1, b1, a3]);
  }

  lemma SimpleB1New(edeps: Edeps, es: seq<Edep>, x1: string, b1: string, a3: string, c1: string)
    requires SimpleShape(edeps, es, x1, b1, a3, c1)
    ensures GetPackname(b1) !in Packages([x1])
  {
    SimpleLists(edeps, es, x1, b1, a3, c1);
    KeyParts(b1, "b", SortVersions(es[0].versions)[0]);
  }

  /** X's edep on B: B(1) is taken, and A(3) with it. */
  lemma SimpleStepB(edeps: Edeps, e: Edep, x1: string, b1: string, a3: string)
    requires WellFormedEdeps(edeps) && e.packname == "b"
    requires "b" !in Packages([x1]) && OnePerPackage([x1]) && NoDuplicates([x1, b1, a3])
    requires SortVersions(e.versions) != [] && b1 == DistkeyFormat("b", SortVersions(e.versions)[0])
    requires GetPackname(b1) !in Packages([x1]) && Satisfy(b1, edeps, [x1]) == Ok([x1, b1, a3])
    ensures EdepStep(e, edeps, [x1]) == Ok([x1, b1, a3])
  {
    assert [x1] + [b1, a3] == [x1, b1, a3];
    NewPackageStep(e, edeps, [x1], [b1, a3]);
  }

  /** C(1) needs A == 3, which A(3) already in the list meets. */
  lemma SimpleSatisfyC1(edeps: Edeps, es: seq<Edep>, x1: string, b1: string, a3: string, c1: string)
    requires SimpleShape(edeps, es, x1, b1, a3, c1)
    ensures GetPackname(c1) !in Packages([x1, b1, a3])
    ensures Satisfy(c1, edeps, [x1, b1, a3]) == Ok([x1, b1, a3, c1])
  {
    var t1 := [x1, b1, a3];
    var u := [x1, b1, a3, c1];
    SimpleLists(edeps, es, x1, b1, a3, c1);
    assert t1 + [c1] == u;
    assert a3 in u;
    SatisfyUnfold(c1, edeps, t1);
    PresentStep(edeps[c1][0], edeps, u, a3);
    DepsCons(edeps[c1], edeps, u, u);
  }

  /** X's edep on C: C(1) is taken. */
  lemma SimpleStepC(edeps: Edeps, es: seq<Edep>, x1: string, b1: string, a3: string, c1: string)
    requires SimpleShape(edeps, es, x1, b1, a3, c1)
    ensures EdepStep(es[1], edeps, [x1, b1, a3]) == Ok([x1, b1, a3, c1])
  {
    var t1 := [x1, b1, a3];
    SimpleSatisfyC1(edeps, es, x1, b1, a3, c1);
    SimpleLists(edeps, es, x1, b1, a3, c1);
    assert t1 + [c1] == [x1, b1, a3, c1];
    NewPackageStep(es[1], edeps, t1, [c1]);
  }

  /** X's two edeps: B(1) with A(3), then C(1). */
  lemma SimpleDeps(edeps: Edeps, es: seq<Edep>, x1: string, b1: string, a3: string, c1: string)
    requires SimpleShape(edeps, es, x1, b1, a3, c1)
    ensures SatisfyDeps(es, edeps, [x1]) == Ok([x1, b1, a3, c1])
  {
    assert EdepStep(es[0], edeps, [x1]) == Ok([x1, b1, a3]) by {
      SimpleSatisfyB1(edeps, es, x1, b1, a3, c1);
      SimpleLists(edeps, es, x1, b1, a3, c1);
      SimpleStepB(edeps, es[0], x1, b1, a3);
    }
    DepsCons(es, edeps, [x1], [x1, b1, a3]);
    SimpleStepC(edeps, es, x1, b1, a3, c1);
    DepsCons(es[1..], edeps, [x1, b1, a3], [x1, b1, a3, c1]);
    assert es[1..][1..] == [];
  }

  /** The entries of DEPS_SIMPLE the walk reads. */
  lemma SimpleEntries(edeps: Edeps)
    requires edeps == SimpleEdeps()
    ensures WellFormedEdeps(edeps)
    ensures "x(1)" in edeps && edeps["x(1)"] == [Edep("b", ["1"], ""), Edep("c", ["1"], "")]
    ensures "b(1)" in edeps && edeps["b(1)"] == [Edep("a", ["2", "3"], ">=2,<4")]
    ensures "c(1)" in edeps && edeps["c(1)"] == [Edep("a", ["3"], "==3")]
    ensures "a(3)" in edeps && edeps["a(3)"] == []
  {
  }

  /** The dist an edep with the given versions picks first. */
  lemma PicksSingle(e: Edep, d: string)
    requires |e.versions| == 1 && d == DistkeyFormat(e.packname, e.versions[0])
    ensures SortVersions(e.versions) != [] && d == DistkeyFormat(e.packname, SortVersions(e.versions)[0])
    ensures |SortVersions(e.versions)| == 1
  {
    SortSingle(e.versions);
  }

  lemma PicksA3(e: Edep, a3: string)
    requires e == Edep("a", ["2", "3"], ">=2,<4") && a3 == "a(3)"
    ensures SortVersions(e.versions) != [] && a3 == DistkeyFormat("a", SortVersions(e.versions)[0])
    ensures SortVersions(e.versions)[0] == "3"
  {
    SortTwoThree(e.versions);
  }

  /** DEPS_SIMPLE has that shape. */
  lemma SimpleFacts(edeps: Edeps, x1: string, b1: string, a3: string, c1: string)
    requires WellFormedEdeps(edeps) && x1 == "x(1)" && b1 == "b(1)" && a3 == "a(3)" && c1 == "c(1)"
    requires x1 in edeps && edeps[x1] == [Edep("b", ["1"], ""), Edep("c", ["1"], "")]
    requires b1 in edeps && edeps[b1] == [Edep("a", ["2", "3"], ">=2,<4")]
    requires c1 in edeps && edeps[c1] == [Edep("a", ["3"], "==3")]
    requires a3 in edeps && edeps[a3] == []
    ensures SimpleShape(edeps, edeps[x1], x1, b1, a3, c1)
  {
    KeyParts(x1, "x", "1");
    PicksSingle(edeps[x1][0], b1);
    PicksSingle(edeps[x1][1], c1);
    PicksA3(edeps[b1][0], a3);
  }

  /**
   * backtracking_satisfy('x(1)', DEPS_SIMPLE) finds the solution
   * X(1), B(1), A(3), C(1): A(3) is the newest version B(1) accepts, and it
   * also meets C(1)'s A == 3.
   */
  lemma SimpleSolved(edeps: Edeps, x1: string)
    requires edeps == SimpleEdeps() && x1 == "x(1)"
    ensures BacktrackingSatisfy(x1, edeps) == Ok([x1, "b(1)", "a(3)", "c(1)"])
  {
    SimpleEntries(edeps);
    SimpleFacts(edeps, x1, "b(1)", "a(3)", "c(1)");
    assert Packages([]) == {};
    SatisfyUnfold(x1, edeps, []);
    assert [] + [x1] == [x1];
    SimpleDeps(edeps, edeps[x1], x1, "b(1)", "a(3)", "c(1)");
  }
}
