/**
 * The backtracking resolver `backtracking_satisfy` / `_backtracking_satisfy`
 * (depresolve/resolver/resolvability.py).
 *
 * The search commits the dist being satisfied to the candidate list, then
 * takes its edeps in order. A dependency on a package already in the list is
 * accepted when the present version string is acceptable and is otherwise a
 * ConflictingVersion error; a dependency on a new package tries the
 * acceptable versions newest first, recursing into each, and moves on to the
 * next version when the recursion ends in ConflictingVersion or
 * UnresolvableConflict. Backtracking is local to one dependency: a dependency
 * already satisfied is never revisited.
 *
 * Satisfy / SatisfyDeps / TryCandidates state the search as functions; the
 * method BacktrackingSatisfyRec runs it with the source's loops and is proved
 * to compute the same outcome.
 */
module Backtracking {
  import opened PyStr
  import opened DistKeys
  import opened Errors
  import opened Resolvability
  import opened Versions

  /** Every member of a is in b. */
  predicate Grows(a: seq<string>, b: seq<string>) {
    forall d :: d in a ==> d in b
  }

  /** Dependency data whose edeps name packages without '(' (the form `distkey_format` can split back). */
  predicate WellFormedEdeps(edeps: Edeps) {
    forall k, m :: k in edeps && 0 <= m < |edeps[k]| ==> '(' !in edeps[k][m].packname
  }

  /** The packages that have dependency data. */
  function KeyPackages(edeps: Edeps): set<string> {
    set k | k in edeps :: GetPackname(k)
  }

  /** How many packages with dependency data are not yet in the candidate list: the termination measure. */
  function Remaining(edeps: Edeps, s: seq<string>): nat {
    |KeyPackages(edeps) - Packages(s)|
  }

  lemma SubsetCardinality(a: set<string>, b: set<string>)
    requires a <= b
    ensures |a| <= |b|
    ensures a < b ==> |a| < |b|
  {
    assert b == a + (b - a);
    assert a * (b - a) == {};
    if a < b {
      var x :| x in b && x !in a;
      assert x in b - a;
    }
  }

  /** Growing the candidate list never increases the measure. */
  lemma RemainingMonotone(edeps: Edeps, s: seq<string>, t: seq<string>)
    requires Grows(s, t)
    ensures Remaining(edeps, t) <= Remaining(edeps, s)
  {
    assert Packages(s) <= Packages(t);
    SubsetCardinality(KeyPackages(edeps) - Packages(t), KeyPackages(edeps) - Packages(s));
  }

  /** Committing a dist with dependency data whose package is new decreases the measure. */
  lemma RemainingShrinks(edeps: Edeps, c: seq<string>, d: string)
    requires d in edeps && GetPackname(d) !in Packages(c)
    ensures Remaining(edeps, c + [d]) < Remaining(edeps, c)
  {
    var p := GetPackname(d);
    assert p in KeyPackages(edeps);
    assert d in c + [d];
    assert Packages(c + [d]) == Packages(c) + {p};
    SubsetCardinality(KeyPackages(edeps) - Packages(c + [d]), KeyPackages(edeps) - Packages(c));
  }

  /** No match in the list exactly when the package is not in it. */
  lemma MatchingEmptyIff(p: string, s: seq<string>)
    ensures Matching(p, s) == [] <==> p !in Packages(s)
  {
    MatchingMembers(p, s);
    if p in Packages(s) {
      var d :| d in s && GetPackname(d) == p;
      assert d in Matching(p, s);
    }
    if Matching(p, s) != [] {
      assert Matching(p, s)[0] in Matching(p, s);
    }
  }

  // ---------------------------------------------------------------------
  // The search, as functions

  /**
   * `_backtracking_satisfy(distkey, edeps, versions_by_package, _candidates=c)`:
   * the candidate list that satisfies distkey, or the error the search ends in.
   */
  function Satisfy(distkey: string, edeps: Edeps, c: seq<string>): Result<seq<string>>
    requires WellFormedEdeps(edeps)
    requires GetPackname(distkey) !in Packages(c)
    decreases Remaining(edeps, c), 3, 0
  {
    var s := c + [distkey];
    if distkey !in edeps then Err(MissingDependencyInfo)
    else if edeps[distkey] == [] then Ok(s)
    else
      RemainingShrinks(edeps, c, distkey);
      SatisfyDeps(edeps[distkey], edeps, s)
  }

  /** The loop over edeps, from candidate list s on. */
  function SatisfyDeps(es: seq<Edep>, edeps: Edeps, s: seq<string>): Result<seq<string>>
    requires WellFormedEdeps(edeps)
    requires forall m :: 0 <= m < |es| ==> '(' !in es[m].packname
    decreases Remaining(edeps, s) + 1, 2, |es|
  {
    if es == [] then Ok(s)
    else
      match EdepStep(es[0], edeps, s)
      case Err(e) => Err(e)
      case Ok(t) =>
        RemainingMonotone(edeps, s, t);
        SatisfyDeps(es[1..], edeps, t)
  }

  /**
   * One pass of the loop over edeps: a dependency on a package already in s
   * is accepted when the present version string is among the acceptable ones;
   * a dependency on a new package goes to the loop over its versions.
   */
  function EdepStep(e: Edep, edeps: Edeps, s: seq<string>): (r: Result<seq<string>>)
    requires WellFormedEdeps(edeps)
    requires '(' !in e.packname
    ensures r.Ok? ==> Grows(s, r.value)
    decreases Remaining(edeps, s) + 1, 1, 0
  {
    var vs := SortVersions(e.versions);
    if vs == [] then Err(NoSatisfyingVersion)
    else
      var pre := Matching(e.packname, s);
      if pre != [] then
        if |pre| != 1 then Err(AssertionFailed)
        else if GetVersion(pre[0]) in vs then Ok(s)
        else Err(ConflictingVersion)
      else
        MatchingEmptyIff(e.packname, s);
        TryCandidates(e.packname, vs, edeps, s)
  }

  /** The loop over the candidate versions of a package not yet in s, newest first. */
  function TryCandidates(p: string, vs: seq<string>, edeps: Edeps, s: seq<string>): (r: Result<seq<string>>)
    requires WellFormedEdeps(edeps)
    requires '(' !in p && p !in Packages(s)
    ensures r.Ok? ==> Grows(s, r.value)
    decreases Remaining(edeps, s) + 1, 0, |vs|
  {
    if vs == [] then Err(UnresolvableConflict)
    else
      var candidate := DistkeyFormat(p, vs[0]);
      SplitFormat(p, vs[0]);
      match Satisfy(candidate, edeps, s)
      case Err(ConflictingVersion) => TryCandidates(p, vs[1..], edeps, s)
      case Err(UnresolvableConflict) => TryCandidates(p, vs[1..], edeps, s)
      case Err(e) => Err(e)
      case Ok(child) =>
        var combined := Combine(s, child);
        if HasDirectConflict(combined) then Err(AssertionFailed) else Ok(combined)
  }

  /**
   * `backtracking_satisfy(distkey, edeps)`: the search from an empty
   * candidate list; an escaping ConflictingVersion becomes UnresolvableConflict.
   */
  function BacktrackingSatisfy(distkey: string, edeps: Edeps): (r: Result<seq<string>>)
    requires WellFormedEdeps(edeps)
    ensures r != Err(ConflictingVersion)
  {
    match Satisfy(distkey, edeps, [])
    case Err(ConflictingVersion) => Err(UnresolvableConflict)
    case other => other
  }

  /**
   * The outcomes of one pass over an edep: no versions is NoSatisfyingVersion;
   * a package already in the list is accepted, without recursion, exactly when
   * the present version string is among the acceptable ones, and is otherwise
   * a ConflictingVersion.
   */
  lemma EdepStepOutcomes(e: Edep, edeps: Edeps, s: seq<string>)
    requires WellFormedEdeps(edeps) && '(' !in e.packname && OnePerPackage(s)
    ensures e.versions == [] ==> EdepStep(e, edeps, s) == Err(NoSatisfyingVersion)
    ensures e.versions != [] && e.packname in Packages(s) ==>
      (EdepStep(e, edeps, s) == Ok(s) <==> exists x :: x in s && GetPackname(x) == e.packname && GetVersion(x) in e.versions)
    ensures e.versions != [] && e.packname in Packages(s) && EdepStep(e, edeps, s) != Ok(s) ==>
      EdepStep(e, edeps, s) == Err(ConflictingVersion)
  {
    var vs := SortVersions(e.versions);
    assert multiset(vs) == multiset(e.versions);
    if e.versions != [] {
      assert e.versions[0] in multiset(vs);
    }
    if e.versions != [] && e.packname in Packages(s) {
      var x :| x in s && GetPackname(x) == e.packname;
      OnlyMatch(e.packname, s, x);
      assert GetVersion(x) in vs <==> GetVersion(x) in multiset(e.versions);
      forall y | y in s && GetPackname(y) == e.packname ensures y == x {
        OnePerPackageSame(s, x, y);
      }
    }
  }

  // ---------------------------------------------------------------------
  // What a solution guarantees

  /** Some dist in r is of the edep's package at one of its acceptable version strings. */
  predicate EdepMet(e: Edep, r: seq<string>) {
    exists x :: x in r && GetPackname(x) == e.packname && GetVersion(x) in e.versions
  }

  /** d has dependency data and every one of its edeps is met in r. */
  predicate Closed(d: string, edeps: Edeps, r: seq<string>) {
    d in edeps && forall m :: 0 <= m < |edeps[d]| ==> EdepMet(edeps[d][m], r)
  }

  lemma ClosedGrows(d: string, edeps: Edeps, r: seq<string>, t: seq<string>)
    requires Closed(d, edeps, r) && Grows(r, t)
    ensures Closed(d, edeps, t)
  {
    forall m | 0 <= m < |edeps[d]| ensures EdepMet(edeps[d][m], t) {
      var x :| x in r && GetPackname(x) == edeps[d][m].packname && GetVersion(x) in edeps[d][m].versions;
      assert x in t;
    }
  }

  /** A duplicate-free list drawn from a list with one dist per package has one dist per package. */
  lemma OnePerPackageOfSubset(r: seq<string>, t: seq<string>)
    requires NoDuplicates(r) && Grows(r, t) && OnePerPackage(t)
    ensures OnePerPackage(r)
  {
    forall i, j | 0 <= i < |r| && 0 <= j < |r| && i != j
      ensures GetPackname(r[i]) != GetPackname(r[j])
    {
      assert r[i] != r[j] by {
        if i < j { } else { }
      }
      assert r[i] in t && r[j] in t;
      var a :| 0 <= a < |t| && t[a] == r[i];
      var b :| 0 <= b < |t| && t[b] == r[j];
    }
  }

  /** The package of a new dist is not yet in the list, so committing it keeps one dist per package. */
  lemma CommitKeepsOnePerPackage(c: seq<string>, d: string)
    requires OnePerPackage(c) && GetPackname(d) !in Packages(c)
    ensures OnePerPackage(c + [d])
  {
    var s := c + [d];
    forall i, j | 0 <= i < |s| && 0 <= j < |s| && i != j
      ensures GetPackname(s[i]) != GetPackname(s[j])
    {
      if i < |c| { assert s[i] in c; }
      if j < |c| { assert s[j] in c; }
    }
  }

  /**
   * On success the search keeps every dist it started with and the dist it
   * satisfies, holds one dist per package, and every dist it added has all its
   * edeps met by the result. The assertions in the source never fail.
   */
  lemma {:induction false} SatisfySound(distkey: string, edeps: Edeps, c: seq<string>)
    requires WellFormedEdeps(edeps)
    requires GetPackname(distkey) !in Packages(c) && OnePerPackage(c)
    ensures var r := Satisfy(distkey, edeps, c);
      && r != Err(AssertionFailed)
      && (r.Ok? ==>
        && Grows(c + [distkey], r.value)
        && OnePerPackage(r.value)
        && forall d :: d in r.value && d !in c ==> Closed(d, edeps, r.value))
    decreases Remaining(edeps, c), 3, 0
  {
    var s := c + [distkey];
    CommitKeepsOnePerPackage(c, distkey);
    if distkey in edeps && edeps[distkey] != [] {
      RemainingShrinks(edeps, c, distkey);
      DepsSound(edeps[distkey], edeps, s);
      SatisfyUnfold(distkey, edeps, c);
      var r := SatisfyDeps(edeps[distkey], edeps, s);
      if r.Ok? {
        NewDistsClosed(distkey, edeps, c, r.value);
      }
    }
  }

  /** A dist with edeps is satisfied by satisfying its edeps after committing to it. */
  lemma SatisfyUnfold(distkey: string, edeps: Edeps, c: seq<string>)
    requires WellFormedEdeps(edeps)
    requires GetPackname(distkey) !in Packages(c)
    requires distkey in edeps && edeps[distkey] != []
    ensures Satisfy(distkey, edeps, c) == SatisfyDeps(edeps[distkey], edeps, c + [distkey])
  {
  }

  /** With the committed dist's edeps met, every dist new since c is closed. */
  lemma NewDistsClosed(distkey: string, edeps: Edeps, c: seq<string>, r: seq<string>)
    requires distkey in edeps
    requires forall m :: 0 <= m < |edeps[distkey]| ==> EdepMet(edeps[distkey][m], r)
    requires forall d :: d in r && d !in c + [distkey] ==> Closed(d, edeps, r)
    ensures forall d :: d in r && d !in c ==> Closed(d, edeps, r)
  {
    forall d | d in r && d !in c ensures Closed(d, edeps, r) {
      if d != distkey {
        assert d !in c + [distkey];
      }
    }
  }

  /** What a search from candidate list s promises: no failed assertion and, on success, a grown list with one dist per package whose new dists are closed. */
  predicate SoundOutcome(edeps: Edeps, s: seq<string>, r: Result<seq<string>>) {
    && r != Err(AssertionFailed)
    && (r.Ok? ==>
      && Grows(s, r.value)
      && OnePerPackage(r.value)
      && forall d :: d in r.value && d !in s ==> Closed(d, edeps, r.value))
  }

  lemma {:induction false} DepsSound(es: seq<Edep>, edeps: Edeps, s: seq<string>)
    requires WellFormedEdeps(edeps)
    requires forall m :: 0 <= m < |es| ==> '(' !in es[m].packname
    requires OnePerPackage(s)
    ensures SoundOutcome(edeps, s, SatisfyDeps(es, edeps, s))
    ensures var r := SatisfyDeps(es, edeps, s);
      r.Ok? ==> forall m :: 0 <= m < |es| ==> EdepMet(es[m], r.value)
    decreases Remaining(edeps, s) + 1, 2, |es|
  {
    if es != [] {
      StepSound(es[0], edeps, s);
      var t := EdepStep(es[0], edeps, s);
      if t.Ok? {
        RemainingMonotone(edeps, s, t.value);
        DepsSound(es[1..], edeps, t.value);
        var r := SatisfyDeps(es, edeps, s);
        if r.Ok? {
          assert r == SatisfyDeps(es[1..], edeps, t.value);
          var x :| x in t.value && GetPackname(x) == es[0].packname && GetVersion(x) in es[0].versions;
          assert x in r.value;
          forall m | 0 <= m < |es| ensures EdepMet(es[m], r.value) {
            if m > 0 { assert es[m] == es[1..][m - 1]; }
          }
          forall d | d in r.value && d !in s ensures Closed(d, edeps, r.value) {
            if d in t.value {
              ClosedGrows(d, edeps, t.value, r.value);
            }
          }
        }
      }
    }
  }

  /** One pass of the loop over edeps meets the edep it handles. */
  lemma {:induction false} StepSound(e: Edep, edeps: Edeps, s: seq<string>)
    requires WellFormedEdeps(edeps)
    requires '(' !in e.packname
    requires OnePerPackage(s)
    ensures SoundOutcome(edeps, s, EdepStep(e, edeps, s))
    ensures var r := EdepStep(e, edeps, s);
      r.Ok? ==> EdepMet(e, r.value)
    decreases Remaining(edeps, s) + 1, 1, 0
  {
    var p := e.packname;
    var vs := SortVersions(e.versions);
    var r := EdepStep(e, edeps, s);
    if vs != [] {
      var pre := Matching(p, s);
      OnePerPackageMatching(p, s);
      MatchingEmptyIff(p, s);
      if pre != [] {
        if r.Ok? {
          MatchingMembers(p, s);
          assert pre[0] in pre;
          assert GetVersion(pre[0]) in multiset(vs);
        }
      } else {
        TrySound(p, vs, edeps, s);
        assert TryOutcome(p, vs, edeps, s, r);
        if r.Ok? {
          var v :| v in vs && DistkeyFormat(p, v) in r.value;
          SplitFormat(p, v);
          assert v in multiset(vs);
        }
      }
    }
  }

  /** What the loop over p's versions promises: a sound outcome that, on success, holds a dist of p at one of vs. */
  predicate TryOutcome(p: string, vs: seq<string>, edeps: Edeps, s: seq<string>, r: Result<seq<string>>) {
    SoundOutcome(edeps, s, r) && (r.Ok? ==> exists v :: v in vs && DistkeyFormat(p, v) in r.value)
  }

  lemma {:induction false} TrySound(p: string, vs: seq<string>, edeps: Edeps, s: seq<string>)
    requires WellFormedEdeps(edeps)
    requires '(' !in p && p !in Packages(s) && OnePerPackage(s)
    ensures TryOutcome(p, vs, edeps, s, TryCandidates(p, vs, edeps, s))
    decreases Remaining(edeps, s) + 1, 0, |vs|
  {
    if vs != [] {
      var candidate := DistkeyFormat(p, vs[0]);
      SplitFormat(p, vs[0]);
      SatisfySound(candidate, edeps, s);
      var sat := Satisfy(candidate, edeps, s);
      if sat.Err? && (sat.error == ConflictingVersion || sat.error == UnresolvableConflict) {
        TrySound(p, vs[1..], edeps, s);
        TryRetrySound(p, vs, edeps, s);
      } else if sat.Ok? {
        CommitSound(candidate, edeps, s, sat.value);
        assert vs[0] in vs;
      }
    }
  }

  /** A rejected version hands over to the later ones, so their outcome is the loop's. */
  lemma TryRetrySound(p: string, vs: seq<string>, edeps: Edeps, s: seq<string>)
    requires WellFormedEdeps(edeps)
    requires '(' !in p && p !in Packages(s) && vs != []
    requires GetPackname(DistkeyFormat(p, vs[0])) == p
    requires var sat := Satisfy(DistkeyFormat(p, vs[0]), edeps, s);
      sat.Err? && (sat.error == ConflictingVersion || sat.error == UnresolvableConflict)
    requires TryOutcome(p, vs[1..], edeps, s, TryCandidates(p, vs[1..], edeps, s))
    ensures TryOutcome(p, vs, edeps, s, TryCandidates(p, vs, edeps, s))
  {
    var r := TryCandidates(p, vs, edeps, s);
    assert r == TryCandidates(p, vs[1..], edeps, s);
    if r.Ok? {
      var v :| v in vs[1..] && DistkeyFormat(p, v) in r.value;
      assert v in vs;
    }
  }

  /** Merging a sound child solution into the candidate list keeps one dist per package and closes every new dist. */
  lemma CommitSound(candidate: string, edeps: Edeps, s: seq<string>, child: seq<string>)
    requires Grows(s + [candidate], child) && OnePerPackage(child)
    requires forall d :: d in child && d !in s ==> Closed(d, edeps, child)
    ensures var combined := Combine(s, child);
      && !HasDirectConflict(combined)
      && Grows(s, combined)
      && OnePerPackage(combined)
      && candidate in combined
      && forall d :: d in combined && d !in s ==> Closed(d, edeps, combined)
  {
    var combined := Combine(s, child);
    assert candidate in s + [candidate];
    assert forall d :: d in combined <==> d in child by {
      forall d | d in s ensures d in child {
        assert d in s + [candidate];
      }
    }
    OnePerPackageOfSubset(combined, child);
    OnePerPackageNoConflict(combined);
    forall d | d in combined && d !in s ensures Closed(d, edeps, combined) {
      ClosedGrows(d, edeps, child, combined);
    }
  }

  /**
   * A solution of `backtracking_satisfy` contains the dist asked for, holds
   * one dist per package (so it has no direct conflict), and every dist in it
   * has dependency data whose edeps are all met by the solution.
   */
  lemma BacktrackingSound(distkey: string, edeps: Edeps)
    requires WellFormedEdeps(edeps)
    ensures var r := BacktrackingSatisfy(distkey, edeps);
      && r != Err(AssertionFailed)
      && (r.Ok? ==>
        && distkey in r.value
        && OnePerPackage(r.value)
        && !HasDirectConflict(r.value)
        && forall d :: d in r.value ==> Closed(d, edeps, r.value))
  {
    SatisfySound(distkey, edeps, []);
    var r := BacktrackingSatisfy(distkey, edeps);
    if r.Ok? {
      assert distkey in [] + [distkey];
      OnePerPackageNoConflict(r.value);
    }
  }

  /** In a list with one dist per package, two members of the same package are the same dist. */
  lemma OnePerPackageSame(s: seq<string>, a: string, b: string)
    requires OnePerPackage(s) && a in s && b in s && GetPackname(a) == GetPackname(b)
    ensures a == b
  {
    var i :| 0 <= i < |s| && s[i] == a;
    var j :| 0 <= j < |s| && s[j] == b;
  }

  /** In a list with one dist per package, an edep met in the list is satisfied in the sense of `is_dep_satisfied`. */
  lemma MetIsSatisfied(e: Edep, r: seq<string>, disregardSetuptools: bool)
    requires OnePerPackage(r) && EdepMet(e, r)
    ensures DepSatisfied(e, r, disregardSetuptools) == Ok(true)
  {
    if !(disregardSetuptools && e.packname in Disregarded) {
      var x :| x in r && GetPackname(x) == e.packname && GetVersion(x) in e.versions;
      OnlyMatch(e.packname, r, x);
      var k :| 0 <= k < |e.versions| && e.versions[k] == GetVersion(x);
      EquivalentIsEquivalence(GetVersion(x), GetVersion(x), GetVersion(x));
      SatisfiedByOnlyMatch(e, r, x, k, disregardSetuptools);
    }
  }

  /** With x the only match of the edep's package and x's version equivalent to an acceptable one, the edep is satisfied. */
  lemma SatisfiedByOnlyMatch(e: Edep, r: seq<string>, x: string, k: nat, disregardSetuptools: bool)
    requires Matching(e.packname, r) == [x]
    requires k < |e.versions| && Equivalent(GetVersion(x), e.versions[k])
    ensures DepSatisfied(e, r, disregardSetuptools) == Ok(true)
  {
  }

  /** In a list with one dist per package, a member is the only match of its package. */
  lemma OnlyMatch(p: string, r: seq<string>, x: string)
    requires OnePerPackage(r) && x in r && GetPackname(x) == p
    ensures Matching(p, r) == [x]
  {
    MatchingMembers(p, r);
    OnePerPackageMatching(p, r);
    assert x in Matching(p, r);
  }

  /** A list with one dist per package whose members are all closed passes `are_fully_satisfied`, given lower-case keys. */
  lemma ClosedListIsFullySatisfied(sol: seq<string>, edeps: Edeps, disregardSetuptools: bool)
    requires forall k :: k in edeps ==> IsLower(k)
    requires OnePerPackage(sol)
    requires forall d :: d in sol ==> Closed(d, edeps, sol)
    ensures AreFullySatisfied(sol, edeps, disregardSetuptools) == Ok(true)
  {
    forall k | 0 <= k < |sol| ensures Lower(sol[k]) == sol[k] && sol[k] in edeps {
      assert sol[k] in sol;
      LowerIsLower(sol[k]);
    }
    assert LowerAll(sol) == sol;
    forall k, m | 0 <= k < |sol| && 0 <= m < |edeps[Lower(sol[k])]|
      ensures DepSatisfied(edeps[Lower(sol[k])][m], LowerAll(sol), disregardSetuptools) == Ok(true)
    {
      assert sol[k] in sol;
      MetIsSatisfied(edeps[sol[k]][m], sol, disregardSetuptools);
    }
  }

  /**
   * Every solution of the backtracker passes the validator
   * `are_fully_satisfied`, when the dependency data is keyed by lower-case
   * distkeys as the validator expects.
   */
  lemma AgreesWithValidator(distkey: string, edeps: Edeps, disregardSetuptools: bool)
    requires WellFormedEdeps(edeps)
    requires forall k :: k in edeps ==> IsLower(k)
    ensures var r := BacktrackingSatisfy(distkey, edeps);
      r.Ok? ==> AreFullySatisfied(r.value, edeps, disregardSetuptools) == Ok(true)
  {
    BacktrackingSound(distkey, edeps);
    var r := BacktrackingSatisfy(distkey, edeps);
    if r.Ok? {
      ClosedListIsFullySatisfied(r.value, edeps, disregardSetuptools);
    }
  }

  // ---------------------------------------------------------------------
  // The search, as the source runs it

  /** A dist of a package not yet in the list conflicts with nothing in it. */
  lemma NewPackageConflictsWithNothing(distkey: string, s: seq<string>)
    requires GetPackname(distkey) !in Packages(s)
    ensures ConflictsWith(distkey, s) == []
    ensures distkey !in s
  {
    MatchingEmptyIff(GetPackname(distkey), s);
  }

  /** One step of the loop over candidate versions: what TryCandidates does with its first version. */
  lemma TryCandidatesStep(p: string, vs: seq<string>, edeps: Edeps, s: seq<string>)
    requires WellFormedEdeps(edeps)
    requires '(' !in p && p !in Packages(s) && OnePerPackage(s)
    requires vs != []
    ensures GetPackname(DistkeyFormat(p, vs[0])) !in Packages(s)
    ensures var candidate := DistkeyFormat(p, vs[0]);
      var sat := Satisfy(candidate, edeps, s);
      && (sat == Err(ConflictingVersion) || sat == Err(UnresolvableConflict) ==>
        TryCandidates(p, vs, edeps, s) == TryCandidates(p, vs[1..], edeps, s))
      && (sat.Err? && sat != Err(ConflictingVersion) && sat != Err(UnresolvableConflict) ==>
        TryCandidates(p, vs, edeps, s) == Err(sat.error))
      && (sat.Ok? ==>
        && OnePerPackage(Combine(s, sat.value))
        && TryCandidates(p, vs, edeps, s) == Ok(Combine(s, sat.value)))
  {
    var candidate := DistkeyFormat(p, vs[0]);
    SplitFormat(p, vs[0]);
    SatisfySound(candidate, edeps, s);
    var sat := Satisfy(candidate, edeps, s);
    if sat.Ok? {
      var combined := Combine(s, sat.value);
      OnePerPackageOfSubset(combined, sat.value);
      OnePerPackageNoConflict(combined);
    }
  }

  /**
   * `_backtracking_satisfy(distkey, edeps, versions_by_package, _candidates=candidates)`,
   * with its loop over edeps and its inner loop over candidate versions:
   * it computes exactly the outcome of the search Satisfy.
   */
  method BacktrackingSatisfyRec(distkey: string, edeps: Edeps, candidates: seq<string>)
    returns (r: Result<seq<string>>)
    requires WellFormedEdeps(edeps)
    requires OnePerPackage(candidates) && GetPackname(distkey) !in Packages(candidates)
    ensures r == Satisfy(distkey, edeps, candidates)
    decreases Remaining(edeps, candidates), 3
  {
    NewPackageConflictsWithNothing(distkey, candidates);
    var conflicts := ConflictsWithMethod(distkey, candidates);
    if conflicts != [] {
      assert false;
    }
    if distkey in candidates {
      assert false;
    }
    var satisfying := candidates + [distkey];
    if distkey !in edeps {
      return Err(MissingDependencyInfo);
    }
    var myEdeps := edeps[distkey];
    if myEdeps == [] {
      return Ok(satisfying);
    }
    RemainingShrinks(edeps, candidates, distkey);
    CommitKeepsOnePerPackage(candidates, distkey);
    r := SatisfyEdeps(myEdeps, edeps, satisfying);
  }

  /**
   * The loop of `_backtracking_satisfy` over the edeps of the dist being
   * satisfied, from candidate list satisfying on.
   */
  method SatisfyEdeps(myEdeps: seq<Edep>, edeps: Edeps, satisfying: seq<string>) returns (r: Result<seq<string>>)
    requires WellFormedEdeps(edeps)
    requires forall m :: 0 <= m < |myEdeps| ==> '(' !in myEdeps[m].packname
    requires OnePerPackage(satisfying)
    ensures r == SatisfyDeps(myEdeps, edeps, satisfying)
    decreases Remaining(edeps, satisfying) + 1, 2
  {
    var current := satisfying;
    var i := 0;
    while i < |myEdeps|
      invariant 0 <= i <= |myEdeps|
      invariant OnePerPackage(current)
      invariant Remaining(edeps, current) <= Remaining(edeps, satisfying)
      invariant SatisfyDeps(myEdeps[i..], edeps, current) == SatisfyDeps(myEdeps, edeps, satisfying)
    {
      assert myEdeps[i..][0] == myEdeps[i] && myEdeps[i..][1..] == myEdeps[i + 1..];
      var step := HandleEdep(myEdeps[i], edeps, current);
      if step.Err? {
        return Err(step.error);
      }
      StepSound(myEdeps[i], edeps, current);
      RemainingMonotone(edeps, current, step.value);
      current := step.value;
      i := i + 1;
    }
    return Ok(current);
  }

  /**
   * The body of the loop over edeps, for one edep: the candidate list after
   * it, or the exception the body raises.
   */
  method HandleEdep(edep: Edep, edeps: Edeps, current: seq<string>) returns (r: Result<seq<string>>)
    requires WellFormedEdeps(edeps)
    requires '(' !in edep.packname && OnePerPackage(current)
    ensures r == EdepStep(edep, edeps, current)
    decreases Remaining(edeps, current) + 1, 1
  {
    var packname := edep.packname;
    var versions := SortVersions(edep.versions);
    if versions == [] {
      return Err(NoSatisfyingVersion);
    }
    var preexisting := FindDistsMatchingPackname(packname, current);
    OnePerPackageMatching(packname, current);
    if preexisting != [] {
      assert |preexisting| == 1;
      var preexistingVersion := GetVersion(preexisting[0]);
      if preexistingVersion in versions {
        return Ok(current);
      }
      return Err(ConflictingVersion);
    }
    MatchingEmptyIff(packname, current);
    SortVersionsIdempotent(edep.versions);
    r := TryVersions(packname, SortVersions(versions), edeps, current);
  }

  /**
   * The inner loop of `_backtracking_satisfy` over the candidate versions of a
   * package not yet in the list, newest first: the first version whose
   * recursive search succeeds is merged into the list; a version whose search
   * ends in ConflictingVersion or UnresolvableConflict is passed over.
   */
  method TryVersions(packname: string, versions: seq<string>, edeps: Edeps, satisfying: seq<string>)
    returns (r: Result<seq<string>>)
    requires WellFormedEdeps(edeps)
    requires '(' !in packname && packname !in Packages(satisfying) && OnePerPackage(satisfying)
    ensures r == TryCandidates(packname, versions, edeps, satisfying)
    decreases Remaining(edeps, satisfying) + 1, 0
  {
    var j := 0;
    while j < |versions|
      invariant 0 <= j <= |versions|
      invariant TryCandidates(packname, versions[j..], edeps, satisfying) == TryCandidates(packname, versions, edeps, satisfying)
    {
      var candidate := DistkeyFormat(packname, versions[j]);
      assert versions[j..][0] == versions[j] && versions[j..][1..] == versions[j + 1..];
      TryCandidatesStep(packname, versions[j..], edeps, satisfying);
      var sub := BacktrackingSatisfyRec(candidate, edeps, satisfying);
      if sub.Err? {
        if sub.error == ConflictingVersion || sub.error == UnresolvableConflict {
          j := j + 1;
          continue;
        }
        return Err(sub.error);
      }
      var combined := Combine(satisfying, sub.value);
      var conflict := DetectDirectConflict(combined);
      assert !conflict by {
        OnePerPackageNoConflict(combined);
      }
      return Ok(combined);
    }
    return Err(UnresolvableConflict);
  }

  /** `backtracking_satisfy(distkey, edeps)` */
  method BacktrackingSatisfyMethod(distkey: string, edeps: Edeps) returns (r: Result<seq<string>>)
    requires WellFormedEdeps(edeps)
    ensures r == BacktrackingSatisfy(distkey, edeps)
  {
    r := BacktrackingSatisfyRec(distkey, edeps, []);
    if r == Err(ConflictingVersion) {
      r := Err(UnresolvableConflict);
    }
  }
}
