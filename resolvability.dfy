/**
 * The set primitives of the backtracking resolver
 * (depresolve/resolver/resolvability.py): finding the dists of a package in a
 * candidate list, conflicts between dists, comparing solutions, checking that
 * a candidate list satisfies elaborated dependencies, merging candidate
 * lists and ordering versions newest first.
 *
 * A candidate list is a list of distkeys. Elaborated dependencies map each
 * distkey to its list of edeps: a package name, the versions of that package
 * that satisfy the dependency, and the specifier string they were chosen by.
 */
module Resolvability {
  import opened PyStr
  import opened Versions
  import opened DistKeys
  import opened Errors
  import Sorting

  /** An elaborated dependency `[package_name, [acceptable versions], specifier_string]`. */
  datatype Edep = Edep(packname: string, versions: seq<string>, specstring: string)

  /** Elaborated dependencies, keyed by the distkey of the depender. */
  type Edeps = map<string, seq<Edep>>

  /** The packages of a candidate list. */
  function Packages(s: seq<string>): set<string> {
    set d | d in s :: GetPackname(d)
  }

  /** No two positions of the list hold dists of the same package (so no distkey twice either). */
  predicate OnePerPackage(s: seq<string>) {
    forall i, j :: 0 <= i < |s| && 0 <= j < |s| && i != j ==> GetPackname(s[i]) != GetPackname(s[j])
  }

  predicate NoDuplicates(s: seq<string>) {
    forall i, j :: 0 <= i < j < |s| ==> s[i] != s[j]
  }

  // ---------------------------------------------------------------------
  // find_dists_matching_packname

  /** The members of s[i..] whose package is p, in their order. */
  function MatchingFrom(p: string, s: seq<string>, i: nat): seq<string>
    requires i <= |s|
    decreases |s| - i
  {
    if i == |s| then []
    else (if GetPackname(s[i]) == p then [s[i]] else []) + MatchingFrom(p, s, i + 1)
  }

  lemma {:induction false} MatchingFromMembers(p: string, s: seq<string>, i: nat)
    requires i <= |s|
    ensures forall d :: d in MatchingFrom(p, s, i) <==> d in s[i..] && GetPackname(d) == p
    decreases |s| - i
  {
    if i < |s| {
      MatchingFromMembers(p, s, i + 1);
      assert s[i..] == [s[i]] + s[i + 1..];
    }
  }

  /** The dists of package p in s, in the order of s. */
  function Matching(p: string, s: seq<string>): seq<string> {
    MatchingFrom(p, s, 0)
  }

  /** find_dists_matching_packname returns exactly the dists of the package. */
  lemma MatchingMembers(p: string, s: seq<string>)
    ensures forall d :: d in Matching(p, s) <==> d in s && GetPackname(d) == p
  {
    MatchingFromMembers(p, s, 0);
    assert s[0..] == s;
  }

  /** `find_dists_matching_packname(packname, distkey_list)` */
  method FindDistsMatchingPackname(packname: string, distkeyList: seq<string>) returns (matched: seq<string>)
    ensures matched == Matching(packname, distkeyList)
  {
    matched := [];
    for i := 0 to |distkeyList|
      invariant matched + MatchingFrom(packname, distkeyList, i) == MatchingFrom(packname, distkeyList, 0)
    {
      if packname == GetPackname(distkeyList[i]) {
        matched := matched + [distkeyList[i]];
      }
    }
  }

  /** No dist of package p from index i on means no match from there. */
  lemma {:induction false} MatchingFromNone(p: string, s: seq<string>, i: nat)
    requires i <= |s|
    requires forall k :: i <= k < |s| ==> GetPackname(s[k]) != p
    ensures MatchingFrom(p, s, i) == []
    decreases |s| - i
  {
    if i < |s| {
      MatchingFromNone(p, s, i + 1);
    }
  }

  lemma {:induction false} MatchingFromAtMostOne(p: string, s: seq<string>, i: nat)
    requires i <= |s| && OnePerPackage(s)
    ensures |MatchingFrom(p, s, i)| <= 1
    decreases |s| - i
  {
    if i < |s| {
      MatchingFromAtMostOne(p, s, i + 1);
      if GetPackname(s[i]) == p {
        MatchingFromNone(p, s, i + 1);
      }
    }
  }

  /** A list with one dist per package has at most one dist of any package, and one of each of its packages. */
  lemma OnePerPackageMatching(p: string, s: seq<string>)
    requires OnePerPackage(s)
    ensures |Matching(p, s)| <= 1
    ensures p in Packages(s) <==> |Matching(p, s)| == 1
  {
    var m := Matching(p, s);
    MatchingFromAtMostOne(p, s, 0);
    MatchingMembers(p, s);
    if |m| == 1 {
      assert m[0] in m;
    }
    if p in Packages(s) {
      var d :| d in s && GetPackname(d) == p;
      assert d in m;
    }
  }

  lemma MatchingCounts(p: string, s: seq<string>, d: string)
    ensures multiset(Matching(p, s))[d] == if GetPackname(d) == p then multiset(s)[d] else 0
  {
    assert s[0..] == s;
    MatchingFromCounts(p, s, 0, d);
  }

  lemma {:induction false} MatchingFromCounts(p: string, s: seq<string>, i: nat, d: string)
    requires i <= |s|
    ensures multiset(MatchingFrom(p, s, i))[d] == if GetPackname(d) == p then multiset(s[i..])[d] else 0
    decreases |s| - i
  {
    if i < |s| {
      MatchingFromCounts(p, s, i + 1, d);
      assert MatchingFrom(p, s, i) == (if GetPackname(s[i]) == p then [s[i]] else []) + MatchingFrom(p, s, i + 1);
      assert s[i..] == [s[i]] + s[i + 1..];
      CountStep(s[i], s[i + 1..], MatchingFrom(p, s, i + 1), GetPackname(s[i]) == p, d, GetPackname(d) == p);
    }
  }

  /** One step of the count: x kept exactly when it has the package, d counted exactly when it has it. */
  lemma CountStep(x: string, rest: seq<string>, tail: seq<string>, keep: bool, d: string, counted: bool)
    requires x == d ==> keep == counted
    requires multiset(tail)[d] == if counted then multiset(rest)[d] else 0
    ensures multiset((if keep then [x] else []) + tail)[d] == if counted then multiset([x] + rest)[d] else 0
  {
  }

  // ---------------------------------------------------------------------
  // conflicts_with

  /** Another dist of the same package conflicts unless it is literally the same or the same version. */
  predicate Competes(distkey: string, other: string) {
    other != distkey && !Equivalent(GetVersion(distkey), GetVersion(other))
  }

  /** The `possible_competitors` list: the members of ms other than distkey itself. */
  function OtherThan(distkey: string, ms: seq<string>): seq<string> {
    if ms == [] then []
    else (if ms[0] != distkey then [ms[0]] else []) + OtherThan(distkey, ms[1..])
  }

  lemma {:induction false} OtherThanMembers(distkey: string, ms: seq<string>)
    ensures forall d :: d in OtherThan(distkey, ms) <==> d in ms && d != distkey
  {
    if ms != [] {
      OtherThanMembers(distkey, ms[1..]);
      assert ms == [ms[0]] + ms[1..];
    }
  }

  /** The members of ps[i..] whose version differs from distkey's, in their order. */
  function DifferentVersionFrom(distkey: string, ps: seq<string>, i: nat): seq<string>
    requires i <= |ps|
    decreases |ps| - i
  {
    if i == |ps| then []
    else
      (if !Equivalent(GetVersion(distkey), GetVersion(ps[i])) then [ps[i]] else [])
        + DifferentVersionFrom(distkey, ps, i + 1)
  }

  lemma {:induction false} DifferentVersionFromMembers(distkey: string, ps: seq<string>, i: nat)
    requires i <= |ps|
    ensures forall d :: d in DifferentVersionFrom(distkey, ps, i) <==>
      d in ps[i..] && !Equivalent(GetVersion(distkey), GetVersion(d))
    decreases |ps| - i
  {
    if i < |ps| {
      DifferentVersionFromMembers(distkey, ps, i + 1);
      assert ps[i..] == [ps[i]] + ps[i + 1..];
    }
  }

  /** The result of `conflicts_with(distkey, distkey_set)`. */
  function ConflictsWith(distkey: string, distkeySet: seq<string>): seq<string> {
    DifferentVersionFrom(distkey, OtherThan(distkey, Matching(GetPackname(distkey), distkeySet)), 0)
  }

  /** conflicts_with returns exactly the other, non-equivalent dists of the same package. */
  lemma ConflictsWithMembers(distkey: string, distkeySet: seq<string>)
    ensures forall d :: d in ConflictsWith(distkey, distkeySet) <==>
      d in distkeySet && GetPackname(d) == GetPackname(distkey) && Competes(distkey, d)
  {
    var ps := OtherThan(distkey, Matching(GetPackname(distkey), distkeySet));
    MatchingMembers(GetPackname(distkey), distkeySet);
    OtherThanMembers(distkey, Matching(GetPackname(distkey), distkeySet));
    DifferentVersionFromMembers(distkey, ps, 0);
    assert ps[0..] == ps;
  }

  /** `conflicts_with(distkey, distkey_set)` */
  method ConflictsWithMethod(distkey: string, distkeySet: seq<string>) returns (competing: seq<string>)
    ensures competing == ConflictsWith(distkey, distkeySet)
  {
    var packname := GetPackname(distkey);
    var version := GetVersion(distkey);
    var matches := FindDistsMatchingPackname(packname, distkeySet);
    var possible := OtherThan(distkey, matches);
    competing := [];
    for i := 0 to |possible|
      invariant competing + DifferentVersionFrom(distkey, possible, i) == DifferentVersionFrom(distkey, possible, 0)
    {
      ghost var rest := DifferentVersionFrom(distkey, possible, i + 1);
      if !Equivalent(version, GetVersion(possible[i])) {
        assert DifferentVersionFrom(distkey, possible, i) == [possible[i]] + rest;
        assert competing + ([possible[i]] + rest) == (competing + [possible[i]]) + rest;
        competing := competing + [possible[i]];
      } else {
        assert DifferentVersionFrom(distkey, possible, i) == [] + rest;
        assert [] + rest == rest;
      }
    }
  }

  // ---------------------------------------------------------------------
  // detect_direct_conflict

  /** Some member of the list has a non-empty conflicts_with result against the list. */
  predicate HasDirectConflict(candidates: seq<string>) {
    exists i :: 0 <= i < |candidates| && ConflictsWith(candidates[i], candidates) != []
  }

  /** `detect_direct_conflict(candidates)` */
  method DetectDirectConflict(candidates: seq<string>) returns (conflict: bool)
    ensures conflict == HasDirectConflict(candidates)
  {
    for i := 0 to |candidates|
      invariant forall k :: 0 <= k < i ==> ConflictsWith(candidates[k], candidates) == []
    {
      var competing := ConflictsWithMethod(candidates[i], candidates);
      if competing != [] {
        return true;
      }
    }
    return false;
  }

  /** A direct conflict is a pair of different, non-equivalent dists of one package. */
  lemma DirectConflictIffPair(s: seq<string>)
    ensures HasDirectConflict(s) <==>
      exists i, j :: 0 <= i < |s| && 0 <= j < |s| && GetPackname(s[i]) == GetPackname(s[j]) && Competes(s[i], s[j])
  {
    if HasDirectConflict(s) {
      var i :| 0 <= i < |s| && ConflictsWith(s[i], s) != [];
      var d := ConflictsWith(s[i], s)[0];
      ConflictsWithMembers(s[i], s);
      assert d in ConflictsWith(s[i], s);
      var j :| 0 <= j < |s| && s[j] == d;
      assert GetPackname(s[i]) == GetPackname(s[j]) && Competes(s[i], s[j]);
    }
    if exists i, j :: 0 <= i < |s| && 0 <= j < |s| && GetPackname(s[i]) == GetPackname(s[j]) && Competes(s[i], s[j]) {
      var i, j :| 0 <= i < |s| && 0 <= j < |s| && GetPackname(s[i]) == GetPackname(s[j]) && Competes(s[i], s[j]);
      ConflictsWithMembers(s[i], s);
      assert s[j] in ConflictsWith(s[i], s);
    }
  }

  /** A list with one dist per package has no direct conflict. */
  lemma OnePerPackageNoConflict(s: seq<string>)
    requires OnePerPackage(s)
    ensures !HasDirectConflict(s)
  {
    DirectConflictIffPair(s);
  }

  // ---------------------------------------------------------------------
  // dist_lists_are_equal

  type Dist = (string, string)

  /** The `(pack, ver)` form of each distkey of the list. */
  function Pairs(l: seq<string>): (r: seq<Dist>)
    ensures |r| == |l|
    ensures forall i :: 0 <= i < |l| ==> r[i] == GetPackAndVersion(l[i])
  {
    seq(|l|, i requires 0 <= i < |l| => GetPackAndVersion(l[i]))
  }

  /** The other list holds a dist of the same package with an equivalent version. */
  predicate HasEquivalent(x: Dist, other: seq<Dist>) {
    exists j :: 0 <= j < |other| && other[j].0 == x.0 && Equivalent(x.1, other[j].1)
  }

  predicate AllHaveEquivalent(these: seq<Dist>, other: seq<Dist>) {
    forall i :: 0 <= i < |these| ==> HasEquivalent(these[i], other)
  }

  /** The result of `dist_lists_are_equal(distlist1, distlist2)`. */
  predicate DistListsEqual(l1: seq<string>, l2: seq<string>) {
    |l1| == |l2| && AllHaveEquivalent(Pairs(l1), Pairs(l2)) && AllHaveEquivalent(Pairs(l2), Pairs(l1))
  }

  /** `[v for (p, v) in otherlist if p == pack]` */
  function VersionsOf(pack: string, other: seq<Dist>): (r: seq<string>)
    ensures forall v :: v in r <==> exists j :: 0 <= j < |other| && other[j] == (pack, v)
  {
    if other == [] then []
    else
      var rest := VersionsOf(pack, other[1..]);
      assert forall v :: (exists j :: 0 <= j < |other[1..]| && other[1..][j] == (pack, v)) <==>
        (exists j :: 1 <= j < |other| && other[j] == (pack, v)) by {
        forall v | exists j :: 1 <= j < |other| && other[j] == (pack, v)
          ensures exists j :: 0 <= j < |other[1..]| && other[1..][j] == (pack, v)
        {
          var j :| 1 <= j < |other| && other[j] == (pack, v);
          assert other[1..][j - 1] == (pack, v);
        }
      }
      (if other[0].0 == pack then [other[0].1] else []) + rest
  }

  /** The inner loop of `dist_lists_are_equal` for one direction. */
  method EveryDistMatched(these: seq<Dist>, other: seq<Dist>) returns (ok: bool)
    ensures ok == AllHaveEquivalent(these, other)
  {
    for i := 0 to |these|
      invariant forall k :: 0 <= k < i ==> HasEquivalent(these[k], other)
    {
      var (pack, ver) := these[i];
      if (pack, ver) in other {
        EquivalentIsEquivalence(ver, ver, ver);
        ghost var j :| 0 <= j < |other| && other[j] == (pack, ver);
        continue;
      }
      var possibleMatches := VersionsOf(pack, other);
      if possibleMatches == [] {
        return false;
      }
      var matchFound := false;
      ghost var found := "";
      for m := 0 to |possibleMatches|
        invariant !matchFound
        invariant forall k :: 0 <= k < m ==> !Equivalent(ver, possibleMatches[k])
      {
        if Equivalent(ver, possibleMatches[m]) {
          matchFound := true;
          found := possibleMatches[m];
          break;
        }
      }
      if matchFound {
        assert found in possibleMatches && Equivalent(ver, found);
        ghost var j :| 0 <= j < |other| && other[j] == (pack, found);
      }
      if !matchFound {
        assert forall j :: 0 <= j < |other| && other[j].0 == pack ==> other[j].1 in possibleMatches;
        return false;
      }
    }
    return true;
  }

  /** `dist_lists_are_equal(distlist1, distlist2)` */
  method DistListsAreEqual(distlist1: seq<string>, distlist2: seq<string>) returns (equal: bool)
    ensures equal == DistListsEqual(distlist1, distlist2)
  {
    if |distlist1| != |distlist2| {
      return false;
    }
    var dists1: seq<Dist> := [];
    for i := 0 to |distlist1|
      invariant dists1 == Pairs(distlist1[..i])
    {
      assert distlist1[..i + 1] == distlist1[..i] + [distlist1[i]];
      dists1 := dists1 + [GetPackAndVersion(distlist1[i])];
    }
    var dists2: seq<Dist> := [];
    for i := 0 to |distlist2|
      invariant dists2 == Pairs(distlist2[..i])
    {
      assert distlist2[..i + 1] == distlist2[..i] + [distlist2[i]];
      dists2 := dists2 + [GetPackAndVersion(distlist2[i])];
    }
    assert distlist1[..|distlist1|] == distlist1 && distlist2[..|distlist2|] == distlist2;
    var forward := EveryDistMatched(dists1, dists2);
    if !forward {
      return false;
    }
    var backward := EveryDistMatched(dists2, dists1);
    return backward;
  }

  /** `dist_lists_are_equal` is symmetric, and every list equals each of its permutations. */
  lemma DistListsEqualPermutation(l1: seq<string>, l2: seq<string>)
    requires multiset(l1) == multiset(l2)
    ensures DistListsEqual(l1, l2) && DistListsEqual(l2, l1)
  {
    assert |l1| == |multiset(l1)| == |multiset(l2)| == |l2|;
    forall i | 0 <= i < |l1| ensures HasEquivalent(Pairs(l1)[i], Pairs(l2)) {
      assert l1[i] in multiset(l2);
      var j :| 0 <= j < |l2| && l2[j] == l1[i];
      EquivalentIsEquivalence(GetVersion(l1[i]), GetVersion(l1[i]), GetVersion(l1[i]));
      assert Pairs(l2)[j] == Pairs(l1)[i];
    }
    forall i | 0 <= i < |l2| ensures HasEquivalent(Pairs(l2)[i], Pairs(l1)) {
      assert l2[i] in multiset(l1);
      var j :| 0 <= j < |l1| && l1[j] == l2[i];
      EquivalentIsEquivalence(GetVersion(l2[i]), GetVersion(l2[i]), GetVersion(l2[i]));
      assert Pairs(l1)[j] == Pairs(l2)[i];
    }
  }

  // ---------------------------------------------------------------------
  // is_dep_satisfied and are_fully_satisfied

  /** The packages `disregard_setuptools` exempts. */
  const Disregarded: seq<string> := ["setuptools", "pip", "wheel"]

  /**
   * The result of `is_dep_satisfied(edep, candidates, disregard_setuptools)`:
   * the single dist of the package in the list has a version equivalent to an
   * acceptable one. No dist of the package means unsatisfied; more than one
   * fails the function's assertion.
   */
  function DepSatisfied(edep: Edep, candidates: seq<string>, disregardSetuptools: bool): (r: Result<bool>)
    ensures r == Err(AssertionFailed) <==>
      !(disregardSetuptools && edep.packname in Disregarded) && |Matching(edep.packname, candidates)| > 1
    ensures r.Err? ==> r == Err(AssertionFailed)
  {
    if disregardSetuptools && edep.packname in Disregarded then Ok(true)
    else
      var same := Matching(edep.packname, candidates);
      if same == [] then Ok(false)
      else if |same| != 1 then Err(AssertionFailed)
      else Ok(exists k :: 0 <= k < |edep.versions| && Equivalent(GetVersion(same[0]), edep.versions[k]))
  }

  /** `is_dep_satisfied(edep, candidates, disregard_setuptools)` */
  method IsDepSatisfied(edep: Edep, candidates: seq<string>, disregardSetuptools: bool) returns (r: Result<bool>)
    ensures r == DepSatisfied(edep, candidates, disregardSetuptools)
  {
    var packname := edep.packname;
    var acceptable := edep.versions;
    if disregardSetuptools && packname in Disregarded {
      return Ok(true);
    }
    var same := FindDistsMatchingPackname(packname, candidates);
    if same == [] {
      return Ok(false);
    }
    if |same| != 1 {
      return Err(AssertionFailed);
    }
    var version := GetVersion(same[0]);
    if version in acceptable {
      EquivalentIsEquivalence(version, version, version);
      return Ok(true);
    }
    var versionMatch := false;
    for k := 0 to |acceptable|
      invariant !versionMatch
      invariant forall m :: 0 <= m < k ==> !Equivalent(version, acceptable[m])
    {
      if Equivalent(version, acceptable[k]) {
        versionMatch := true;
        break;
      }
    }
    return Ok(versionMatch);
  }

  /** `[distkey.lower() for distkey in candidates]` */
  function LowerAll(candidates: seq<string>): (r: seq<string>)
    ensures |r| == |candidates|
    ensures forall i :: 0 <= i < |r| ==> r[i] == Lower(candidates[i])
  {
    seq(|candidates|, i requires 0 <= i < |candidates| => Lower(candidates[i]))
  }

  /** The edeps es[j..] are all satisfied by cands; the first failing check decides. */
  function EdepsSatisfiedFrom(es: seq<Edep>, cands: seq<string>, dis: bool, j: nat): (r: Result<bool>)
    requires j <= |es|
    ensures r == Ok(true) <==> forall k :: j <= k < |es| ==> DepSatisfied(es[k], cands, dis) == Ok(true)
    ensures r.Err? ==> r == Err(AssertionFailed)
    decreases |es| - j
  {
    if j == |es| then Ok(true)
    else match DepSatisfied(es[j], cands, dis)
      case Err(e) => Err(e)
      case Ok(false) => Ok(false)
      case Ok(true) => EdepsSatisfiedFrom(es, cands, dis, j + 1)
  }

  /** The dists cands[i..] all have dependency data and all their edeps are satisfied by cands. */
  function FullySatisfiedFrom(cands: seq<string>, edeps: Edeps, dis: bool, i: nat): (r: Result<bool>)
    requires i <= |cands|
    ensures r == Ok(true) <==> forall k :: i <= k < |cands| ==>
      cands[k] in edeps && EdepsSatisfiedFrom(edeps[cands[k]], cands, dis, 0) == Ok(true)
    ensures r == Err(MissingDependencyInfo) ==> exists k :: i <= k < |cands| && cands[k] !in edeps
    decreases |cands| - i
  {
    if i == |cands| then Ok(true)
    else if cands[i] !in edeps then Err(MissingDependencyInfo)
    else match EdepsSatisfiedFrom(edeps[cands[i]], cands, dis, 0)
      case Err(e) => Err(e)
      case Ok(false) => Ok(false)
      case Ok(true) => FullySatisfiedFrom(cands, edeps, dis, i + 1)
  }

  /**
   * The result of `are_fully_satisfied(candidates, edeps, versions_by_package,
   * disregard_setuptools)`: every lower-cased candidate has dependency data and
   * each of its edeps is satisfied by the lower-cased list.
   */
  function AreFullySatisfied(candidates: seq<string>, edeps: Edeps, disregardSetuptools: bool): (r: Result<bool>)
    ensures r == Ok(true) <==> forall k :: 0 <= k < |candidates| ==>
      Lower(candidates[k]) in edeps &&
      forall m :: 0 <= m < |edeps[Lower(candidates[k])]| ==>
        DepSatisfied(edeps[Lower(candidates[k])][m], LowerAll(candidates), disregardSetuptools) == Ok(true)
    ensures r == Err(MissingDependencyInfo) ==> exists k :: 0 <= k < |candidates| && Lower(candidates[k]) !in edeps
  {
    FullySatisfiedFrom(LowerAll(candidates), edeps, disregardSetuptools, 0)
  }

  /** `are_fully_satisfied(candidates, edeps, versions_by_package, disregard_setuptools)` */
  method AreFullySatisfiedMethod(candidates: seq<string>, edeps: Edeps, disregardSetuptools: bool)
    returns (r: Result<bool>)
    ensures r == AreFullySatisfied(candidates, edeps, disregardSetuptools)
  {
    var cands := LowerAll(candidates);
    for i := 0 to |cands|
      invariant FullySatisfiedFrom(cands, edeps, disregardSetuptools, i) == FullySatisfiedFrom(cands, edeps, disregardSetuptools, 0)
    {
      if cands[i] !in edeps {
        return Err(MissingDependencyInfo);
      }
      var es := edeps[cands[i]];
      for j := 0 to |es|
        invariant EdepsSatisfiedFrom(es, cands, disregardSetuptools, j) == EdepsSatisfiedFrom(es, cands, disregardSetuptools, 0)
      {
        var sat := IsDepSatisfied(es[j], cands, disregardSetuptools);
        if sat.Err? {
          return Err(sat.error);
        }
        if !sat.value {
          return Ok(false);
        }
      }
    }
    return Ok(true);
  }

  // ---------------------------------------------------------------------
  // combine_candidate_sets

  /** `list(set(s))`, with each element kept at its first occurrence. */
  function Dedup(s: seq<string>): (r: seq<string>)
    ensures forall x :: x in r <==> x in s
    ensures NoDuplicates(r)
  {
    if s == [] then []
    else
      var r := Dedup(s[..|s| - 1]);
      var last := s[|s| - 1];
      assert s == s[..|s| - 1] + [last];
      if last in r then r else r + [last]
  }

  /** `combine_candidate_sets(orig_candidates, addl_candidates)` */
  function Combine(orig: seq<string>, addl: seq<string>): (r: seq<string>)
    ensures forall d :: d in r <==> d in orig || d in addl
    ensures NoDuplicates(r)
  {
    Dedup(orig + addl)
  }

  /** Dedup leaves a list without duplicates as it is. */
  lemma {:induction false} DedupNoDuplicates(s: seq<string>)
    requires NoDuplicates(s)
    ensures Dedup(s) == s
  {
    if s != [] {
      DedupNoDuplicates(s[..|s| - 1]);
      assert s[|s| - 1] !in s[..|s| - 1];
    }
  }

  /** Combining with a list whose members are all already present keeps a duplicate-free list. */
  lemma {:induction false} DedupKeepsPrefix(a: seq<string>, b: seq<string>)
    requires NoDuplicates(a)
    ensures |Dedup(a + b)| >= |a|
    ensures Dedup(a + b)[..|a|] == a
    decreases |b|
  {
    if b == [] {
      assert a + b == a;
      DedupNoDuplicates(a);
    } else {
      DedupKeepsPrefix(a, b[..|b| - 1]);
      assert (a + b)[..|a + b| - 1] == a + b[..|b| - 1];
    }
  }

  // ---------------------------------------------------------------------
  // sort_versions

  lemma KeyLeTotalOrder()
    ensures Sorting.TotalOrder(KeyLe)
  {
    forall a, b ensures KeyLe(a, b) || KeyLe(b, a) {
      KeyLeTotal(a, b);
    }
    forall a, b | KeyLe(a, b) && KeyLe(b, a) ensures a == b {
      KeyLeAntisymmetric(a, b);
    }
    forall a, b, c | KeyLe(a, b) && KeyLe(b, c) ensures KeyLe(a, c) {
      KeyLeTransitive(a, b, c);
    }
  }

  /**
   * `sort_versions(versions)`: `sorted` of `(parse(v), v)` pairs with
   * `reverse=True`, so newest first, equivalent versions by their text.
   */
  function SortVersions(versions: seq<string>): (r: seq<string>)
    ensures multiset(r) == multiset(versions)
    ensures forall i, j :: 0 <= i < j < |r| ==> KeyLe(r[j], r[i])
  {
    KeyLeTotalOrder();
    Sorting.SortDesc(versions, KeyLe)
  }

  /** A `(parse(v), v)` pair, as `sort_versions` builds them. */
  type Pipified = p: (Version, string) | p.0 == Parse(p.1) witness (Parse(""), "")

  /**
   * Python's tuple order on pipified pairs: by version first (equivalent
   * versions compare equal), then by text.
   */
  predicate PairLe(a: Pipified, b: Pipified) {
    var c := Cmp(a.0, b.0);
    c < 0 || (c == 0 && StrLe(a.1, b.1))
  }

  /** On pipified pairs the tuple order is total, as `sorted` needs. */
  lemma PairLeTotalOrder()
    ensures Sorting.TotalOrder(PairLe)
  {
    forall a: Pipified, b: Pipified ensures PairLe(a, b) || PairLe(b, a) {
      KeyLeTotal(a.1, b.1);
    }
    forall a: Pipified, b: Pipified | PairLe(a, b) && PairLe(b, a) ensures a == b {
      KeyLeAntisymmetric(a.1, b.1);
    }
    forall a: Pipified, b: Pipified, c: Pipified | PairLe(a, b) && PairLe(b, c) ensures PairLe(a, c) {
      KeyLeTransitive(a.1, b.1, c.1);
    }
  }

  /** `[v[1] for v in pipified_versions]`. */
  function Texts(ps: seq<Pipified>): seq<string> {
    seq(|ps|, k requires 0 <= k < |ps| => ps[k].1)
  }

  /** A text occurs in the texts as often as its pair occurs in the pairs. */
  lemma {:induction false} TextsCount(ps: seq<Pipified>, x: string)
    ensures multiset(Texts(ps))[x] == multiset(ps)[(Parse(x), x)]
    decreases |ps|
  {
    if ps != [] {
      var front := ps[..|ps| - 1];
      TextsCount(front, x);
      assert ps == front + [ps[|ps| - 1]];
      assert Texts(ps) == Texts(front) + [ps[|ps| - 1].1];
    }
  }

  /** Rearranging the pairs rearranges their texts the same way. */
  lemma TextsPermutation(a: seq<Pipified>, b: seq<Pipified>)
    requires multiset(a) == multiset(b)
    ensures multiset(Texts(a)) == multiset(Texts(b))
  {
    forall x ensures multiset(Texts(a))[x] == multiset(Texts(b))[x] {
      TextsCount(a, x);
      TextsCount(b, x);
    }
  }

  /**
   * `sort_versions` with its loop: each version is paired with its parsed
   * form, the pairs are sorted in reverse tuple order, and their texts are
   * returned. The result is the one arrangement SortVersions specifies.
   */
  method SortVersionsMethod(versions: seq<string>) returns (r: seq<string>)
    ensures r == SortVersions(versions)
  {
    var pipified: seq<Pipified> := [];
    for i := 0 to |versions|
      invariant Texts(pipified) == versions[..i]
    {
      assert Texts(pipified + [(Parse(versions[i]), versions[i])]) == Texts(pipified) + [versions[i]];
      pipified := pipified + [(Parse(versions[i]), versions[i])];
    }
    assert versions[..|versions|] == versions;
    ghost var unsorted := pipified;
    PairLeTotalOrder();
    pipified := Sorting.SortDesc(pipified, PairLe);
    r := Texts(pipified);
    TextsPermutation(pipified, unsorted);
    assert forall i, j :: 0 <= i < j < |r| ==> KeyLe(r[j], r[i]) by {
      forall i, j | 0 <= i < j < |r| ensures KeyLe(r[j], r[i]) {
        assert PairLe(pipified[j], pipified[i]);
      }
    }
    SortVersionsUnique(versions, r);
  }

  /** The result is newest first, and it is the only such arrangement of the input. */
  lemma SortVersionsUnique(versions: seq<string>, s: seq<string>)
    requires multiset(s) == multiset(versions)
    requires forall i, j :: 0 <= i < j < |s| ==> KeyLe(s[j], s[i])
    ensures SortVersions(versions) == s
    ensures forall i, j :: 0 <= i < j < |s| ==> VersionLe(s[j], s[i])
  {
    KeyLeTotalOrder();
    Sorting.SortedDescUnique(SortVersions(versions), s, KeyLe);
  }

  /** Sorting a sorted list changes nothing. */
  lemma SortVersionsIdempotent(versions: seq<string>)
    ensures SortVersions(SortVersions(versions)) == SortVersions(versions)
  {
    SortVersionsUnique(SortVersions(versions), SortVersions(versions));
  }
}
