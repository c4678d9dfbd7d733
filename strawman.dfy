/**
 * The two strawman resolvers of depresolve/resolver/resolvability.py and the
 * model-2 conflict detector built on the first.
 *
 * Neither strawman keeps a list of dists already chosen, so a circular
 * dependency makes them recurse until Python's recursion limit. The model
 * makes that limit a parameter: `fuel` is the number of nested calls still
 * allowed, and running out is the RecursionLimit outcome.
 */
module Strawman {
  import opened PyStr
  import opened Versions
  import opened DistKeys
  import opened Errors
  import opened Resolvability

  // ---------------------------------------------------------------------
  // fully_satisfy_strawman1

  /** The dist strawman1 picks for an edep: the first of its versions by `sort_versions`, the newest. */
  function Newest(e: Edep): string
    requires e.versions != []
  {
    DistkeyFormat(e.packname, SortVersions(e.versions)[0])
  }

  /**
   * `fully_satisfy_strawman1(distkey, edeps)`: for each edep in order, the
   * newest acceptable dist followed by what it needs in turn, duplicates kept.
   */
  function Strawman1(distkey: string, edeps: Edeps, fuel: nat): Result<seq<string>>
    decreases fuel, 0, 0
  {
    if fuel == 0 then Err(RecursionLimit)
    else if distkey !in edeps then Err(MissingDependencyInfo)
    else Strawman1Deps(edeps[distkey], edeps, fuel - 1)
  }

  /** The loop of strawman1 over edeps, with `fuel` nested calls allowed for each child. */
  function Strawman1Deps(es: seq<Edep>, edeps: Edeps, fuel: nat): Result<seq<string>>
    decreases fuel, 1, |es|
  {
    if es == [] then Ok([])
    else if es[0].versions == [] then Err(NoSatisfyingVersion)
    else
      var chosen := Newest(es[0]);
      match Strawman1(chosen, edeps, fuel)
      case Err(e) => Err(e)
      case Ok(sub) => Prepend([chosen] + sub, Strawman1Deps(es[1..], edeps, fuel))
  }

  /** `fully_satisfy_strawman1(distkey, edeps)` */
  method Strawman1Method(distkey: string, edeps: Edeps, fuel: nat) returns (r: Result<seq<string>>)
    ensures r == Strawman1(distkey, edeps, fuel)
    decreases fuel, 0
  {
    if fuel == 0 {
      return Err(RecursionLimit);
    }
    if distkey !in edeps {
      return Err(MissingDependencyInfo);
    }
    r := Strawman1Loop(edeps[distkey], edeps, fuel - 1);
  }

  /** The loop of `fully_satisfy_strawman1` over edeps, appending each choice and what it needs. */
  method Strawman1Loop(myEdeps: seq<Edep>, edeps: Edeps, fuel: nat) returns (r: Result<seq<string>>)
    ensures r == Strawman1Deps(myEdeps, edeps, fuel)
    decreases fuel, 1
  {
    var satisfying: seq<string> := [];
    assert myEdeps[0..] == myEdeps;
    PrependNothing(Strawman1Deps(myEdeps, edeps, fuel));
    for i := 0 to |myEdeps|
      invariant Strawman1Deps(myEdeps, edeps, fuel) == Prepend(satisfying, Strawman1Deps(myEdeps[i..], edeps, fuel))
    {
      assert myEdeps[i..][0] == myEdeps[i] && myEdeps[i..][1..] == myEdeps[i + 1..];
      var edep := myEdeps[i];
      if edep.versions == [] {
        return Err(NoSatisfyingVersion);
      }
      var chosenVersion := SortVersions(edep.versions)[0];
      var chosen := DistkeyFormat(edep.packname, chosenVersion);
      ghost var before := satisfying;
      satisfying := satisfying + [chosen];
      var sub := Strawman1Method(chosen, edeps, fuel);
      if sub.Err? {
        assert Strawman1Deps(myEdeps[i..], edeps, fuel) == Err(sub.error);
        return Err(sub.error);
      }
      ghost var rest := Strawman1Deps(myEdeps[i + 1..], edeps, fuel);
      assert Strawman1Deps(myEdeps[i..], edeps, fuel) == Prepend([chosen] + sub.value, rest);
      PrependTwice(before, [chosen] + sub.value, rest);
      assert before + ([chosen] + sub.value) == satisfying + sub.value;
      satisfying := satisfying + sub.value;
    }
    assert myEdeps[|myEdeps|..] == [];
    assert satisfying + [] == satisfying;
    return Ok(satisfying);
  }

  /** The first version `sort_versions` yields is a newest acceptable one. */
  lemma NewestIsNewest(versions: seq<string>)
    requires versions != []
    ensures SortVersions(versions)[0] in versions
    ensures forall w :: w in versions ==> VersionLe(w, SortVersions(versions)[0])
  {
    var vs := SortVersions(versions);
    assert vs[0] in multiset(vs);
    forall w | w in versions ensures VersionLe(w, vs[0]) {
      assert w in multiset(vs);
      var j :| 0 <= j < |vs| && vs[j] == w;
      VersionLeTotalPreorder(w, w, w);
      assert j == 0 || KeyLe(vs[j], vs[0]);
    }
  }

  /**
   * When strawman1 succeeds, each edep of the dist contributes its newest
   * acceptable dist (an edep with no versions is NoSatisfyingVersion), and
   * every member of the result is a formatted distkey.
   */
  lemma {:induction false} Strawman1DepsChooses(es: seq<Edep>, edeps: Edeps, fuel: nat)
    ensures var r := Strawman1Deps(es, edeps, fuel);
      r.Ok? ==>
        && (forall m :: 0 <= m < |es| ==> es[m].versions != [] && Newest(es[m]) in r.value)
        && (forall x :: x in r.value ==> '(' in x)
    decreases fuel, 1, |es|
  {
    if es != [] && es[0].versions != [] {
      var chosen := Newest(es[0]);
      Strawman1Chooses(chosen, edeps, fuel);
      Strawman1DepsChooses(es[1..], edeps, fuel);
      var r := Strawman1Deps(es, edeps, fuel);
      if r.Ok? {
        assert chosen[|es[0].packname|] == '(';
        forall m | 0 <= m < |es| ensures es[m].versions != [] && Newest(es[m]) in r.value {
          if m > 0 { assert es[m] == es[1..][m - 1]; }
        }
      }
    }
  }

  lemma {:induction false} Strawman1Chooses(distkey: string, edeps: Edeps, fuel: nat)
    ensures var r := Strawman1(distkey, edeps, fuel);
      r.Ok? ==>
        && distkey in edeps
        && (forall m :: 0 <= m < |edeps[distkey]| ==> edeps[distkey][m].versions != [] && Newest(edeps[distkey][m]) in r.value)
        && (forall x :: x in r.value ==> '(' in x)
    decreases fuel, 0, 0
  {
    if fuel > 0 && distkey in edeps {
      Strawman1DepsChooses(edeps[distkey], edeps, fuel - 1);
    }
  }

  /**
   * More fuel changes nothing once the search has finished without hitting
   * the limit: the limit only cuts off runs that would not end otherwise.
   */
  lemma {:induction false} Strawman1FuelMonotone(distkey: string, edeps: Edeps, fuel: nat, more: nat)
    requires fuel <= more
    requires Strawman1(distkey, edeps, fuel) != Err(RecursionLimit)
    ensures Strawman1(distkey, edeps, more) == Strawman1(distkey, edeps, fuel)
    decreases fuel, 0, 1
  {
    Strawman1FuelLeft(distkey, edeps, fuel);
    Strawman1ShiftedFuelMonotone(distkey, edeps, fuel - 1, more - 1);
  }

  /** A run that does not hit the limit started with fuel, and its loop does not hit it either. */
  lemma Strawman1FuelLeft(distkey: string, edeps: Edeps, fuel: nat)
    requires Strawman1(distkey, edeps, fuel) != Err(RecursionLimit)
    ensures fuel > 0
    ensures distkey in edeps ==> Strawman1Deps(edeps[distkey], edeps, fuel - 1) != Err(RecursionLimit)
  {
  }

  /** Strawman1FuelMonotone with the fuel of the first call taken out. */
  lemma {:induction false} Strawman1ShiftedFuelMonotone(distkey: string, edeps: Edeps, f: nat, m: nat)
    requires f <= m
    requires distkey in edeps ==> Strawman1Deps(edeps[distkey], edeps, f) != Err(RecursionLimit)
    ensures Strawman1(distkey, edeps, m + 1) == Strawman1(distkey, edeps, f + 1)
    decreases f + 1, 0, 0
  {
    if distkey in edeps {
      Strawman1Unfold(distkey, edeps, f + 1);
      Strawman1Unfold(distkey, edeps, m + 1);
      Strawman1DepsFuelMonotone(edeps[distkey], edeps, f, m);
    }
  }

  /** With fuel left, strawman1 on a dist with deps info is its loop over the dist's edeps. */
  lemma Strawman1Unfold(distkey: string, edeps: Edeps, fuel: nat)
    requires distkey in edeps && fuel > 0
    ensures Strawman1(distkey, edeps, fuel) == Strawman1Deps(edeps[distkey], edeps, fuel - 1)
  {
  }

  lemma {:induction false} Strawman1DepsFuelMonotone(es: seq<Edep>, edeps: Edeps, fuel: nat, more: nat)
    requires fuel <= more
    requires Strawman1Deps(es, edeps, fuel) != Err(RecursionLimit)
    ensures Strawman1Deps(es, edeps, more) == Strawman1Deps(es, edeps, fuel)
    decreases fuel, 1, |es|
  {
    if es != [] && es[0].versions != [] {
      var chosen := Newest(es[0]);
      var sub := Strawman1(chosen, edeps, fuel);
      Strawman1FuelMonotone(chosen, edeps, fuel, more);
      if sub.Ok? {
        var rest := Strawman1Deps(es[1..], edeps, fuel);
        assert Strawman1Deps(es, edeps, fuel) == Prepend([chosen] + sub.value, rest);
        Strawman1DepsFuelMonotone(es[1..], edeps, fuel, more);
        assert Strawman1Deps(es, edeps, more) == Prepend([chosen] + sub.value, rest);
      }
    }
  }

  // ---------------------------------------------------------------------
  // detect_model_2_conflict_from_distkey

  /** `[c for c in candidates if c.startswith(packname + '(') and c != candidate]` */
  function Competing(candidates: seq<string>, packname: string, candidate: string): (r: seq<string>)
    ensures forall c :: c in r <==> c in candidates && StartsWith(c, packname + "(") && c != candidate
  {
    if candidates == [] then []
    else
      var rest := Competing(candidates[1..], packname, candidate);
      assert forall c :: c in candidates <==> c == candidates[0] || c in candidates[1..];
      if StartsWith(candidates[0], packname + "(") && candidates[0] != candidate then [candidates[0]] + rest
      else rest
  }

  /** Some candidate has a competitor: another candidate starting with its package name and '('. */
  predicate Model2Conflict(candidates: seq<string>) {
    exists i :: 0 <= i < |candidates| && Competing(candidates, GetPackname(candidates[i]), candidates[i]) != []
  }

  /** `detect_model_2_conflict_from_distkey(distkey, edeps)`, run on strawman1's candidates. */
  function DetectModel2(distkey: string, edeps: Edeps, fuel: nat): Result<bool> {
    match Strawman1(distkey, edeps, fuel)
    case Err(e) => Err(e)
    case Ok(candidates) => Ok(Model2Conflict(candidates))
  }

  /** `detect_model_2_conflict_from_distkey`: strawman1's candidates, then the search for a competitor. */
  method DetectModel2Method(distkey: string, edeps: Edeps, fuel: nat) returns (r: Result<bool>)
    ensures r == DetectModel2(distkey, edeps, fuel)
  {
    var result := Strawman1Method(distkey, edeps, fuel);
    if result.Err? {
      return Err(result.error);
    }
    var found := FindCompetitor(result.value);
    return Ok(found);
  }

  /** The loop of `detect_model_2_conflict_from_distkey` over the candidates. */
  method FindCompetitor(candidates: seq<string>) returns (found: bool)
    ensures found == Model2Conflict(candidates)
  {
    for i := 0 to |candidates|
      invariant forall k :: 0 <= k < i ==> Competing(candidates, GetPackname(candidates[k]), candidates[k]) == []
    {
      var (packname, version) := GetPackAndVersion(candidates[i]);
      var competing := Competing(candidates, packname, candidates[i]);
      if competing != [] {
        return true;
      }
    }
    return false;
  }

  /** For a dist name without '(', starting with name + '(' is having that package name, given a '(' in the key. */
  lemma StartsWithPackname(c: string, p: string)
    requires '(' !in p
    ensures StartsWith(c, p + "(") ==> GetPackname(c) == p
    ensures '(' in c && GetPackname(c) == p ==> StartsWith(c, p + "(")
  {
    OccursAtSlice(c, p + "(", 0);
    PacknameIsPrefix(c);
    if StartsWith(c, p + "(") {
      assert c[..|p| + 1] == p + "(";
      assert c[..|p|] == p && c[|p|] == '(';
      assert forall j :: 0 <= j < |p| ==> c[j] == p[j];
      var k := OpenParen(c);
      assert k == |p|;
    }
    if '(' in c && GetPackname(c) == p {
      assert c[..|p| + 1] == p + "(";
    }
  }

  /**
   * Among formatted distkeys, a model-2 conflict is exactly two different
   * candidates of one package (equivalent version strings included).
   */
  lemma Model2ConflictIff(candidates: seq<string>)
    requires forall x :: x in candidates ==> '(' in x
    ensures Model2Conflict(candidates) <==> TwoDistsOfOnePackage(candidates)
  {
    if Model2Conflict(candidates) {
      var i :| 0 <= i < |candidates| && Competing(candidates, GetPackname(candidates[i]), candidates[i]) != [];
      var cs := Competing(candidates, GetPackname(candidates[i]), candidates[i]);
      assert cs[0] in cs;
      var j :| 0 <= j < |candidates| && candidates[j] == cs[0];
      PacknameIsPrefix(candidates[i]);
      StartsWithPackname(candidates[j], GetPackname(candidates[i]));
    }
    if TwoDistsOfOnePackage(candidates) {
      var i, j :| 0 <= i < |candidates| && 0 <= j < |candidates| &&
        candidates[i] != candidates[j] && GetPackname(candidates[i]) == GetPackname(candidates[j]);
      PacknameIsPrefix(candidates[i]);
      assert candidates[j] in candidates;
      StartsWithPackname(candidates[j], GetPackname(candidates[i]));
      assert candidates[j] in Competing(candidates, GetPackname(candidates[i]), candidates[i]);
    }
  }

  /** Two different candidates of one package. */
  predicate TwoDistsOfOnePackage(candidates: seq<string>) {
    exists i, j :: 0 <= i < |candidates| && 0 <= j < |candidates| &&
      candidates[i] != candidates[j] && GetPackname(candidates[i]) == GetPackname(candidates[j])
  }

  /** A model-2 conflict is reported exactly when strawman1 picks two different dists of one package. */
  lemma DetectModel2Iff(distkey: string, edeps: Edeps, fuel: nat)
    ensures var r := DetectModel2(distkey, edeps, fuel);
      r.Ok? ==> (r.value <==> TwoDistsOfOnePackage(Strawman1(distkey, edeps, fuel).value))
  {
    var s := Strawman1(distkey, edeps, fuel);
    if s.Ok? {
      Strawman1Chooses(distkey, edeps, fuel);
      Model2ConflictIff(s.value);
    }
  }

  // ---------------------------------------------------------------------
  // fully_satisfy_strawman2

  /**
   * `fully_satisfy_strawman2(distkey, edeps)`: like the backtracker, but each
   * child starts from nothing and a version is rejected only when merging its
   * result creates a direct conflict; errors from children are not caught.
   */
  function Strawman2(distkey: string, edeps: Edeps, fuel: nat): Result<seq<string>>
    decreases fuel, 0, 0
  {
    if fuel == 0 then Err(RecursionLimit)
    else if distkey !in edeps then Err(MissingDependencyInfo)
    else if edeps[distkey] == [] then Ok([distkey])
    else Strawman2Deps(edeps[distkey], edeps, [distkey], fuel - 1)
  }

  /** The loop of strawman2 over edeps, from candidate list s on. */
  function Strawman2Deps(es: seq<Edep>, edeps: Edeps, s: seq<string>, fuel: nat): Result<seq<string>>
    decreases fuel, 3, |es|
  {
    if es == [] then Ok(s)
    else
      match Strawman2Step(es[0], edeps, s, fuel)
      case Err(e) => Err(e)
      case Ok(t) => Strawman2Deps(es[1..], edeps, t, fuel)
  }

  /** One pass of the loop over edeps in strawman2. */
  function Strawman2Step(e: Edep, edeps: Edeps, s: seq<string>, fuel: nat): Result<seq<string>>
    decreases fuel, 2, 0
  {
    var vs := SortVersions(e.versions);
    if vs == [] then Err(NoSatisfyingVersion)
    else Strawman2Try(e.packname, vs, edeps, s, fuel)
  }

  /** The loop of strawman2 over candidate versions, newest first. */
  function Strawman2Try(p: string, vs: seq<string>, edeps: Edeps, s: seq<string>, fuel: nat): Result<seq<string>>
    decreases fuel, 1, |vs|
  {
    if vs == [] then Err(UnresolvableConflict)
    else
      match Strawman2(DistkeyFormat(p, vs[0]), edeps, fuel)
      case Err(e) => Err(e)
      case Ok(sub) =>
        var combined := Combine(s, sub);
        if HasDirectConflict(combined) then Strawman2Try(p, vs[1..], edeps, s, fuel)
        else Ok(combined)
  }

  /** A single dist conflicts with nothing. */
  lemma SingletonNoConflict(d: string)
    ensures !HasDirectConflict([d])
  {
    var p := GetPackname(d);
    assert MatchingFrom(p, [d], 1) == [];
    assert Matching(p, [d]) == [d];
    assert OtherThan(d, [d]) == [];
    assert ConflictsWith([d][0], [d]) == [];
  }

  /** A solution of strawman2 holds the dist asked for and has no direct conflict. */
  lemma {:induction false} Strawman2Sound(distkey: string, edeps: Edeps, fuel: nat)
    ensures var r := Strawman2(distkey, edeps, fuel);
      r.Ok? ==> distkey in r.value && !HasDirectConflict(r.value)
    decreases fuel, 0, 0
  {
    if fuel > 0 && distkey in edeps {
      if edeps[distkey] == [] {
        SingletonNoConflict(distkey);
      } else {
        Strawman2DepsSound(edeps[distkey], edeps, [distkey], fuel - 1);
      }
    }
  }

  lemma {:induction false} Strawman2DepsSound(es: seq<Edep>, edeps: Edeps, s: seq<string>, fuel: nat)
    requires es != []
    ensures var r := Strawman2Deps(es, edeps, s, fuel);
      r.Ok? ==> (forall d :: d in s ==> d in r.value) && !HasDirectConflict(r.value)
    decreases fuel, 3, |es|
  {
    Strawman2TrySound(es[0].packname, SortVersions(es[0].versions), edeps, s, fuel);
    var t := Strawman2Step(es[0], edeps, s, fuel);
    if t.Ok? && es[1..] != [] {
      Strawman2DepsSound(es[1..], edeps, t.value, fuel);
    }
  }

  lemma {:induction false} Strawman2TrySound(p: string, vs: seq<string>, edeps: Edeps, s: seq<string>, fuel: nat)
    ensures var r := Strawman2Try(p, vs, edeps, s, fuel);
      r.Ok? ==> (forall d :: d in s ==> d in r.value) && !HasDirectConflict(r.value)
    decreases fuel, 1, |vs|
  {
    if vs != [] {
      Strawman2TrySound(p, vs[1..], edeps, s, fuel);
    }
  }

  /** `fully_satisfy_strawman2(distkey, edeps)` */
  method Strawman2Method(distkey: string, edeps: Edeps, fuel: nat) returns (r: Result<seq<string>>)
    ensures r == Strawman2(distkey, edeps, fuel)
    decreases fuel, 0
  {
    if fuel == 0 {
      return Err(RecursionLimit);
    }
    if distkey !in edeps {
      return Err(MissingDependencyInfo);
    }
    var myEdeps := edeps[distkey];
    var satisfying := [distkey];
    if myEdeps == [] {
      return Ok(satisfying);
    }
    r := Strawman2Edeps(myEdeps, edeps, satisfying, fuel - 1);
  }

  /** The loop of `fully_satisfy_strawman2` over edeps, from candidate list satisfying on. */
  method Strawman2Edeps(myEdeps: seq<Edep>, edeps: Edeps, satisfying: seq<string>, fuel: nat) returns (r: Result<seq<string>>)
    ensures r == Strawman2Deps(myEdeps, edeps, satisfying, fuel)
    decreases fuel, 3
  {
    var current := satisfying;
    assert myEdeps[0..] == myEdeps;
    for i := 0 to |myEdeps|
      invariant Strawman2Deps(myEdeps[i..], edeps, current, fuel) == Strawman2Deps(myEdeps, edeps, satisfying, fuel)
    {
      assert myEdeps[i..][0] == myEdeps[i] && myEdeps[i..][1..] == myEdeps[i + 1..];
      var step := Strawman2HandleEdep(myEdeps[i], edeps, current, fuel);
      if step.Err? {
        return Err(step.error);
      }
      current := step.value;
    }
    assert myEdeps[|myEdeps|..] == [];
    return Ok(current);
  }

  /** The body of the loop over edeps in `fully_satisfy_strawman2`, for one edep. */
  method Strawman2HandleEdep(edep: Edep, edeps: Edeps, current: seq<string>, fuel: nat) returns (r: Result<seq<string>>)
    ensures r == Strawman2Step(edep, edeps, current, fuel)
    decreases fuel, 2
  {
    var versions := SortVersions(edep.versions);
    if versions == [] {
      return Err(NoSatisfyingVersion);
    }
    SortVersionsIdempotent(edep.versions);
    r := Strawman2TryVersions(edep.packname, SortVersions(versions), edeps, current, fuel);
  }

  /** The loop of `fully_satisfy_strawman2` over candidate versions, newest first. */
  method Strawman2TryVersions(packname: string, versions: seq<string>, edeps: Edeps, satisfying: seq<string>, fuel: nat)
    returns (r: Result<seq<string>>)
    ensures r == Strawman2Try(packname, versions, edeps, satisfying, fuel)
    decreases fuel, 1
  {
    assert versions[0..] == versions;
    for j := 0 to |versions|
      invariant Strawman2Try(packname, versions[j..], edeps, satisfying, fuel) == Strawman2Try(packname, versions, edeps, satisfying, fuel)
    {
      assert versions[j..][0] == versions[j] && versions[j..][1..] == versions[j + 1..];
      var candidate := DistkeyFormat(packname, versions[j]);
      var sub := Strawman2Method(candidate, edeps, fuel);
      if sub.Err? {
        return Err(sub.error);
      }
      var combined := Combine(satisfying, sub.value);
      var conflict := DetectDirectConflict(combined);
      if !conflict {
        return Ok(combined);
      }
    }
    assert versions[|versions|..] == [];
    return Err(UnresolvableConflict);
  }
}
