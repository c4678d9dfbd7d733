/**
 * Conversion of the raw dependency data into the input strings of the
 * depsolver SAT solver (resolver/depsolver_integrate.py). A dist `X(1)`
 * becomes the depsolver name `X-1.0.0`, and its deps become the clause list
 * of a `PackageInfo` string such as `B-1.0.0; depends (A >= 2.0.0, A < 4.0.0)`.
 */
module DepsolverIntegrate {
  import opened PyStr
  import opened Errors
  import opened DistKeys
  import opened DepTools

  // ---------------------------------------------------------------------
  // convert_version_into_depsolver, convert_distkey_for_depsolver

  /** `convert_version_into_depsolver(version_string)`: every version is taken to be single-unit. */
  function ConvertVersion(version: string): string {
    version + ".0.0"
  }

  /** The converted version is the version followed by ".0.0", so the conversion loses nothing. */
  lemma ConvertVersionInverse(v: string, w: string)
    ensures EndsWith(ConvertVersion(v), ".0.0")
    ensures ConvertVersion(v)[..|ConvertVersion(v)| - 4] == v
    ensures ConvertVersion(v) == ConvertVersion(w) ==> v == w
  {
    var c := ConvertVersion(v);
    assert c[|c| - 4..] == ".0.0";
    OccursAtSlice(c, ".0.0", |c| - 4);
    assert c[..|c| - 4] == v;
    if c == ConvertVersion(w) {
      assert ConvertVersion(w)[..|ConvertVersion(w)| - 4] == w;
    }
  }

  /** The separator between name and version: '==' in a requirement, '-' in a package name. */
  function Separator(asReq: bool): string {
    if asReq then "==" else "-"
  }

  /** `convert_distkey_for_depsolver(distkey, as_req)` */
  function ConvertDistkey(distkey: string, asReq: bool): string {
    var (packname, version) := GetPackAndVersion(distkey);
    packname + Separator(asReq) + ConvertVersion(version)
  }

  /** A distkey `p(v)` becomes `p-v.0.0`, or `p==v.0.0` as a requirement. */
  lemma ConvertDistkeyOfFormat(p: string, v: string, asReq: bool)
    requires '(' !in p
    ensures ConvertDistkey(DistkeyFormat(p, v), asReq) == p + Separator(asReq) + v + ".0.0"
  {
    SplitFormat(p, v);
  }

  /** 'X(1)' becomes 'X-1.0.0', and 'X==1.0.0' as a requirement. */
  lemma ConvertDistkeyExample(d: string)
    requires d == "X(1)"
    ensures ConvertDistkey(d, false) == "X-1.0.0"
    ensures ConvertDistkey(d, true) == "X==1.0.0"
  {
    assert DistkeyFormat("X", "1") == d;
    ConvertDistkeyOfFormat("X", "1", false);
    ConvertDistkeyOfFormat("X", "1", true);
  }

  // ---------------------------------------------------------------------
  // convert_dist_to_packageinfo_for_depsolver

  /** The clause one specifier contributes: `name op version.0.0`. */
  function SpecClause(packname: string, t: SpecTuple): string {
    packname + " " + t.0 + " " + ConvertVersion(t.1)
  }

  /** The clauses of a constrained dep, one per specifier. */
  function SpecClauses(packname: string, ts: seq<SpecTuple>): (r: seq<string>)
    ensures |r| == |ts|
  {
    if ts == [] then []
    else SpecClauses(packname, ts[..|ts| - 1]) + [SpecClause(packname, ts[|ts| - 1])]
  }

  /** The clauses of one dep: its name alone when it is unconstrained. */
  function DepClauses(dep: RawDep): seq<string> {
    if dep.1 == [] then [dep.0] else SpecClauses(dep.0, dep.1)
  }

  /** The clauses of all deps of a dist, in order. */
  function Clauses(ds: seq<RawDep>): seq<string> {
    if ds == [] then []
    else Clauses(ds[..|ds| - 1]) + DepClauses(ds[|ds| - 1])
  }

  /** The clauses, each followed by ", ": the text the loops spool up. */
  function Terminated(cs: seq<string>): string {
    if cs == [] then ""
    else Terminated(cs[..|cs| - 1]) + cs[|cs| - 1] + ", "
  }

  /** The clauses separated by ", ": the text depsolver reads. */
  function Join(cs: seq<string>): string {
    if cs == [] then ""
    else if |cs| == 1 then cs[0]
    else Join(cs[..|cs| - 1]) + ", " + cs[|cs| - 1]
  }

  lemma {:induction false} TerminatedAppend(a: seq<string>, b: seq<string>)
    ensures Terminated(a + b) == Terminated(a) + Terminated(b)
    decreases |b|
  {
    if b == [] {
      assert a + b == a;
    } else {
      var init := b[..|b| - 1];
      assert (a + b)[..|a + b| - 1] == a + init;
      TerminatedAppend(a, init);
    }
  }

  /** Dropping the final ", " of the spooled text leaves the clauses joined by ", ". */
  lemma {:induction false} TerminatedIsJoin(cs: seq<string>)
    requires cs != []
    ensures |Terminated(cs)| >= 2
    ensures Terminated(cs)[..|Terminated(cs)| - 2] == Join(cs)
  {
    var init := cs[..|cs| - 1];
    if |cs| == 1 {
      assert init == [];
      assert Terminated(cs) == cs[0] + ", ";
    } else {
      TerminatedIsJoin(init);
      var t := Terminated(init);
      assert Terminated(cs) == t + cs[|cs| - 1] + ", ";
      assert Terminated(cs)[..|Terminated(cs)| - 2] == t + cs[|cs| - 1];
      assert t == t[..|t| - 2] + ", ";
    }
  }

  /** The spooled text has two characters per clause beyond the clauses themselves. */
  lemma {:induction false} TerminatedLength(cs: seq<string>)
    ensures |Terminated(cs)| >= 2 * |cs|
    ensures |Terminated(cs)| <= 2 ==> cs == [] || cs == [""]
  {
    if cs != [] {
      var init := cs[..|cs| - 1];
      TerminatedLength(init);
      if |Terminated(cs)| <= 2 {
        assert init == [];
        assert cs == [cs[0]];
      }
    }
  }

  lemma {:induction false} SpecClausesNonEmpty(p: string, ts: seq<SpecTuple>)
    ensures forall k :: 0 <= k < |ts| ==> SpecClauses(p, ts)[k] != ""
  {
    if ts != [] {
      SpecClausesNonEmpty(p, ts[..|ts| - 1]);
      assert |SpecClause(p, ts[|ts| - 1])| > 0;
    }
  }

  /** Every dep contributes at least one clause; only an unnamed, unconstrained dep an empty one. */
  lemma {:induction false} ClausesShape(ds: seq<RawDep>)
    ensures |Clauses(ds)| >= |ds|
    ensures Clauses(ds) == [""] <==> ds == [("", [])]
  {
    if ds != [] {
      var init, d := ds[..|ds| - 1], ds[|ds| - 1];
      ClausesShape(init);
      SpecClausesNonEmpty(d.0, d.1);
      if Clauses(ds) == [""] {
        assert init == [] by {
          assert |Clauses(init)| + |DepClauses(d)| == 1;
          if d.1 != [] {
            assert |DepClauses(d)| >= 1;
          }
        }
        assert Clauses(init) == [];
        assert Clauses(ds) == DepClauses(d);
        assert DepClauses(d)[0] == "";
        assert d.1 == [];
        assert ds == [d];
      }
      if ds == [("", [])] {
        assert init == [];
        assert Clauses(ds) == [] + [""];
      }
    }
  }

  /**
   * `convert_dist_to_packageinfo_for_depsolver(distkey, deps)` on the deps
   * ds of distkey: the converted key alone when there are no deps;
   * otherwise the key, '; depends (', the spooled clauses without their
   * final ', ', and ')'. The `assert len(my_ds_deps) > 2` fails when the
   * spooled text is non-empty but that short.
   */
  function PackageInfoString(distkey: string, ds: seq<RawDep>): Result<string> {
    var key := ConvertDistkey(distkey, false);
    var text := Terminated(Clauses(ds));
    if text == "" then Ok(key)
    else if |text| <= 2 then Err(AssertionFailed)
    else Ok(key + "; depends (" + text[..|text| - 2] + ")")
  }

  /**
   * A dist without deps is its converted key; otherwise its clauses are
   * listed, separated by ', '. The assertion fails only for the single
   * dep with an empty name and no specifiers.
   */
  lemma PackageInfoMeaning(distkey: string, ds: seq<RawDep>)
    ensures ds == [] ==> PackageInfoString(distkey, ds) == Ok(ConvertDistkey(distkey, false))
    ensures PackageInfoString(distkey, ds).Err? <==> ds == [("", [])]
    ensures ds != [] && ds != [("", [])] ==>
      PackageInfoString(distkey, ds) == Ok(ConvertDistkey(distkey, false) + "; depends (" + Join(Clauses(ds)) + ")")
  {
    var cs := Clauses(ds);
    ClausesShape(ds);
    TerminatedLength(cs);
    if ds != [] {
      TerminatedIsJoin(cs);
      if ds == [("", [])] {
        assert Terminated(cs) == Terminated([]) + "" + ", ";
      }
    }
  }

  /** The only way the conversion of one dist fails is the assertion. */
  lemma PackageInfoFails(distkey: string, ds: seq<RawDep>)
    ensures PackageInfoString(distkey, ds).Err? ==> PackageInfoString(distkey, ds).error == AssertionFailed
  {
  }

  /** The deps of a distkey in the dictionary: the entry with that key, if any. */
  function Lookup(deps: Deps, distkey: string): Option<seq<RawDep>> {
    if deps == [] then None
    else if deps[0].0 == distkey then Some(deps[0].1)
    else Lookup(deps[1..], distkey)
  }

  /** Looking up a key of the dictionary finds its own entry; any other key finds nothing. */
  lemma {:induction false} LookupFinds(deps: Deps, distkey: string)
    requires DistinctKeys(deps)
    ensures Lookup(deps, distkey) == None <==> distkey !in Distkeys(deps)
    ensures forall i :: 0 <= i < |deps| && deps[i].0 == distkey ==> Lookup(deps, distkey) == Some(deps[i].1)
  {
    if deps != [] {
      LookupFinds(deps[1..], distkey);
      assert Distkeys(deps) == [deps[0].0] + Distkeys(deps[1..]);
      forall i | 1 <= i < |deps| && deps[i].0 == distkey
        ensures Lookup(deps, distkey) == Some(deps[i].1)
      {
        assert deps[1..][i - 1] == deps[i];
      }
    }
  }

  /** The text the inner loop spools for one dep. */
  method SpoolDep(dep: RawDep) returns (thisDsDep: string)
    ensures thisDsDep == Terminated(DepClauses(dep))
  {
    var (satisfyingPackname, satisfyingSpecifiers) := dep;
    thisDsDep := "";
    if satisfyingSpecifiers == [] {
      thisDsDep := satisfyingPackname + ", ";
      assert Terminated([satisfyingPackname]) == Terminated([]) + satisfyingPackname + ", ";
    } else {
      for j := 0 to |satisfyingSpecifiers|
        invariant thisDsDep == Terminated(SpecClauses(satisfyingPackname, satisfyingSpecifiers[..j]))
      {
        var (op, ver) := satisfyingSpecifiers[j];
        var clauses := SpecClauses(satisfyingPackname, satisfyingSpecifiers[..j + 1]);
        assert satisfyingSpecifiers[..j + 1][..j] == satisfyingSpecifiers[..j];
        assert clauses[..|clauses| - 1] == SpecClauses(satisfyingPackname, satisfyingSpecifiers[..j]);
        thisDsDep := thisDsDep + satisfyingPackname + " " + op + " " + ConvertVersion(ver) + ", ";
      }
      assert satisfyingSpecifiers[..|satisfyingSpecifiers|] == satisfyingSpecifiers;
    }
  }

  /** The outer loop of the conversion: the text spooled for all deps of a dist, in order. */
  method SpoolDeps(ds: seq<RawDep>) returns (myDsDeps: string)
    ensures myDsDeps == Terminated(Clauses(ds))
  {
    myDsDeps := "";
    for i := 0 to |ds|
      invariant myDsDeps == Terminated(Clauses(ds[..i]))
    {
      var thisDsDep := SpoolDep(ds[i]);
      assert ds[..i + 1][..i] == ds[..i] && ds[..i + 1][i] == ds[i];
      TerminatedAppend(Clauses(ds[..i]), DepClauses(ds[i]));
      myDsDeps := myDsDeps + thisDsDep;
    }
    assert ds[..|ds|] == ds;
  }

  /**
   * `convert_dist_to_packageinfo_for_depsolver(distkey, deps)`, returning
   * the string handed to `PackageInfo.from_string`; KeyError when distkey
   * has no entry.
   */
  method ConvertDistToPackageinfo(distkey: string, deps: Deps) returns (r: Result<string>)
    ensures Lookup(deps, distkey) == None ==> r == Err(KeyError)
    ensures Lookup(deps, distkey).Some? ==> r == PackageInfoString(distkey, Lookup(deps, distkey).value)
  {
    var myDsDistkey := ConvertDistkey(distkey, false);
    var found := Lookup(deps, distkey);
    if found == None {
      return Err(KeyError);
    }
    var ds := found.value;
    var myDsDeps := SpoolDeps(ds);
    var dsPackageinfostr := myDsDistkey;
    if myDsDeps != "" {
      if |myDsDeps| <= 2 {
        return Err(AssertionFailed);
      }
      myDsDeps := myDsDeps[..|myDsDeps| - 2];
      dsPackageinfostr := dsPackageinfostr + "; depends (" + myDsDeps + ")";
    }
    return Ok(dsPackageinfostr);
  }

  // ---------------------------------------------------------------------
  // convert_packs_to_packageinfo_for_depsolver

  /** Results collected in order: all their values, or the first error. */
  function Collect(rs: seq<Result<string>>): Result<seq<string>>
    decreases |rs|
  {
    if rs == [] then Ok([])
    else
      var front := Collect(rs[..|rs| - 1]);
      var last := rs[|rs| - 1];
      if front.Err? then front
      else if last.Err? then Err(last.error)
      else Ok(front.value + [last.value])
  }

  /**
   * Collecting succeeds exactly when every result is a value, and then
   * keeps each value at its position; a failure is one of the errors.
   */
  lemma {:induction false} CollectMeaning(rs: seq<Result<string>>)
    ensures Collect(rs).Ok? <==> forall i :: 0 <= i < |rs| ==> rs[i].Ok?
    ensures Collect(rs).Err? ==> exists i :: 0 <= i < |rs| && rs[i] == Err(Collect(rs).error)
    ensures Collect(rs).Ok? ==> |Collect(rs).value| == |rs|
    ensures Collect(rs).Ok? ==> forall i :: 0 <= i < |rs| ==> Collect(rs).value[i] == rs[i].value
    decreases |rs|
  {
    if rs != [] {
      var n := |rs| - 1;
      var front := rs[..n];
      CollectMeaning(front);
      assert forall i :: 0 <= i < n ==> front[i] == rs[i];
      if Collect(front).Err? {
        var i :| 0 <= i < n && front[i] == Err(Collect(front).error);
        assert rs[i] == Err(Collect(rs).error);
      }
    }
  }

  /** The conversion of every entry of the dictionary, in order. */
  function Conversions(deps: Deps): seq<Result<string>> {
    seq(|deps|, i requires 0 <= i < |deps| => PackageInfoString(deps[i].0, deps[i].1))
  }

  /**
   * What `convert_packs_to_packageinfo_for_depsolver(deps)` computes: one
   * PackageInfo string per distkey, in the dictionary's order, or the
   * first failed assertion.
   */
  function PackageInfos(deps: Deps): Result<seq<string>> {
    Collect(Conversions(deps))
  }

  /**
   * The conversion succeeds exactly when every entry converts, and then
   * lists every entry's PackageInfo string at the entry's own position;
   * the only failure is the assertion.
   */
  lemma PackageInfosMeaning(deps: Deps)
    ensures PackageInfos(deps).Ok? <==> forall i :: 0 <= i < |deps| ==> PackageInfoString(deps[i].0, deps[i].1).Ok?
    ensures PackageInfos(deps).Err? ==> PackageInfos(deps).error == AssertionFailed
    ensures PackageInfos(deps).Ok? ==> |PackageInfos(deps).value| == |deps|
    ensures PackageInfos(deps).Ok? ==>
      forall i :: 0 <= i < |deps| ==> PackageInfos(deps).value[i] == PackageInfoString(deps[i].0, deps[i].1).value
  {
    var rs := Conversions(deps);
    assert |rs| == |deps|;
    assert forall i :: 0 <= i < |deps| ==> rs[i] == PackageInfoString(deps[i].0, deps[i].1);
    CollectMeaning(rs);
    if Collect(rs).Err? {
      var i :| 0 <= i < |rs| && rs[i] == Err(Collect(rs).error);
      PackageInfoFails(deps[i].0, deps[i].1);
      assert rs[i] == PackageInfoString(deps[i].0, deps[i].1);
    }
  }

  /** `convert_packs_to_packageinfo_for_depsolver(deps)`. */
  method ConvertPacks(deps: Deps) returns (r: Result<seq<string>>)
    requires DistinctKeys(deps)
    ensures r == PackageInfos(deps)
  {
    var packageinfos: seq<string> := [];
    ghost var rs := Conversions(deps);
    for i := 0 to |deps|
      invariant Collect(rs[..i]) == Ok(packageinfos)
    {
      LookupEntry(deps, i);
      var info := ConvertDistToPackageinfo(deps[i].0, deps);
      assert info == rs[i];
      if info.Err? {
        FailedEntryFails(deps, i);
        return Err(info.error);
      }
      CollectSnoc(rs, i, packageinfos);
      packageinfos := packageinfos + [info.value];
    }
    assert rs[..|deps|] == rs;
    return Ok(packageinfos);
  }

  /** One more converted entry extends a successful prefix by its string. */
  lemma CollectSnoc(rs: seq<Result<string>>, i: nat, acc: seq<string>)
    requires i < |rs| && Collect(rs[..i]) == Ok(acc) && rs[i].Ok?
    ensures Collect(rs[..i + 1]) == Ok(acc + [rs[i].value])
  {
    assert rs[..i + 1][..i] == rs[..i];
  }

  /** One entry whose assertion fails makes the whole conversion fail with it. */
  lemma FailedEntryFails(deps: Deps, i: nat)
    requires i < |deps| && PackageInfoString(deps[i].0, deps[i].1).Err?
    ensures PackageInfos(deps) == Err(AssertionFailed)
  {
    PackageInfosMeaning(deps);
  }

  /** Each entry of a dictionary with distinct keys is what its own key looks up. */
  lemma LookupEntry(deps: Deps, i: nat)
    requires DistinctKeys(deps) && i < |deps|
    ensures Lookup(deps, deps[i].0) == Some(deps[i].1)
  {
    LookupFinds(deps, deps[i].0);
  }

  /** The clauses of B(1)'s one dep on A. */
  lemma ClausesOfB(ds: seq<RawDep>)
    requires ds == [("A", [(">=", "2"), ("<", "4")])]
    ensures Clauses(ds) == ["A >= 2.0.0", "A < 4.0.0"]
  {
    var ts := ds[0].1;
    assert ts[..1] == [(">=", "2")] && ts[..1][..0] == [];
    assert SpecClause("A", (">=", "2")) == "A >= 2.0.0";
    assert SpecClause("A", ("<", "4")) == "A < 4.0.0";
    assert SpecClauses("A", ts[..1]) == [] + ["A >= 2.0.0"];
    var bc: seq<string> := ["A >= 2.0.0", "A < 4.0.0"];
    assert SpecClauses("A", ts) == bc;
    assert ds[..0] == [];
    assert Clauses(ds) == [] + bc;
  }

  lemma JoinOfB(cs: seq<string>)
    requires cs == ["A >= 2.0.0", "A < 4.0.0"]
    ensures Join(cs) == "A >= 2.0.0, A < 4.0.0"
  {
    assert cs[..1] == ["A >= 2.0.0"];
  }

  /** A single-unit distkey p(1) becomes p-1.0.0. */
  lemma KeyOfVersionOne(d: string, p: string)
    requires '(' !in p && d == p + "(1)"
    ensures ConvertDistkey(d, false) == p + "-1.0.0"
  {
    assert DistkeyFormat(p, "1") == d;
    ConvertDistkeyOfFormat(p, "1", false);
  }

  /** DEPS_SIMPLE's B(1), which needs A >= 2 and A < 4. */
  lemma PackageInfoOfB(d: string, ds: seq<RawDep>)
    requires d == "B(1)" && ds == [("A", [(">=", "2"), ("<", "4")])]
    ensures PackageInfoString(d, ds) == Ok("B-1.0.0; depends (A >= 2.0.0, A < 4.0.0)")
  {
    KeyOfVersionOne(d, "B");
    ClausesOfB(ds);
    JoinOfB(Clauses(ds));
    PackageInfoOfParts(d, ds, "B-1.0.0", "A >= 2.0.0, A < 4.0.0");
    DependsTextOfB("B-1.0.0", "A >= 2.0.0, A < 4.0.0");
  }

  /** A dist with deps other than the unnamed one: its key, then its joined clauses. */
  lemma PackageInfoOfParts(d: string, ds: seq<RawDep>, key: string, text: string)
    requires ConvertDistkey(d, false) == key && Join(Clauses(ds)) == text
    requires ds != [] && ds != [("", [])]
    ensures PackageInfoString(d, ds) == Ok(key + "; depends (" + text + ")")
  {
    PackageInfoMeaning(d, ds);
  }

  lemma DependsTextOfB(key: string, text: string)
    requires key == "B-1.0.0" && text == "A >= 2.0.0, A < 4.0.0"
    ensures key + "; depends (" + text + ")" == "B-1.0.0; depends (A >= 2.0.0, A < 4.0.0)"
  {
    var head := key + "; depends (";
    assert head == "B-1.0.0; depends (";
    assert head + text == "B-1.0.0; depends (A >= 2.0.0, A < 4.0.0";
  }

  /** The clauses of X(1)'s two unconstrained deps, and their joined text. */
  lemma ClausesOfX(x: seq<RawDep>)
    requires x == [("B", []), ("C", [])]
    ensures Clauses(x) == ["B", "C"] && Join(["B", "C"]) == "B, C"
  {
    assert x[..1] == [("B", [])] && x[..1][..0] == [];
    assert DepClauses(x[0]) == ["B"] && DepClauses(x[1]) == ["C"];
    assert Clauses(x[..1]) == [] + ["B"];
    var xc: seq<string> := ["B", "C"];
    assert Clauses(x) == xc;
    assert xc[..1] == ["B"];
  }

  /** DEPS_SIMPLE's X(1), which needs B and C. */
  lemma PackageInfoOfX(d: string, x: seq<RawDep>)
    requires d == "X(1)" && x == [("B", []), ("C", [])]
    ensures PackageInfoString(d, x) == Ok("X-1.0.0; depends (B, C)")
  {
    KeyOfVersionOne(d, "X");
    ClausesOfX(x);
    PackageInfoOfParts(d, x, "X-1.0.0", "B, C");
    DependsTextOfX("X-1.0.0", "B, C");
  }

  lemma DependsTextOfX(key: string, text: string)
    requires key == "X-1.0.0" && text == "B, C"
    ensures key + "; depends (" + text + ")" == "X-1.0.0; depends (B, C)"
  {
  }

  /** DEPS_SIMPLE's A(1), which needs nothing. */
  lemma PackageInfoOfA(d: string)
    requires d == "A(1)"
    ensures PackageInfoString(d, []) == Ok("A-1.0.0")
  {
    KeyOfVersionOne(d, "A");
    assert ConvertDistkey(d, false) == "A-1.0.0";
    PackageInfoMeaning(d, []);
  }
}
