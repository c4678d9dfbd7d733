/**
 * Version specifier strings such as ">=2,<4", as pip's `SpecifierSet`
 * reads them: clauses separated by commas, each an operator followed by a
 * version, all of which a version must satisfy. The empty string has no
 * clauses and admits every version.
 */
module Specifiers {
  import opened PyStr
  import opened Versions

  datatype Op = Arbitrary | Compatible | Eq | Ne | Le | Ge | Lt | Gt

  datatype Clause = Clause(op: Op, version: string)

  /** The operators, longest spelling first so that "===" is not read as "==". */
  const Operators: seq<(string, Op)> := [
    ("===", Arbitrary), ("~=", Compatible), ("==", Eq), ("!=", Ne),
    ("<=", Le), (">=", Ge), ("<", Lt), (">", Gt)]

  /** The first operator in `ops` that the clause starts with. */
  function MatchOperator(s: string, ops: seq<(string, Op)>): (r: Option<(string, Op)>)
    ensures r.Some? ==> r.value in ops && StartsWith(s, r.value.0)
    ensures r.None? ==> forall k :: 0 <= k < |ops| ==> !StartsWith(s, ops[k].0)
  {
    if ops == [] then None
    else if StartsWith(s, ops[0].0) then Some(ops[0])
    else MatchOperator(s, ops[1..])
  }

  /** One stripped clause; None when it has no known operator or no version. */
  function ParseClause(s: string): (r: Option<Clause>)
    ensures r.Some? ==> r.value.version != []
  {
    match MatchOperator(s, Operators)
    case None => None
    case Some((text, op)) =>
      var v := Strip(s[|text|..]);
      if v == [] then None
      else if op == Compatible && !(Parse(v).Release? && |Parse(v).parts| >= 2) then None
      else Some(Clause(op, v))
  }

  /** The non-empty stripped comma-separated pieces of a specifier string. */
  function Pieces(parts: seq<string>): (r: seq<string>)
    ensures forall k :: 0 <= k < |r| ==> r[k] != []
  {
    if parts == [] then []
    else if Strip(parts[0]) == [] then Pieces(parts[1..])
    else [Strip(parts[0])] + Pieces(parts[1..])
  }

  function ParseClauses(pieces: seq<string>): (r: Option<seq<Clause>>)
    ensures r.Some? ==> |r.value| == |pieces|
  {
    if pieces == [] then Some([])
    else match (ParseClause(pieces[0]), ParseClauses(pieces[1..]))
      case (Some(c), Some(cs)) => Some([c] + cs)
      case (_, _) => None
  }

  /** `SpecifierSet(spec)`: its clauses, or None when one of them is malformed. */
  function ParseSpec(spec: string): Option<seq<Clause>> {
    ParseClauses(Pieces(Split(spec, ',')))
  }

  /** The first `n` components of a release, padded with zeros. */
  function Prefix(parts: seq<nat>, n: nat): (r: seq<nat>)
    ensures |r| == n
  {
    if n == 0 then []
    else [if parts == [] then 0 else parts[0]] + Prefix(if parts == [] then [] else parts[1..], n - 1)
  }

  /** Whether version v satisfies one clause. */
  predicate ClauseSat(c: Clause, v: string) {
    var cmp := Cmp(Parse(v), Parse(c.version));
    match c.op
    case Arbitrary => v == c.version
    case Eq => cmp == 0
    case Ne => cmp != 0
    case Le => cmp <= 0
    case Ge => cmp >= 0
    case Lt => cmp < 0
    case Gt => cmp > 0
    case Compatible =>
      var w := Parse(c.version);
      cmp >= 0 && w.Release? && |w.parts| >= 2 && Parse(v).Release? &&
      Prefix(Parse(v).parts, |w.parts| - 1) == w.parts[..|w.parts| - 1]
  }

  /** `v in SpecifierSet(spec)`; a malformed specifier admits nothing. */
  predicate Sat(spec: string, v: string) {
    match ParseSpec(spec)
    case None => false
    case Some(cs) => forall k :: 0 <= k < |cs| ==> ClauseSat(cs[k], v)
  }

  /**
   * Stands for `SpecifierSet(spec).filter(versions)`: the versions `Sat`
   * admits, in their order. pip's filter also holds back legacy versions and
   * pre-releases in some cases; this one does not.
   */
  function Filter(spec: string, versions: seq<string>): (r: seq<string>)
    ensures |r| <= |versions|
    ensures forall v :: v in r <==> v in versions && Sat(spec, v)
  {
    if versions == [] then []
    else
      var rest := Filter(spec, versions[1..]);
      assert versions == [versions[0]] + versions[1..];
      if Sat(spec, versions[0]) then [versions[0]] + rest else rest
  }

  /** `Filter` keeps the order of its input: its result is a subsequence of it. */
  predicate IsSubsequence(r: seq<string>, s: seq<string>)
    decreases |s|
  {
    r == [] || (s != [] && ((r[0] == s[0] && IsSubsequence(r[1..], s[1..])) || IsSubsequence(r, s[1..])))
  }

  lemma {:induction false} FilterIsSubsequence(spec: string, versions: seq<string>)
    ensures IsSubsequence(Filter(spec, versions), versions)
  {
    if versions != [] {
      FilterIsSubsequence(spec, versions[1..]);
      var r := Filter(spec, versions);
      if Sat(spec, versions[0]) {
        assert r[1..] == Filter(spec, versions[1..]);
      }
    }
  }

  /** Filtering twice by the same specifier changes nothing the second time. */
  lemma {:induction false} FilterIdempotent(spec: string, versions: seq<string>)
    ensures Filter(spec, Filter(spec, versions)) == Filter(spec, versions)
  {
    if versions != [] {
      FilterIdempotent(spec, versions[1..]);
    }
  }

  /** Filters by two specifiers commute. */
  lemma {:induction false} FilterCommutes(a: string, b: string, versions: seq<string>)
    ensures Filter(a, Filter(b, versions)) == Filter(b, Filter(a, versions))
  {
    if versions != [] {
      FilterCommutes(a, b, versions[1..]);
    }
  }

  /** The empty specifier admits every version. */
  lemma EmptySpecAdmitsAll(v: string)
    ensures Sat("", v)
  {
    assert Split("", ',') == [""];
    assert Pieces([""]) == [];
  }
}
