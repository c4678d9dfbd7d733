/**
 * Version strings and their order, as the resolver obtains them from pip's
 * `packaging` library (`pip._vendor.packaging.version.parse`) and from
 * `depdata.versions_are_equal`.
 *
 * A version made of dot-separated decimal numbers is a release, compared
 * component by component with missing components read as zero, so "1.0" and
 * "1" are equal and "1.10" is above "1.9". Any other string is a legacy
 * version: legacy versions sort below every release and compare among
 * themselves by their text.
 */
module Versions {
  import opened PyStr

  datatype Version = Release(parts: seq<nat>) | Legacy(text: string)

  predicate IsDigit(c: char) {
    '0' <= c <= '9'
  }

  /**
   * Reads dot-separated decimal numbers from index i on: cur is the value of
   * the component being read and seen whether it has a digit yet. None when
   * the text is not of that form.
   */
  function ReleaseFrom(v: string, i: nat, cur: nat, seen: bool): (r: Option<seq<nat>>)
    requires i <= |v|
    ensures r.Some? ==> |r.value| >= 1
    decreases |v| - i
  {
    if i == |v| then (if seen then Some([cur]) else None)
    else if IsDigit(v[i]) then ReleaseFrom(v, i + 1, cur * 10 + (v[i] as int - '0' as int), true)
    else if v[i] == '.' && seen then
      var rest := ReleaseFrom(v, i + 1, 0, false);
      if rest.Some? then Some([cur] + rest.value) else None
    else None
  }

  /** `parse(v)`: a release when v is dotted decimal numbers, a legacy version otherwise. */
  function Parse(v: string): (r: Version)
    ensures r.Legacy? ==> r.text == v
    ensures r.Release? ==> |r.parts| >= 1
  {
    match ReleaseFrom(v, 0, 0, false)
    case Some(parts) => Release(parts)
    case None => Legacy(v)
  }

  /** Component k of a release, reading a missing component as zero. */
  function Part(a: seq<nat>, k: nat): nat {
    if k < |a| then a[k] else 0
  }

  /** Three-way comparison of release components from index k on, padding the shorter with zeros. */
  function CmpPartsFrom(a: seq<nat>, b: seq<nat>, k: nat): (r: int)
    ensures -1 <= r <= 1
    decreases |a| + |b| - k
  {
    if k >= |a| && k >= |b| then 0
    else if Part(a, k) < Part(b, k) then -1
    else if Part(a, k) > Part(b, k) then 1
    else CmpPartsFrom(a, b, k + 1)
  }

  /** Three-way comparison of release components, padding the shorter with zeros. */
  function CmpParts(a: seq<nat>, b: seq<nat>): (r: int)
    ensures -1 <= r <= 1
  {
    CmpPartsFrom(a, b, 0)
  }

  /** Three-way comparison of two parsed versions: -1, 0 or 1. */
  function Cmp(v: Version, w: Version): (r: int)
    ensures -1 <= r <= 1
  {
    match (v, w)
    case (Release(a), Release(b)) => CmpParts(a, b)
    case (Legacy(_), Release(_)) => -1
    case (Release(_), Legacy(_)) => 1
    case (Legacy(s), Legacy(t)) => if s == t then 0 else if StrLe(s, t) then -1 else 1
  }

  /** `versions_are_equal(a, b)`: the two strings denote the same version. */
  predicate Equivalent(a: string, b: string) {
    Cmp(Parse(a), Parse(b)) == 0
  }

  /** `parse(a) <= parse(b)` */
  predicate VersionLe(a: string, b: string) {
    Cmp(Parse(a), Parse(b)) <= 0
  }

  lemma {:induction false} CmpPartsFromFlip(a: seq<nat>, b: seq<nat>, k: nat)
    ensures CmpPartsFrom(b, a, k) == -CmpPartsFrom(a, b, k)
    decreases |a| + |b| - k
  {
    if k < |a| || k < |b| {
      CmpPartsFromFlip(a, b, k + 1);
    }
  }

  lemma {:induction false} CmpPartsFromTransitive(a: seq<nat>, b: seq<nat>, c: seq<nat>, k: nat)
    requires CmpPartsFrom(a, b, k) <= 0 && CmpPartsFrom(b, c, k) <= 0
    ensures CmpPartsFrom(a, c, k) <= 0
    ensures CmpPartsFrom(a, b, k) == 0 && CmpPartsFrom(b, c, k) == 0 ==> CmpPartsFrom(a, c, k) == 0
    ensures CmpPartsFrom(a, b, k) < 0 || CmpPartsFrom(b, c, k) < 0 ==> CmpPartsFrom(a, c, k) < 0
    decreases |a| + |b| + |c| - k
  {
    if k < |a| || k < |b| || k < |c| {
      if Part(a, k) == Part(b, k) && Part(b, k) == Part(c, k) {
        CmpPartsFromTransitive(a, b, c, k + 1);
      }
    }
  }

  /** The comparison is antisymmetric: swapping the arguments negates it. */
  lemma CmpFlip(v: Version, w: Version)
    ensures Cmp(w, v) == -Cmp(v, w)
  {
    match (v, w)
    case (Release(a), Release(b)) => CmpPartsFromFlip(a, b, 0);
    case (Legacy(s), Legacy(t)) =>
      StrLeTotalOrder(s, t, t);
    case (_, _) =>
  }

  /** The comparison is transitive, for both `<=` and `==`, and strictly when one step is strict. */
  lemma CmpTransitive(u: Version, v: Version, w: Version)
    requires Cmp(u, v) <= 0 && Cmp(v, w) <= 0
    ensures Cmp(u, w) <= 0
    ensures Cmp(u, v) == 0 && Cmp(v, w) == 0 ==> Cmp(u, w) == 0
    ensures Cmp(u, v) < 0 || Cmp(v, w) < 0 ==> Cmp(u, w) < 0
  {
    match (u, v, w)
    case (Release(a), Release(b), Release(c)) => CmpPartsFromTransitive(a, b, c, 0);
    case (Legacy(s), Legacy(t), Legacy(x)) =>
      StrLeTotalOrder(s, t, x);
    case (_, _, _) =>
  }

  /** `versions_are_equal` is an equivalence relation. */
  lemma EquivalentIsEquivalence(a: string, b: string, c: string)
    ensures Equivalent(a, a)
    ensures Equivalent(a, b) ==> Equivalent(b, a)
    ensures Equivalent(a, b) && Equivalent(b, c) ==> Equivalent(a, c)
  {
    CmpFlip(Parse(a), Parse(a));
    CmpFlip(Parse(a), Parse(b));
    if Equivalent(a, b) && Equivalent(b, c) {
      CmpTransitive(Parse(a), Parse(b), Parse(c));
    }
  }

  /** Version order is a total preorder whose ties are exactly the equivalent versions. */
  lemma VersionLeTotalPreorder(a: string, b: string, c: string)
    ensures VersionLe(a, b) || VersionLe(b, a)
    ensures VersionLe(a, b) && VersionLe(b, a) <==> Equivalent(a, b)
    ensures VersionLe(a, b) && VersionLe(b, c) ==> VersionLe(a, c)
  {
    CmpFlip(Parse(a), Parse(b));
    if VersionLe(a, b) && VersionLe(b, c) {
      CmpTransitive(Parse(a), Parse(b), Parse(c));
    }
  }

  /** A legacy version is equivalent only to the identical string. */
  lemma {:induction false} LegacyEquivalentOnlyToItself(a: string, b: string)
    requires Parse(a).Legacy?
    ensures Equivalent(a, b) <==> a == b
  {
    if Equivalent(a, b) {
      assert Parse(b).Legacy?;
    }
  }

  /** The order `sort_versions` sorts by: by version, ties between equivalent strings broken by text. */
  predicate KeyLe(a: string, b: string) {
    var c := Cmp(Parse(a), Parse(b));
    c < 0 || (c == 0 && StrLe(a, b))
  }

  lemma KeyLeTotal(a: string, b: string)
    ensures KeyLe(a, b) || KeyLe(b, a)
  {
    CmpFlip(Parse(a), Parse(b));
    StrLeTotalOrder(a, b, b);
  }

  lemma KeyLeAntisymmetric(a: string, b: string)
    requires KeyLe(a, b) && KeyLe(b, a)
    ensures a == b
  {
    CmpFlip(Parse(a), Parse(b));
    StrLeTotalOrder(a, b, b);
  }

  lemma KeyLeTransitive(a: string, b: string, c: string)
    requires KeyLe(a, b) && KeyLe(b, c)
    ensures KeyLe(a, c)
  {
    CmpTransitive(Parse(a), Parse(b), Parse(c));
    if Cmp(Parse(a), Parse(b)) == 0 && Cmp(Parse(b), Parse(c)) == 0 {
      StrLeTotalOrder(a, b, c);
    }
  }
}
