/**
 * Distkeys, the identifiers of one version of one package, written
 * `name(version)` (depresolve/depdata.py), and dependency lists, whose
 * entries are a package name and a specifier string.
 */
module DistKeys {
  import opened PyStr
  import Sorting

  /** The index of the first '(' in s, or -1. */
  function OpenParen(s: string): (r: int)
    ensures -1 <= r < |s|
    ensures r >= 0 ==> s[r] == '(' && '(' !in s[..r]
    ensures r == -1 ==> '(' !in s
  {
    var k := Find(s, "(");
    OccursAtChar(s, '(');
    k
  }

  /**
   * `get_packname(distkey)`: `distkey[:distkey.find('(')]`, the text before
   * the first '('. When there is no '(' the slice bound is -1, so the name is
   * all but the last character.
   */
  function GetPackname(distkey: string): string {
    Slice(distkey, 0, OpenParen(distkey))
  }

  /** The name is the prefix before the first '(', and holds no '(' itself. */
  lemma PacknameIsPrefix(distkey: string)
    ensures var r := GetPackname(distkey);
      && '(' !in r
      && ('(' in distkey ==> |r| < |distkey| && distkey[|r|] == '(' && r == distkey[..|r|])
      && ('(' !in distkey && distkey != [] ==> r == distkey[..|distkey| - 1])
  {
  }

  /**
   * `get_version(distkey)`: `distkey[distkey.find('(') + 1 : -1]`, the text
   * after the first '(' up to but excluding the last character; the version
   * may itself contain parentheses.
   */
  function GetVersion(distkey: string): string {
    Slice(distkey, OpenParen(distkey) + 1, -1)
  }

  /** The version is the text between the first '(' and the last character. */
  lemma VersionIsBracketed(distkey: string)
    ensures var k := OpenParen(distkey);
      k >= 0 && k + 1 <= |distkey| - 1 ==> GetVersion(distkey) == distkey[k + 1..|distkey| - 1]
  {
  }

  /** `get_pack_and_version(distkey)` */
  function GetPackAndVersion(distkey: string): (string, string) {
    (GetPackname(distkey), GetVersion(distkey))
  }

  /** `distkey_format(package_name, version_string)` */
  function DistkeyFormat(packname: string, version: string): string {
    packname + "(" + version + ")"
  }

  /** The first '(' of a formatted distkey is the one after the name, whenever the name has none. */
  lemma FormatParen(packname: string, version: string)
    ensures |DistkeyFormat(packname, version)| == |packname| + |version| + 2
    ensures '(' !in packname ==> OpenParen(DistkeyFormat(packname, version)) == |packname|
  {
    var r := DistkeyFormat(packname, version);
    assert r[..|packname|] == packname && r[|packname|] == '(';
    assert forall j :: 0 <= j < |packname| ==> r[j] == packname[j];
  }

  /** The documented form of a distkey: a name, '(' , a version, ')'. */
  predicate WellFormed(distkey: string) {
    '(' in distkey && distkey[|distkey| - 1] == ')'
  }

  /** Splitting a formatted distkey gives back its parts, whenever the name has no '('. */
  lemma {:induction false} SplitFormat(packname: string, version: string)
    requires '(' !in packname
    ensures GetPackname(DistkeyFormat(packname, version)) == packname
    ensures GetVersion(DistkeyFormat(packname, version)) == version
    ensures GetPackAndVersion(DistkeyFormat(packname, version)) == (packname, version)
    ensures WellFormed(DistkeyFormat(packname, version))
  {
    var k := DistkeyFormat(packname, version);
    FormatParen(packname, version);
    assert k[|packname|] == '(';
    assert k[..|packname|] == packname;
    assert k[|packname| + 1..|k| - 1] == version;
  }

  /** Formatting the parts of a well-formed distkey gives it back. */
  lemma {:induction false} FormatSplit(distkey: string)
    requires WellFormed(distkey)
    ensures DistkeyFormat(GetPackname(distkey), GetVersion(distkey)) == distkey
    ensures '(' !in GetPackname(distkey)
  {
    var k := OpenParen(distkey);
    assert distkey == distkey[..k] + "(" + distkey[k + 1..|distkey| - 1] + ")";
  }

  /**
   * `get_pack_and_version` splits any distkey into a name without '(' and a
   * version, and on a well-formed distkey `distkey_format` joins them back.
   */
  lemma PackAndVersionSplits(distkey: string)
    ensures '(' !in GetPackAndVersion(distkey).0
    ensures WellFormed(distkey) ==>
      DistkeyFormat(GetPackAndVersion(distkey).0, GetPackAndVersion(distkey).1) == distkey
  {
    PacknameIsPrefix(distkey);
    if WellFormed(distkey) {
      FormatSplit(distkey);
    }
  }

  /** Two formatted distkeys are equal exactly when their names and versions are. */
  lemma FormatInjective(p: string, v: string, q: string, w: string)
    requires '(' !in p && '(' !in q
    ensures DistkeyFormat(p, v) == DistkeyFormat(q, w) <==> p == q && v == w
  {
    if DistkeyFormat(p, v) == DistkeyFormat(q, w) {
      SplitFormat(p, v);
      SplitFormat(q, w);
    }
  }

  /** One entry of a dependency list: `[package_name, specifier_string]`. */
  type Dep = (string, string)

  /** Python's order on `[name, specifier]` lists: by name, then by specifier. */
  predicate DepLe(a: Dep, b: Dep) {
    if a.0 == b.0 then StrLe(a.1, b.1) else StrLe(a.0, b.0)
  }

  /** The converse of DepLe, under which a descending sort is Python's ascending `sorted`. */
  predicate DepGe(a: Dep, b: Dep) {
    DepLe(b, a)
  }

  lemma DepGeTotalOrder()
    ensures Sorting.TotalOrder(DepGe)
  {
    forall a: Dep, b: Dep ensures DepGe(a, b) || DepGe(b, a) {
      StrLeTotalOrder(a.0, b.0, b.0);
      StrLeTotalOrder(a.1, b.1, b.1);
    }
    forall a: Dep, b: Dep | DepGe(a, b) && DepGe(b, a) ensures a == b {
      StrLeTotalOrder(a.0, b.0, b.0);
      StrLeTotalOrder(a.1, b.1, b.1);
    }
    forall a: Dep, b: Dep, c: Dep | DepGe(a, b) && DepGe(b, c) ensures DepGe(a, c) {
      StrLeTotalOrder(c.0, b.0, a.0);
      StrLeTotalOrder(c.1, b.1, a.1);
      StrLeTotalOrder(a.0, c.0, c.0);
      StrLeTotalOrder(b.0, a.0, c.0);
      StrLeTotalOrder(c.0, a.0, b.0);
    }
  }

  /** `sorted(deps)` */
  function SortedDeps(deps: seq<Dep>): (r: seq<Dep>)
    ensures multiset(r) == multiset(deps)
    ensures forall i, j :: 0 <= i < j < |r| ==> DepLe(r[i], r[j])
  {
    DepGeTotalOrder();
    Sorting.SortDesc(deps, DepGe)
  }

  /** `deps_are_equal(deps_a, deps_b)`: `sorted(deps_a) == sorted(deps_b)`. */
  predicate DepsAreEqual(a: seq<Dep>, b: seq<Dep>) {
    SortedDeps(a) == SortedDeps(b)
  }

  /** Two dependency lists are equal in this sense exactly when one is a permutation of the other. */
  lemma DepsAreEqualIffPermutation(a: seq<Dep>, b: seq<Dep>)
    ensures DepsAreEqual(a, b) <==> multiset(a) == multiset(b)
  {
    if multiset(a) == multiset(b) {
      DepGeTotalOrder();
      Sorting.SortedDescUnique(SortedDeps(a), SortedDeps(b), DepGe);
    }
  }
}
