/**
 * The filename helpers of the scraper scripts. An sdist in a mirror lives
 * at a path of the form `.../packagename/packagename-1.0.0.tar.gz`; the
 * helpers take the parent directory as the package name and the basename
 * without its extension as "package and version".
 *
 * Three scripts carry copies: analyze_deps_via_pip.py and
 * _s_retrieve_deps_via_pip.py lower-case their results, while
 * _s_retrieve_package_data.py does not. Python's negative slice indices
 * (a missing '/' or '.tar.gz' makes `rfind` return -1) are modelled by
 * `PyStr.Slice`.
 */
module Filenames {
  import opened PyStr
  import opened DistKeys

  const SdistExtension: string := ".tar.gz"

  /** `is_sdist`: the name ends with '.tar.gz'. */
  predicate IsSdist(fname: string) {
    EndsWith(fname, SdistExtension)
  }

  /** `get_package_and_version_string_from_full_filename` of _s_retrieve_package_data.py. */
  function PackageAndVersion(fname: string): string {
    Slice(fname, RFind(fname, "/") + 1, RFind(fname, SdistExtension))
  }

  /** The lower-casing copy of analyze_deps_via_pip.py and _s_retrieve_deps_via_pip.py. */
  function LoweredPackageAndVersion(fname: string): string {
    Lower(PackageAndVersion(fname))
  }

  /** `get_parent_dir_name_from_full_path`: the text between the last two '/'. */
  function ParentDir(fname: string): string {
    var last := RFind(fname, "/");
    Slice(fname, RFind(Slice(fname, 0, last), "/") + 1, last)
  }

  /** `get_package_name_given_full_filename` of the two lower-casing copies. */
  function LoweredPackageName(fname: string): string {
    Lower(ParentDir(fname))
  }

  /** `normalize_package_name`: '_' becomes '-', then the name is lower-cased. */
  function NormalizePackageName(packname: string): string {
    Lower(Replace(packname, "_", "-"))
  }

  /**
   * `get_distkey_from_full_filename`. The version part is the lowered
   * basename minus its first len(package name) + 1 characters. The
   * scraper's `normalize_version_string` delegates to pip and is passed
   * in as `normalizeVersion`.
   */
  function DistkeyFromFullFilename(fname: string, normalizeVersion: string -> string): string {
    var packname := ParentDir(fname);
    var packageAndVersion := LoweredPackageAndVersion(fname);
    var version := Slice(packageAndVersion, |packname| + 1, |packageAndVersion|);
    DistkeyFormat(NormalizePackageName(packname), normalizeVersion(version))
  }

  /** `normalize_distkey`: split, normalise both parts, re-join. */
  function NormalizeDistkey(distkey: string, normalizeVersion: string -> string): string {
    var (packname, version) := GetPackAndVersion(distkey);
    DistkeyFormat(NormalizePackageName(packname), normalizeVersion(version))
  }

  // ---------------------------------------------------------------------
  // Properties

  /** The name ends in '.tar.gz' exactly when its last seven characters are that text. */
  lemma IsSdistMeaning(fname: string)
    ensures IsSdist(fname) <==> |fname| >= 7 && fname[|fname| - 7..] == ".tar.gz"
    ensures IsSdist(fname + ".tar.gz")
  {
    OccursAtSlice(fname, SdistExtension, |fname| - 7);
    var g := fname + ".tar.gz";
    OccursAtSlice(g, SdistExtension, |g| - 7);
    assert g[|g| - 7..] == ".tar.gz";
  }

  /** Character by character: '_' becomes '-' and upper-case letters become lower-case. */
  lemma NormalizePackageNameChars(packname: string)
    ensures |NormalizePackageName(packname)| == |packname|
    ensures forall i :: 0 <= i < |packname| ==>
      NormalizePackageName(packname)[i] == (if packname[i] == '_' then '-' else LowerChar(packname[i]))
  {
    ReplaceChar(packname, '_', '-');
  }

  /** The normal form has no '_' and no upper-case letter, and normalising it again changes nothing. */
  lemma NormalizePackageNameIdempotent(packname: string)
    ensures '_' !in NormalizePackageName(packname)
    ensures IsLower(NormalizePackageName(packname))
    ensures NormalizePackageName(NormalizePackageName(packname)) == NormalizePackageName(packname)
  {
    var n := NormalizePackageName(packname);
    NormalizePackageNameChars(packname);
    NormalizePackageNameChars(n);
    LowerIsLower(Replace(packname, "_", "-"));
  }

  /** Normalising a name adds a '(' only where there was one, so the result is still a package name. */
  lemma NormalizePackageNameParen(packname: string)
    ensures '(' in NormalizePackageName(packname) <==> '(' in packname
  {
    NormalizePackageNameChars(packname);
    var n := NormalizePackageName(packname);
    if '(' in n {
      var i :| 0 <= i < |n| && n[i] == '(';
      assert packname[i] == '(';
    }
    if '(' in packname {
      var i :| 0 <= i < |packname| && packname[i] == '(';
      assert n[i] == '(';
    }
  }

  /**
   * On a mirror path dir/pkg/base.tar.gz, with no '/' in pkg or base, the
   * helpers recover pkg and base, and the file is an sdist.
   */
  lemma {:induction false} MirrorPathParts(dir: string, pkg: string, base: string)
    requires '/' !in pkg && '/' !in base
    ensures var fname := dir + "/" + pkg + "/" + base + ".tar.gz";
      ParentDir(fname) == pkg && PackageAndVersion(fname) == base && IsSdist(fname)
  {
    var fname := dir + "/" + pkg + "/" + base + ".tar.gz";
    var a := |dir|;
    var b := a + 1 + |pkg|;
    var e := b + 1 + |base|;
    assert |fname| == e + 7;
    assert fname[a] == '/' && fname[b] == '/';
    assert fname[a + 1..b] == pkg;
    assert fname[b + 1..e] == base;
    assert fname[e..] == ".tar.gz";
    OccursAtChar(fname, '/');
    forall j | b < j < |fname| ensures fname[j] != '/' {
      if j < e {
        assert fname[j] == base[j - b - 1];
      } else {
        assert fname[j] == ".tar.gz"[j - e];
      }
    }
    RFindAt(fname, "/", b);
    var head := Slice(fname, 0, b);
    assert head == dir + "/" + pkg;
    OccursAtChar(head, '/');
    forall j | a < j < |head| ensures head[j] != '/' {
      assert head[j] == pkg[j - a - 1];
    }
    RFindAt(head, "/", a);
    OccursAtSlice(fname, SdistExtension, e);
    forall j | e < j ensures !OccursAt(fname, SdistExtension, j) {
      OccursAtSlice(fname, SdistExtension, j);
    }
    RFindAt(fname, SdistExtension, e);
    IsSdistMeaning(dir + "/" + pkg + "/" + base);
  }

  /** The basename pkg-ver has no '/', and its lowered text after pkg and '-' is the lowered ver. */
  lemma VersionPart(pkg: string, ver: string)
    requires '/' !in pkg && '/' !in ver
    ensures '/' !in pkg + "-" + ver
    ensures Slice(Lower(pkg + "-" + ver), |pkg| + 1, |pkg + "-" + ver|) == Lower(ver)
  {
    var base := pkg + "-" + ver;
    forall i | 0 <= i < |base| ensures base[i] != '/' {
      if i < |pkg| { assert base[i] == pkg[i]; }
      else if i > |pkg| { assert base[i] == ver[i - |pkg| - 1]; }
    }
    var lowered := Lower(base);
    assert lowered[|pkg| + 1..] == Lower(ver);
  }

  /**
   * `get_distkey_from_full_filename` on dir/pkg/pkg-ver.tar.gz gives the
   * normalised package name and the normalised lowered ver, and splitting
   * that distkey gives both back.
   */
  lemma DistkeyFromMirrorPath(fname: string, dir: string, pkg: string, ver: string, normalizeVersion: string -> string)
    requires fname == dir + "/" + pkg + "/" + (pkg + "-" + ver) + ".tar.gz"
    requires '/' !in pkg && '/' !in ver && '(' !in pkg
    ensures DistkeyFromFullFilename(fname, normalizeVersion)
      == DistkeyFormat(NormalizePackageName(pkg), normalizeVersion(Lower(ver)))
    ensures GetPackAndVersion(DistkeyFromFullFilename(fname, normalizeVersion))
      == (NormalizePackageName(pkg), normalizeVersion(Lower(ver)))
  {
    VersionPart(pkg, ver);
    MirrorPathParts(dir, pkg, pkg + "-" + ver);
    NormalizePackageNameParen(pkg);
    SplitFormat(NormalizePackageName(pkg), normalizeVersion(Lower(ver)));
  }

  /**
   * `normalize_distkey` of a well-formed distkey normalises its name and
   * its version, and is idempotent when the version normaliser is.
   */
  lemma NormalizeDistkeyParts(distkey: string, normalizeVersion: string -> string)
    requires WellFormed(distkey)
    ensures GetPackname(NormalizeDistkey(distkey, normalizeVersion)) == NormalizePackageName(GetPackname(distkey))
    ensures GetVersion(NormalizeDistkey(distkey, normalizeVersion)) == normalizeVersion(GetVersion(distkey))
    ensures WellFormed(NormalizeDistkey(distkey, normalizeVersion))
    ensures normalizeVersion(normalizeVersion(GetVersion(distkey))) == normalizeVersion(GetVersion(distkey)) ==>
      NormalizeDistkey(NormalizeDistkey(distkey, normalizeVersion), normalizeVersion)
        == NormalizeDistkey(distkey, normalizeVersion)
  {
    var p := GetPackname(distkey);
    FormatSplit(distkey);
    NormalizePackageNameParen(p);
    NormalizePackageNameIdempotent(p);
    SplitFormat(NormalizePackageName(p), normalizeVersion(GetVersion(distkey)));
  }
}
