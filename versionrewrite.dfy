/**
 * The hand-written version-string rewriters of the scraper scripts. Each
 * imitates part of the normalisation of PEP 440 ("Normalization": the
 * pre-release, development-release and separator rules) by a fixed chain of
 * conditional `replace` calls on the version string:
 *
 *   - analyze_deps_via_pip.py `normalize_version_string`: the full chain;
 *   - _s_retrieve_deps_via_pip.py `normalize_version_string`: the chain
 *     without the final '.0N' rewrites;
 *   - depresolve/scrape_deps_and_detect_conflicts.py
 *     `old_normalize_version_string`: the full chain, but its `return`
 *     sits inside the last `if`.
 *
 * All three share the dead 'beta-' step whose guard tests 'alpha-'.
 */
module VersionRewrite {
  import opened PyStr

  /** `if guard in version: version = version.replace(pat, rep)` */
  function Guarded(v: string, guard: string, pat: string, rep: string): string
    requires |pat| > 0
  {
    if Contains(v, guard) then Replace(v, pat, rep) else v
  }

  /** `if pat in version: version = version.replace(pat, rep)` */
  function Rewrite(v: string, pat: string, rep: string): string
    requires |pat| > 0
  {
    Guarded(v, pat, pat, rep)
  }

  /** 'dev' comes after a '.', not a '-', and is not followed by a '-'. */
  function DevRewrite(v: string): string {
    var v1 :=
      if Contains(v, "-dev") then Replace(v, "-dev", ".dev")
      else if Contains(v, ".dev") then v
      else if Contains(v, "dev") then Replace(v, "dev", ".dev")
      else v;
    Rewrite(v1, "dev-", "dev")
  }

  /** The separator before beta and alpha, and the '.' after them, are dropped. */
  function SeparatorSteps(v: string): string {
    var v1 := Rewrite(v, "-beta", "beta");
    var v2 := Rewrite(v1, ".beta", "beta");
    var v3 := Rewrite(v2, "-alpha", "alpha");
    var v4 := Rewrite(v3, ".alpha", "alpha");
    var v5 := Rewrite(v4, "alpha.", "alpha");
    var v6 := Rewrite(v5, "alpha-", "alpha");
    Rewrite(v6, "beta.", "beta")
  }

  /** The separator rewrites as written: the last one replaces 'beta-' only if 'alpha-' is present. */
  function SeparatorRewrite(v: string): string {
    Guarded(SeparatorSteps(v), "alpha-", "beta-", "beta")
  }

  /** The separator rewrites as intended: the last one drops the '-' after beta. */
  function SeparatorRewriteFixed(v: string): string {
    Rewrite(SeparatorSteps(v), "beta-", "beta")
  }

  /** A trailing dev, beta or alpha gets the number 0. */
  function DefaultNumber(v: string): string {
    if EndsWith(v, "dev") || EndsWith(v, "beta") || EndsWith(v, "alpha") then v + "0" else v
  }

  /** beta is spelt 'b' and alpha 'a'. */
  function ShortSpelling(v: string): string {
    Rewrite(Rewrite(v, "beta", "b"), "alpha", "a")
  }

  function Digit(d: nat): char
    requires d < 10
  {
    ('0' as int + d) as char
  }

  /** The rewrites of '.00' to '.0', '.01' to '.1', and so on, for the first n digits in order. */
  function LeadingZeros(v: string, n: nat): string
    requires n <= 10
  {
    if n == 0 then v
    else Rewrite(LeadingZeros(v, n - 1), ".0" + [Digit(n - 1)], "." + [Digit(n - 1)])
  }

  /** `normalize_version_string` of _s_retrieve_deps_via_pip.py. */
  function RetrieveDepsNormalize(v: string): string {
    ShortSpelling(DefaultNumber(SeparatorRewrite(DevRewrite(v))))
  }

  /** `normalize_version_string` of analyze_deps_via_pip.py: the same, then the ten '.0N' rewrites. */
  function AnalyzeNormalize(v: string): string {
    LeadingZeros(RetrieveDepsNormalize(v), 10)
  }

  /**
   * `old_normalize_version_string` as written: the analyze chain, but the
   * result is returned only from inside `if '.09' in version`; otherwise
   * the function falls off its end and returns None.
   */
  function OldNormalize(v: string): Option<string> {
    var w := LeadingZeros(RetrieveDepsNormalize(v), 9);
    if Contains(w, ".09") then Some(Replace(w, ".09", ".9")) else None
  }

  /** `normalize_version_string` of _s_retrieve_deps_via_pip.py with the 'beta-' guard corrected. */
  function RetrieveDepsNormalizeFixed(v: string): string {
    ShortSpelling(DefaultNumber(SeparatorRewriteFixed(DevRewrite(v))))
  }

  /** `normalize_version_string` of analyze_deps_via_pip.py with the 'beta-' guard corrected. */
  function AnalyzeNormalizeFixed(v: string): string {
    LeadingZeros(RetrieveDepsNormalizeFixed(v), 10)
  }

  // ---------------------------------------------------------------------
  // Properties

  /** A guarded rewrite whose guard and pattern are absent changes nothing. */
  lemma GuardedAbsent(v: string, guard: string, pat: string, rep: string)
    requires |pat| > 0
    requires !Contains(v, guard) || !Contains(v, pat)
    ensures Guarded(v, guard, pat, rep) == v
  {
  }

  /** A string without 'dev' passes the dev rewrites unchanged and does not end with 'dev'. */
  lemma NoDevUnchanged(v: string)
    requires !Contains(v, "dev")
    ensures DevRewrite(v) == v && !EndsWith(v, "dev")
  {
    if Contains(v, "-dev") { assert "-" + "dev" == "-dev"; ContainsParts(v, "-", "dev"); }
    if Contains(v, ".dev") { assert "." + "dev" == ".dev"; ContainsParts(v, ".", "dev"); }
    if Contains(v, "dev-") { assert "dev" + "-" == "dev-"; ContainsParts(v, "dev", "-"); }
    if EndsWith(v, "dev") { EndsWithContains(v, "dev"); }
  }

  /** A string without 'alpha' passes every alpha rewrite unchanged and does not end with 'alpha'. */
  lemma NoAlphaUnchanged(v: string)
    requires !Contains(v, "alpha")
    ensures Rewrite(v, "-alpha", "alpha") == v && Rewrite(v, ".alpha", "alpha") == v
    ensures Rewrite(v, "alpha.", "alpha") == v && Rewrite(v, "alpha-", "alpha") == v
    ensures !Contains(v, "alpha-") && !EndsWith(v, "alpha") && Rewrite(v, "alpha", "a") == v
  {
    if Contains(v, "-alpha") { assert "-" + "alpha" == "-alpha"; ContainsParts(v, "-", "alpha"); }
    if Contains(v, ".alpha") { assert "." + "alpha" == ".alpha"; ContainsParts(v, ".", "alpha"); }
    if Contains(v, "alpha.") { assert "alpha" + "." == "alpha."; ContainsParts(v, "alpha", "."); }
    if Contains(v, "alpha-") { assert "alpha" + "-" == "alpha-"; ContainsParts(v, "alpha", "-"); }
    if EndsWith(v, "alpha") { EndsWithContains(v, "alpha"); }
  }

  /** A string holding neither 'alpha' nor 'beta' passes the separator and spelling steps unchanged. */
  lemma NoAlphaBetaUnchanged(v: string)
    requires !Contains(v, "alpha") && !Contains(v, "beta")
    ensures SeparatorSteps(v) == v && SeparatorRewrite(v) == v && SeparatorRewriteFixed(v) == v
    ensures ShortSpelling(v) == v && !EndsWith(v, "beta") && !EndsWith(v, "alpha")
  {
    NoAlphaUnchanged(v);
    if Contains(v, "-beta") { assert "-" + "beta" == "-beta"; ContainsParts(v, "-", "beta"); }
    if Contains(v, ".beta") { assert "." + "beta" == ".beta"; ContainsParts(v, ".", "beta"); }
    if Contains(v, "beta.") { assert "beta" + "." == "beta."; ContainsParts(v, "beta", "."); }
    if Contains(v, "beta-") { assert "beta" + "-" == "beta-"; ContainsParts(v, "beta", "-"); }
    if EndsWith(v, "beta") { EndsWithContains(v, "beta"); }
  }

  /** A string holding none of 'dev', 'alpha', 'beta' passes every step before the '.0N' rewrites unchanged. */
  lemma NoMarkerUnchanged(v: string)
    requires !Contains(v, "dev") && !Contains(v, "alpha") && !Contains(v, "beta")
    ensures DevRewrite(v) == v
    ensures SeparatorSteps(v) == v && SeparatorRewrite(v) == v && SeparatorRewriteFixed(v) == v
    ensures DefaultNumber(v) == v && ShortSpelling(v) == v
  {
    NoDevUnchanged(v);
    NoAlphaBetaUnchanged(v);
  }

  /** The '.0N' rewrites leave a string without '.0' unchanged. */
  lemma {:induction false} LeadingZerosAbsent(v: string, n: nat)
    requires n <= 10 && !Contains(v, ".0")
    ensures LeadingZeros(v, n) == v
  {
    if n > 0 {
      LeadingZerosAbsent(v, n - 1);
      if Contains(v, ".0" + [Digit(n - 1)]) {
        ContainsParts(v, ".0", [Digit(n - 1)]);
      }
    }
  }

  /** Once no '.0' is left after the first k rewrites, the remaining ones change nothing. */
  lemma {:induction false} LeadingZerosSettled(v: string, k: nat, n: nat)
    requires k <= n <= 10 && !Contains(LeadingZeros(v, k), ".0")
    ensures LeadingZeros(v, n) == LeadingZeros(v, k)
  {
    if n > k {
      LeadingZerosSettled(v, k, n - 1);
      if Contains(LeadingZeros(v, k), ".0" + [Digit(n - 1)]) {
        ContainsParts(LeadingZeros(v, k), ".0", [Digit(n - 1)]);
      }
    }
  }

  lemma DigitPatterns()
    ensures ".0" + [Digit(0)] == ".00" && ".0" + [Digit(1)] == ".01" && ".0" + [Digit(2)] == ".02"
    ensures ".0" + [Digit(3)] == ".03" && ".0" + [Digit(4)] == ".04" && ".0" + [Digit(5)] == ".05"
    ensures ".0" + [Digit(6)] == ".06" && ".0" + [Digit(7)] == ".07" && ".0" + [Digit(8)] == ".08"
    ensures ".0" + [Digit(9)] == ".09"
  {
  }

  /** A string holding none of '.00' to '.09' passes the ten '.0N' rewrites unchanged. */
  lemma LeadingZerosNone(v: string)
    requires !Contains(v, ".00") && !Contains(v, ".01") && !Contains(v, ".02") && !Contains(v, ".03") && !Contains(v, ".04")
    requires !Contains(v, ".05") && !Contains(v, ".06") && !Contains(v, ".07") && !Contains(v, ".08") && !Contains(v, ".09")
    ensures LeadingZeros(v, 10) == v
  {
    DigitPatterns();
    assert LeadingZeros(v, 1) == v;
    assert LeadingZeros(v, 2) == v;
    assert LeadingZeros(v, 3) == v;
    assert LeadingZeros(v, 4) == v;
    assert LeadingZeros(v, 5) == v;
    assert LeadingZeros(v, 6) == v;
    assert LeadingZeros(v, 7) == v;
    assert LeadingZeros(v, 8) == v;
    assert LeadingZeros(v, 9) == v;
  }

  /**
   * A plain version, with no dev, alpha or beta marker, is returned
   * unchanged by the copy without '.0N' rewrites, and also by the others
   * when it holds no '.0'.
   */
  lemma PlainVersionUnchanged(v: string)
    requires !Contains(v, "dev") && !Contains(v, "alpha") && !Contains(v, "beta")
    ensures RetrieveDepsNormalize(v) == v && RetrieveDepsNormalizeFixed(v) == v
    ensures !Contains(v, ".0") ==> AnalyzeNormalize(v) == v && AnalyzeNormalizeFixed(v) == v
  {
    NoMarkerUnchanged(v);
    if !Contains(v, ".0") {
      LeadingZerosAbsent(v, 10);
    }
  }

  /**
   * The old rewriter returns a value only when '.09' is left after the
   * first nine '.0N' rewrites, and that value is then the analyze copy's
   * result; on a plain version without '.0' it returns None.
   */
  lemma OldNormalizeReturnsLate(v: string)
    ensures OldNormalize(v).Some? <==> Contains(LeadingZeros(RetrieveDepsNormalize(v), 9), ".09")
    ensures OldNormalize(v).Some? ==> OldNormalize(v).value == AnalyzeNormalize(v)
    ensures !Contains(v, "dev") && !Contains(v, "alpha") && !Contains(v, "beta") && !Contains(v, ".0")
      ==> OldNormalize(v) == None
  {
    assert ".0" + [Digit(9)] == ".09" && "." + [Digit(9)] == ".9";
    if !Contains(v, "dev") && !Contains(v, "alpha") && !Contains(v, "beta") && !Contains(v, ".0") {
      NoMarkerUnchanged(v);
      LeadingZerosAbsent(v, 9);
      if Contains(v, ".09") {
        ContainsParts(v, ".0", "9");
      }
    }
  }

  /**
   * On a version whose only marker is a beta with no separator before it
   * and no '.' after it, the separator rewrites as written change nothing,
   * so a '-' after beta survives into the result; the corrected step
   * removes it.
   */
  lemma BetaDashKept(v: string)
    requires !Contains(v, "dev") && !Contains(v, "alpha")
    requires !Contains(v, "-beta") && !Contains(v, ".beta") && !Contains(v, "beta.")
    requires !EndsWith(v, "beta")
    ensures SeparatorRewrite(v) == v
    ensures RetrieveDepsNormalize(v) == ShortSpelling(v)
    ensures SeparatorRewriteFixed(v) == Rewrite(v, "beta-", "beta")
    ensures RetrieveDepsNormalizeFixed(v) == ShortSpelling(DefaultNumber(Rewrite(v, "beta-", "beta")))
  {
    NoDevUnchanged(v);
    NoAlphaUnchanged(v);
    assert SeparatorSteps(v) == v;
  }
}
