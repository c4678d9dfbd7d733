/**
 * The version-string rewriters on the inputs their comments mention,
 * worked out step by step. Each example takes its
 * input as a parameter fixed by `requires`, and each replace on a literal
 * is established in a lemma of its own.
 */
module VersionExamples {
  import opened PyStr
  import opened VersionRewrite

  /** A string ending in neither 'v' nor 'a' ends in no marker, so no number is added. */
  lemma NoMarkerEnd(s: string)
    requires |s| > 0 && s[|s| - 1] != 'v' && s[|s| - 1] != 'a'
    ensures !EndsWith(s, "dev") && !EndsWith(s, "beta") && !EndsWith(s, "alpha")
    ensures DefaultNumber(s) == s
  {
    OccursAtSlice(s, "dev", |s| - 3);
    OccursAtSlice(s, "beta", |s| - 4);
    OccursAtSlice(s, "alpha", |s| - 5);
  }

  lemma FactsOf1Beta2(v: string)
    requires v == "1beta-2"
    ensures !Contains(v, "dev") && !Contains(v, "alpha")
    ensures !Contains(v, "-beta") && !Contains(v, ".beta") && !Contains(v, "beta.")
    ensures !EndsWith(v, "beta")
  {
    LacksChar(v, "dev", 0);
    LacksChar(v, "alpha", 1);
    LacksChar(v, "-beta", 0);
    LacksChar(v, ".beta", 0);
    LacksChar(v, "beta.", 4);
    NoMarkerEnd(v);
  }

  lemma ShortOf1Beta2(v: string)
    requires v == "1beta-2"
    ensures ShortSpelling(v) == "1b-2"
  {
    ReplaceOnce(v, "beta", "b", 1);
    assert Rewrite(v, "beta", "b") == "1b-2";
    LacksChar("1b-2", "alpha", 0);
  }

  lemma DropBetaDashOf1Beta2(v: string)
    requires v == "1beta-2"
    ensures Rewrite(v, "beta-", "beta") == "1beta2"
  {
    ReplaceOnce(v, "beta-", "beta", 1);
  }

  lemma FactsOf1Beta2Fixed(v: string)
    requires v == "1beta2"
    ensures DefaultNumber(v) == v
    ensures ShortSpelling(v) == "1b2"
  {
    NoMarkerEnd(v);
    ReplaceOnce(v, "beta", "b", 1);
    assert Rewrite(v, "beta", "b") == "1b2";
    LacksChar("1b2", "alpha", 0);
  }

  /**
   * '1beta-2' comes out as '1b-2' from both copies as written, where the
   * corrected guard gives '1b2'.
   */
  lemma BetaDashExample(v: string)
    requires v == "1beta-2"
    ensures RetrieveDepsNormalize(v) == "1b-2" && AnalyzeNormalize(v) == "1b-2"
    ensures RetrieveDepsNormalizeFixed(v) == "1b2" && AnalyzeNormalizeFixed(v) == "1b2"
  {
    BetaDashAsWritten(v);
    BetaDashCorrected(v);
  }

  lemma BetaDashAsWritten(v: string)
    requires v == "1beta-2"
    ensures RetrieveDepsNormalize(v) == "1b-2" && AnalyzeNormalize(v) == "1b-2"
  {
    FactsOf1Beta2(v);
    ShortOf1Beta2(v);
    BetaDashKept(v);
    SettledShort(ShortSpelling(v));
  }

  /** Short results without '.0' are what the '.0N' rewrites leave alone. */
  lemma SettledShort(w: string)
    requires w == "1b-2" || w == "1b2"
    ensures LeadingZeros(w, 10) == w
  {
    LacksChar(w, ".0", 0);
    LeadingZerosAbsent(w, 10);
  }

  lemma BetaDashCorrected(v: string)
    requires v == "1beta-2"
    ensures RetrieveDepsNormalizeFixed(v) == "1b2" && AnalyzeNormalizeFixed(v) == "1b2"
  {
    FactsOf1Beta2(v);
    BetaDashKept(v);
    DropBetaDashOf1Beta2(v);
    var x := Rewrite(v, "beta-", "beta");
    FactsOf1Beta2Fixed(x);
    SettledShort(ShortSpelling(DefaultNumber(x)));
  }

  lemma FactsOfZeroOne(v: string)
    requires v == "0.01"
    ensures !Contains(v, "dev") && !Contains(v, "alpha") && !Contains(v, "beta")
    ensures Rewrite(v, ".00", ".0") == v
    ensures Rewrite(v, ".01", ".1") == "0.1"
    ensures !Contains("0.1", ".0")
  {
    LacksChar(v, "dev", 0);
    LacksChar(v, "alpha", 0);
    LacksChar(v, "beta", 0);
    assert !OccursAt(v, ".00", 0) && !OccursAt(v, ".00", 1);
    assert !Contains(v, ".00");
    ReplaceOnce(v, ".01", ".1", 1);
    LacksChar("0.1", ".0", 1);
  }

  lemma FactsOfOneTwo(v: string)
    requires v == "1.2"
    ensures !Contains(v, "dev") && !Contains(v, "alpha") && !Contains(v, "beta")
    ensures !Contains(v, ".0")
  {
    LacksChar(v, "dev", 0);
    LacksChar(v, "alpha", 0);
    LacksChar(v, "beta", 0);
    LacksChar(v, ".0", 1);
  }

  lemma ZeroOneFirstRewrites(v: string)
    requires v == "0.01"
    ensures LeadingZeros(v, 2) == "0.1" && !Contains("0.1", ".0")
  {
    FactsOfZeroOne(v);
    assert ".0" + [Digit(0)] == ".00" && "." + [Digit(0)] == ".0";
    assert ".0" + [Digit(1)] == ".01" && "." + [Digit(1)] == ".1";
    assert LeadingZeros(v, 1) == Rewrite(v, ".00", ".0");
  }

  /** '0.01' keeps its leading zero in the copy without '.0N' rewrites and loses it in the analyze copy. */
  lemma LeadingZeroExample(v: string)
    requires v == "0.01"
    ensures RetrieveDepsNormalize(v) == "0.01" && AnalyzeNormalize(v) == "0.1"
  {
    FactsOfZeroOne(v);
    PlainVersionUnchanged(v);
    ZeroOneFirstRewrites(v);
    LeadingZerosSettled(v, 2, 10);
  }

  /** The old copy returns None on the plain version '1.2', which the analyze copy returns unchanged. */
  lemma OldNormalizeDropsResult(v: string)
    requires v == "1.2"
    ensures OldNormalize(v) == None && AnalyzeNormalize(v) == "1.2"
  {
    FactsOfOneTwo(v);
    OldNormalizeReturnsLate(v);
    PlainVersionUnchanged(v);
  }

  // '0.1.0-alpha.1' -> '0.1.0a1'

  lemma AlphaDotFacts(v: string)
    requires v == "0.1.0-alpha.1"
    ensures !Contains(v, "dev")
    ensures Rewrite(v, "-beta", "beta") == v && Rewrite(v, ".beta", "beta") == v
  {
    LacksChar(v, "dev", 0);
    LacksChar(v, "-beta", 1);
    LacksChar(v, ".beta", 1);
  }

  lemma AlphaDotDropDash(v: string)
    requires v == "0.1.0-alpha.1"
    ensures Rewrite(v, "-alpha", "alpha") == "0.1.0alpha.1"
  {
    ReplaceOnce(v, "-alpha", "alpha", 5);
  }

  lemma AlphaDotDropDot(s: string)
    requires s == "0.1.0alpha.1"
    ensures Rewrite(s, ".alpha", "alpha") == s
    ensures Rewrite(s, "alpha.", "alpha") == "0.1.0alpha1"
  {
    assert forall j :: !OccursAt(s, ".alpha", j);
    assert !Contains(s, ".alpha");
    ReplaceOnce(s, "alpha.", "alpha", 5);
  }

  lemma AlphaDotRest(s: string)
    requires s == "0.1.0alpha1"
    ensures Rewrite(s, "alpha-", "alpha") == s && !Contains(s, "alpha-")
    ensures Rewrite(s, "beta.", "beta") == s
    ensures DefaultNumber(s) == s
    ensures Rewrite(s, "beta", "b") == s
    ensures Rewrite(s, "alpha", "a") == "0.1.0a1"
  {
    LacksChar(s, "alpha-", 5);
    LacksChar(s, "beta.", 0);
    NoMarkerEnd(s);
    LacksChar(s, "beta", 0);
    ReplaceOnce(s, "alpha", "a", 5);
  }

  lemma AlphaDotNoLeadingZero(s: string)
    requires s == "0.1.0a1"
    ensures !Contains(s, ".00") && !Contains(s, ".01") && !Contains(s, ".02")
    ensures !Contains(s, ".03") && !Contains(s, ".04") && !Contains(s, ".05")
    ensures !Contains(s, ".06") && !Contains(s, ".07") && !Contains(s, ".08")
    ensures !Contains(s, ".09")
  {
    assert forall j :: !OccursAt(s, ".00", j) && !OccursAt(s, ".01", j);
    assert !Contains(s, ".00") && !Contains(s, ".01");
    LacksChar(s, ".02", 2);
    LacksChar(s, ".03", 2);
    LacksChar(s, ".04", 2);
    LacksChar(s, ".05", 2);
    LacksChar(s, ".06", 2);
    LacksChar(s, ".07", 2);
    LacksChar(s, ".08", 2);
    LacksChar(s, ".09", 2);
  }

  /** The separators around alpha go and alpha is spelt 'a'. */
  lemma AlphaDotExample(v: string)
    requires v == "0.1.0-alpha.1"
    ensures RetrieveDepsNormalize(v) == "0.1.0a1" && AnalyzeNormalize(v) == "0.1.0a1"
  {
    AlphaDotFacts(v);
    AlphaDotDropDash(v);
    AlphaDotDropDot("0.1.0alpha.1");
    AlphaDotRest("0.1.0alpha1");
    NoDevUnchanged(v);
    AlphaDotNoLeadingZero("0.1.0a1");
    LeadingZerosNone("0.1.0a1");
  }

  // '0.12.alpha0' -> '0.12a0'

  lemma DotAlphaFacts(v: string)
    requires v == "0.12.alpha0"
    ensures !Contains(v, "dev")
    ensures Rewrite(v, "-beta", "beta") == v && Rewrite(v, ".beta", "beta") == v
    ensures Rewrite(v, "-alpha", "alpha") == v
  {
    LacksChar(v, "dev", 0);
    LacksChar(v, "-beta", 1);
    LacksChar(v, ".beta", 1);
    LacksChar(v, "-alpha", 0);
  }

  lemma DotAlphaDropDot(v: string)
    requires v == "0.12.alpha0"
    ensures Rewrite(v, ".alpha", "alpha") == "0.12alpha0"
  {
    ReplaceOnce(v, ".alpha", "alpha", 4);
  }

  lemma DotAlphaRest(s: string)
    requires s == "0.12alpha0"
    ensures Rewrite(s, "alpha.", "alpha") == s
    ensures Rewrite(s, "alpha-", "alpha") == s && !Contains(s, "alpha-")
    ensures Rewrite(s, "beta.", "beta") == s
    ensures DefaultNumber(s) == s
    ensures Rewrite(s, "beta", "b") == s
    ensures Rewrite(s, "alpha", "a") == "0.12a0"
  {
    LacksChar(s, "alpha.", 5);
    LacksChar(s, "alpha-", 5);
    LacksChar(s, "beta.", 0);
    NoMarkerEnd(s);
    LacksChar(s, "beta", 0);
    ReplaceOnce(s, "alpha", "a", 4);
  }

  lemma DotAlphaNoLeadingZero(s: string)
    requires s == "0.12a0"
    ensures !Contains(s, ".0")
  {
    assert forall j :: !OccursAt(s, ".0", j);
  }

  /** The '.' before alpha goes and alpha is spelt 'a'. */
  lemma DotAlphaExample(v: string)
    requires v == "0.12.alpha0"
    ensures RetrieveDepsNormalize(v) == "0.12a0" && AnalyzeNormalize(v) == "0.12a0"
  {
    DotAlphaFacts(v);
    DotAlphaDropDot(v);
    DotAlphaRest("0.12alpha0");
    NoDevUnchanged(v);
    DotAlphaNoLeadingZero("0.12a0");
    LeadingZerosAbsent("0.12a0", 10);
  }

  // '2.0-beta5' -> '2.0b5'

  lemma DashBetaDropDash(v: string)
    requires v == "2.0-beta5"
    ensures !Contains(v, "dev")
    ensures Rewrite(v, "-beta", "beta") == "2.0beta5"
  {
    LacksChar(v, "dev", 0);
    ReplaceOnce(v, "-beta", "beta", 3);
  }

  lemma DashBetaRest(s: string)
    requires s == "2.0beta5"
    ensures !Contains(s, "alpha")
    ensures Rewrite(s, ".beta", "beta") == s
    ensures Rewrite(s, "beta.", "beta") == s
    ensures DefaultNumber(s) == s
    ensures Rewrite(s, "beta", "b") == "2.0b5"
  {
    LacksChar(s, "alpha", 1);
    assert forall j :: !OccursAt(s, ".beta", j);
    assert !Contains(s, ".beta");
    LacksChar(s, "beta.", 4);
    NoMarkerEnd(s);
    ReplaceOnce(s, "beta", "b", 3);
  }

  lemma DashBetaNoLeadingZero(s: string)
    requires s == "2.0b5"
    ensures !Contains(s, "alpha")
    ensures !Contains(s, ".00") && !Contains(s, ".01") && !Contains(s, ".02")
    ensures !Contains(s, ".03") && !Contains(s, ".04") && !Contains(s, ".05")
    ensures !Contains(s, ".06") && !Contains(s, ".07") && !Contains(s, ".08")
    ensures !Contains(s, ".09")
  {
    LacksChar(s, "alpha", 1);
    assert forall j :: !OccursAt(s, ".00", j) && !OccursAt(s, ".05", j);
    assert !Contains(s, ".00") && !Contains(s, ".05");
    LacksChar(s, ".01", 2);
    LacksChar(s, ".02", 2);
    LacksChar(s, ".03", 2);
    LacksChar(s, ".04", 2);
    LacksChar(s, ".06", 2);
    LacksChar(s, ".07", 2);
    LacksChar(s, ".08", 2);
    LacksChar(s, ".09", 2);
  }

  /** The '-' before beta goes and beta is spelt 'b'. */
  lemma DashBetaExample(v: string)
    requires v == "2.0-beta5"
    ensures RetrieveDepsNormalize(v) == "2.0b5" && AnalyzeNormalize(v) == "2.0b5"
  {
    DashBetaDropDash(v);
    DashBetaRest("2.0beta5");
    NoDevUnchanged(v);
    NoAlphaUnchanged("2.0beta5");
    DashBetaNoLeadingZero("2.0b5");
    NoAlphaUnchanged("2.0b5");
    LeadingZerosNone("2.0b5");
  }

  // '0.10.dev' -> '0.10.dev0'

  lemma DotDevFacts(v: string)
    requires v == "0.10.dev"
    ensures !Contains(v, "-dev") && Contains(v, ".dev") && !Contains(v, "dev-")
    ensures !Contains(v, "alpha") && !Contains(v, "beta") && EndsWith(v, "dev")
  {
    LacksChar(v, "-dev", 0);
    assert OccursAt(v, ".dev", 4);
    LacksChar(v, "dev-", 3);
    LacksChar(v, "alpha", 1);
    LacksChar(v, "beta", 0);
  }

  lemma DotDevNumbered(s: string)
    requires s == "0.10.dev0"
    ensures !Contains(s, "alpha") && !Contains(s, "beta") && !Contains(s, ".0")
  {
    LacksChar(s, "alpha", 1);
    LacksChar(s, "beta", 0);
    assert forall j :: !OccursAt(s, ".0", j);
  }

  lemma DotDevKept(v: string)
    requires v == "0.10.dev"
    ensures DevRewrite(v) == v
    ensures DefaultNumber(v) == "0.10.dev0"
  {
    DotDevFacts(v);
  }

  /** A '.dev' at the end is kept and gets the number 0. */
  lemma DotDevExample(v: string)
    requires v == "0.10.dev"
    ensures RetrieveDepsNormalize(v) == "0.10.dev0" && AnalyzeNormalize(v) == "0.10.dev0"
  {
    DotDevFacts(v);
    DotDevKept(v);
    NoAlphaBetaUnchanged(v);
    DotDevNumbered("0.10.dev0");
    NoAlphaBetaUnchanged("0.10.dev0");
    LeadingZerosAbsent("0.10.dev0", 10);
  }

  // '0.1.5dev-20111031' -> '0.1.5.dev20111031'

  lemma BareDevFacts(v: string)
    requires v == "0.1.5dev-20111031"
    ensures !Contains(v, "-dev") && !Contains(v, ".dev")
    ensures Contains(v, "dev")
  {
    assert forall j :: !OccursAt(v, "-dev", j);
    assert forall j :: !OccursAt(v, ".dev", j);
    assert OccursAt(v, "dev", 5);
  }

  lemma BareDevPlace(s: string)
    requires s == "0.1.5dev-20111031"
    ensures forall j :: 0 <= j < 5 ==> !OccursAt(s, "dev", j)
    ensures forall j :: 8 <= j ==> !OccursAt(s, "dev", j)
    ensures OccursAt(s, "dev", 5)
  {
  }

  lemma BareDevDot(s: string)
    requires s == "0.1.5dev-20111031"
    ensures Replace(s, "dev", ".dev") == "0.1.5.dev-20111031"
  {
    BareDevPlace(s);
    ReplaceOnce(s, "dev", ".dev", 5);
  }

  lemma BareDevDashPlace(s: string)
    requires s == "0.1.5.dev-20111031"
    ensures forall j :: 0 <= j < 6 ==> !OccursAt(s, "dev-", j)
    ensures forall j :: 10 <= j ==> !OccursAt(s, "dev-", j)
    ensures OccursAt(s, "dev-", 6)
  {
  }

  lemma BareDevDropDash(s: string)
    requires s == "0.1.5.dev-20111031"
    ensures Rewrite(s, "dev-", "dev") == "0.1.5.dev20111031"
  {
    BareDevDashPlace(s);
    ReplaceOnce(s, "dev-", "dev", 6);
  }

  lemma BareDevRest(v: string)
    requires v == "0.1.5.dev20111031"
    ensures !Contains(v, "alpha") && !Contains(v, "beta")
  {
    LacksChar(v, "alpha", 1);
    LacksChar(v, "beta", 0);
  }

  lemma BareDevSettled(v: string)
    requires v == "0.1.5.dev20111031"
    ensures !EndsWith(v, "dev") && !Contains(v, ".0")
  {
    NoMarkerEnd(v);
    assert forall j :: !OccursAt(v, ".0", j);
  }

  lemma BareDevRewritten(v: string)
    requires v == "0.1.5dev-20111031"
    ensures DevRewrite(v) == "0.1.5.dev20111031"
  {
    BareDevFacts(v);
    BareDevDot(v);
    BareDevDropDash("0.1.5.dev-20111031");
  }

  /** A bare 'dev' gets a '.' before it and loses the '-' after it. */
  lemma BareDevExample(v: string)
    requires v == "0.1.5dev-20111031"
    ensures RetrieveDepsNormalize(v) == "0.1.5.dev20111031" && AnalyzeNormalize(v) == "0.1.5.dev20111031"
  {
    BareDevRewritten(v);
    BareDevRest("0.1.5.dev20111031");
    BareDevSettled("0.1.5.dev20111031");
    NoAlphaBetaUnchanged("0.1.5.dev20111031");
    LeadingZerosAbsent("0.1.5.dev20111031", 10);
  }
}
