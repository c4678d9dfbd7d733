/**
 * The handful of Python string operations the modelled code relies on, with
 * Python's own semantics: slicing with negative and out-of-range indices,
 * `find`/`rfind` returning -1 when absent, `replace` of every non-overlapping
 * occurrence from left to right, `in`, `startswith`/`endswith`, ASCII
 * `lower`, `split`, `strip`, and the code-point order Python uses to compare
 * strings. The scans walk an index over the string, so that a claim about a
 * literal string can be checked by unfolding the definitions.
 */
module PyStr {

  /** A value or Python's `None`. */
  datatype Option<+T> = None | Some(value: T)

  /** Python's normalisation of one slice bound against a sequence of length n. */
  function Clamp(x: int, n: nat): (r: nat)
    ensures r <= n
    ensures 0 <= x <= n ==> r == x
    ensures x < 0 && -x <= n ==> r == n + x
    ensures x > n ==> r == n
    ensures x < 0 && -x > n ==> r == 0
  {
    if x < 0 then (if x + n < 0 then 0 else x + n)
    else if x > n then n
    else x
  }

  /** `s[a:b]` */
  function Slice(s: string, a: int, b: int): (r: string)
    ensures |r| <= |s|
    ensures Clamp(a, |s|) <= Clamp(b, |s|) ==> r == s[Clamp(a, |s|)..Clamp(b, |s|)]
    ensures Clamp(a, |s|) > Clamp(b, |s|) ==> r == []
  {
    var i, j := Clamp(a, |s|), Clamp(b, |s|);
    if i <= j then s[i..j] else []
  }

  /** The characters of p from index k on appear in s from index i + k on. */
  predicate MatchesFrom(s: string, p: string, i: nat, k: nat)
    decreases |p| - k
  {
    k >= |p| || (i + k < |s| && s[i + k] == p[k] && MatchesFrom(s, p, i, k + 1))
  }

  lemma {:induction false} MatchesFromSlice(s: string, p: string, i: nat, k: nat)
    requires k <= |p| && i + k <= |s|
    ensures MatchesFrom(s, p, i, k) <==> i + |p| <= |s| && s[i + k..i + |p|] == p[k..]
    decreases |p| - k
  {
    if k < |p| && i + k < |s| {
      MatchesFromSlice(s, p, i, k + 1);
      if i + |p| <= |s| {
        assert s[i + k..i + |p|] == [s[i + k]] + s[i + k + 1..i + |p|];
        assert p[k..] == [p[k]] + p[k + 1..];
      }
    }
  }

  /** `sub` occurs in `s` starting at index j. */
  predicate OccursAt(s: string, sub: string, j: int) {
    0 <= j <= |s| && MatchesFrom(s, sub, j, 0)
  }

  lemma OccursAtSlice(s: string, sub: string, j: int)
    ensures OccursAt(s, sub, j) <==> 0 <= j && j + |sub| <= |s| && s[j..j + |sub|] == sub
  {
    if 0 <= j <= |s| {
      MatchesFromSlice(s, sub, j, 0);
    }
  }

  /** `s.startswith(pre)` */
  predicate StartsWith(s: string, pre: string) {
    OccursAt(s, pre, 0)
  }

  /** `s.endswith(suf)` */
  predicate EndsWith(s: string, suf: string) {
    |suf| <= |s| && OccursAt(s, suf, |s| - |suf|)
  }

  /** The first occurrence of sub in s at or after index i, or -1. */
  function FindFrom(s: string, sub: string, i: nat): (r: int)
    requires i <= |s|
    ensures r == -1 || i <= r <= |s|
    ensures r >= 0 ==> OccursAt(s, sub, r) && forall j :: i <= j < r ==> !OccursAt(s, sub, j)
    ensures r == -1 ==> forall j :: i <= j ==> !OccursAt(s, sub, j)
    decreases |s| - i
  {
    if OccursAt(s, sub, i) then i
    else if i == |s| then -1
    else FindFrom(s, sub, i + 1)
  }

  /** `s.find(sub)`: the first index at which sub occurs, or -1. */
  function Find(s: string, sub: string): (r: int)
    ensures -1 <= r <= |s|
    ensures r >= 0 ==> OccursAt(s, sub, r) && forall j :: 0 <= j < r ==> !OccursAt(s, sub, j)
    ensures r == -1 ==> forall j :: !OccursAt(s, sub, j)
  {
    FindFrom(s, sub, 0)
  }

  /** The last occurrence of sub in s at or before index i, or -1. */
  function RFindFrom(s: string, sub: string, i: nat): (r: int)
    requires i <= |s|
    ensures -1 <= r <= i
    ensures r >= 0 ==> OccursAt(s, sub, r) && forall j :: r < j <= i ==> !OccursAt(s, sub, j)
    ensures r == -1 ==> forall j :: j <= i ==> !OccursAt(s, sub, j)
  {
    if OccursAt(s, sub, i) then i
    else if i == 0 then -1
    else RFindFrom(s, sub, i - 1)
  }

  /** `s.rfind(sub)`: the last index at which sub occurs, or -1. */
  function RFind(s: string, sub: string): (r: int)
    ensures -1 <= r <= |s|
    ensures r >= 0 ==> OccursAt(s, sub, r) && forall j :: r < j ==> !OccursAt(s, sub, j)
    ensures r == -1 ==> forall j :: !OccursAt(s, sub, j)
  {
    RFindFrom(s, sub, |s|)
  }

  /** `sub in s` */
  predicate Contains(s: string, sub: string) {
    Find(s, sub) >= 0
  }

  /** An occurrence of a one-character string is an index holding that character. */
  lemma OccursAtChar(s: string, c: char)
    ensures forall j :: OccursAt(s, [c], j) <==> 0 <= j < |s| && s[j] == c
  {
    forall j ensures OccursAt(s, [c], j) <==> 0 <= j < |s| && s[j] == c {
      OccursAtSlice(s, [c], j);
      if 0 <= j < |s| { assert s[j..j + 1] == [s[j]]; }
    }
  }

  /** A string occurring at some index is `in` s, and `in` finds the first such index. */
  lemma ContainsAt(s: string, sub: string, j: int)
    requires OccursAt(s, sub, j)
    ensures Contains(s, sub) && 0 <= Find(s, sub) <= j
  {
  }

  /** A character string is `in` s exactly when the character is. */
  lemma ContainsChar(s: string, c: char)
    ensures Contains(s, [c]) <==> c in s
  {
    OccursAtChar(s, c);
    if c in s {
      var j :| 0 <= j < |s| && s[j] == c;
      ContainsAt(s, [c], j);
    }
  }

  /**
   * sub is not `in` s when its k-th character appears nowhere in s where
   * an occurrence of sub would put it.
   */
  lemma LacksChar(s: string, sub: string, k: nat)
    requires k < |sub|
    requires |sub| <= |s| ==> sub[k] !in s[k..|s| - |sub| + k + 1]
    ensures !Contains(s, sub)
  {
    if Contains(s, sub) {
      var j := Find(s, sub);
      OccursAtSlice(s, sub, j);
    }
  }

  /** Both halves of a string that is `in` s are `in` s. */
  lemma ContainsParts(s: string, a: string, b: string)
    requires Contains(s, a + b)
    ensures Contains(s, a) && Contains(s, b)
  {
    var j := Find(s, a + b);
    OccursAtSlice(s, a + b, j);
    var w := s[j..j + |a| + |b|];
    assert w == a + b;
    assert s[j..j + |a|] == w[..|a|] == a;
    assert s[j + |a|..j + |a| + |b|] == w[|a|..] == b;
    OccursAtSlice(s, a, j);
    OccursAtSlice(s, b, j + |a|);
    ContainsAt(s, a, j);
    ContainsAt(s, b, j + |a|);
  }

  /** A suffix of s is `in` s. */
  lemma EndsWithContains(s: string, suf: string)
    requires EndsWith(s, suf)
    ensures Contains(s, suf)
  {
    ContainsAt(s, suf, |s| - |suf|);
  }

  /** The last occurrence is the one with none after it. */
  lemma RFindAt(s: string, sub: string, p: int)
    requires OccursAt(s, sub, p)
    requires forall j :: p < j ==> !OccursAt(s, sub, j)
    ensures RFind(s, sub) == p
  {
  }

  /** s with every a replaced by b, character by character. */
  function MapChar(s: string, a: char, b: char): (r: string)
    ensures |r| == |s|
  {
    seq(|s|, k requires 0 <= k < |s| => if s[k] == a then b else s[k])
  }

  lemma {:induction false} ReplaceCharFrom(s: string, a: char, b: char, i: nat)
    requires i <= |s|
    ensures ReplaceFrom(s, [a], [b], i) == MapChar(s[i..], a, b)
    decreases |s| - i
  {
    if i < |s| {
      ReplaceCharFrom(s, a, b, i + 1);
      OccursAtSlice(s, [a], i);
      assert OccursAt(s, [a], i) <==> s[i] == a;
      assert MapChar(s[i..], a, b) == [if s[i] == a then b else s[i]] + MapChar(s[i + 1..], a, b);
    }
  }

  /** Replacing a single character replaces it at every index and changes nothing else. */
  lemma ReplaceChar(s: string, a: char, b: char)
    ensures Replace(s, [a], [b]) == MapChar(s, a, b)
  {
    ReplaceCharFrom(s, a, b, 0);
    assert s[0..] == s;
  }

  /** The characters of s from index i on, with every non-overlapping occurrence of pat replaced. */
  function ReplaceFrom(s: string, pat: string, rep: string, i: nat): (r: string)
    requires |pat| > 0 && i <= |s|
    decreases |s| - i
  {
    if i == |s| then []
    else if OccursAt(s, pat, i) then
      OccursAtSlice(s, pat, i);
      rep + ReplaceFrom(s, pat, rep, i + |pat|)
    else
      assert s[i..] == [s[i]] + s[i + 1..];
      [s[i]] + ReplaceFrom(s, pat, rep, i + 1)
  }

  /**
   * `s.replace(pat, rep)` for a non-empty `pat`: every non-overlapping
   * occurrence, scanning from the left, is replaced.
   */
  function Replace(s: string, pat: string, rep: string): (r: string)
    requires |pat| > 0
    ensures !Contains(s, pat) ==> r == s
  {
    ReplaceFromAbsent(s, pat, rep, 0);
    ReplaceFrom(s, pat, rep, 0)
  }

  /** Where pat does not occur from i on, replacing from i copies the rest unchanged. */
  lemma {:induction false} ReplaceFromAbsent(s: string, pat: string, rep: string, i: nat)
    requires |pat| > 0 && i <= |s|
    ensures FindFrom(s, pat, i) == -1 ==> ReplaceFrom(s, pat, rep, i) == s[i..]
    decreases |s| - i
  {
    if i < |s| && FindFrom(s, pat, i) == -1 {
      ReplaceFromAbsent(s, pat, rep, i + 1);
      assert s[i..] == [s[i]] + s[i + 1..];
    }
  }

  /** Past an index where pat does not occur, replacing copies that one character. */
  lemma ReplaceFromSkip(s: string, pat: string, rep: string, i: nat)
    requires |pat| > 0 && i < |s| && !OccursAt(s, pat, i)
    ensures ReplaceFrom(s, pat, rep, i) == [s[i]] + ReplaceFrom(s, pat, rep, i + 1)
  {
  }

  /** pat occurs at none of the indices i, ..., k - 1 of s. */
  predicate NoneBetween(s: string, pat: string, i: nat, k: nat)
    decreases k - i
  {
    i >= k || (!OccursAt(s, pat, i) && NoneBetween(s, pat, i + 1, k))
  }

  lemma {:induction false} NoneBetweenAll(s: string, pat: string, i: nat, k: nat)
    requires forall j :: i <= j < k ==> !OccursAt(s, pat, j)
    ensures NoneBetween(s, pat, i, k)
    decreases k - i
  {
    if i < k {
      NoneBetweenAll(s, pat, i + 1, k);
    }
  }

  /** Where pat does not occur from i up to k, replacing from i copies that stretch unchanged. */
  lemma {:induction false} ReplaceFromCopies(s: string, pat: string, rep: string, i: nat, k: nat)
    requires |pat| > 0 && i <= k <= |s|
    requires NoneBetween(s, pat, i, k)
    ensures ReplaceFrom(s, pat, rep, i) == s[i..k] + ReplaceFrom(s, pat, rep, k)
    decreases k - i
  {
    if i < k {
      ReplaceFromCopies(s, pat, rep, i + 1, k);
      ReplaceFromSkip(s, pat, rep, i);
      var tail := ReplaceFrom(s, pat, rep, k);
      assert [s[i]] + (s[i + 1..k] + tail) == ([s[i]] + s[i + 1..k]) + tail;
      assert [s[i]] + s[i + 1..k] == s[i..k];
    }
  }

  /** A string where pat occurs at k and nowhere else: `replace` swaps that one occurrence. */
  lemma ReplaceOnce(s: string, pat: string, rep: string, k: nat)
    requires |pat| > 0 && k + |pat| <= |s| && OccursAt(s, pat, k)
    requires forall j :: 0 <= j < k ==> !OccursAt(s, pat, j)
    requires forall j :: k + |pat| <= j ==> !OccursAt(s, pat, j)
    ensures Contains(s, pat)
    ensures Replace(s, pat, rep) == s[..k] + rep + s[k + |pat|..]
  {
    OccursAtSlice(s, pat, k);
    ContainsAt(s, pat, k);
    NoneBetweenAll(s, pat, 0, k);
    ReplaceFromCopies(s, pat, rep, 0, k);
    ReplaceFromAbsent(s, pat, rep, k + |pat|);
  }

  /** ASCII `lower()` of one character; other characters are unchanged. */
  function LowerChar(c: char): (r: char)
    ensures 'A' <= c <= 'Z' ==> r as int == c as int + 32
    ensures !('A' <= c <= 'Z') ==> r == c
    ensures !('A' <= r <= 'Z')
  {
    if 'A' <= c <= 'Z' then (c as int + 32) as char else c
  }

  /** `s.lower()` (ASCII letters only). */
  function Lower(s: string): (r: string)
    ensures |r| == |s|
    ensures forall i :: 0 <= i < |s| ==> r[i] == LowerChar(s[i])
  {
    seq(|s|, i requires 0 <= i < |s| => LowerChar(s[i]))
  }

  /** A string `lower()` leaves unchanged. */
  predicate IsLower(s: string) {
    forall i :: 0 <= i < |s| ==> !('A' <= s[i] <= 'Z')
  }

  /** `lower()` yields a lower-case string, and leaves exactly the lower-case strings unchanged. */
  lemma LowerIsLower(s: string)
    ensures IsLower(Lower(s))
    ensures IsLower(s) <==> Lower(s) == s
  {
    if IsLower(s) {
      assert forall i :: 0 <= i < |s| ==> Lower(s)[i] == s[i];
    }
  }

  /** Python's `str.isspace` characters that `strip()` removes. */
  predicate IsSpace(c: char) {
    c == ' ' || c == '\t' || c == '\n' || c == '\r' || c as int == 11 || c as int == 12
  }

  /** The first index at or after i that does not hold a space, or j. */
  function LeftEdge(s: string, i: nat, j: nat): (r: nat)
    requires i <= j <= |s|
    ensures i <= r <= j
    ensures r < j ==> !IsSpace(s[r])
    ensures forall k :: i <= k < r ==> IsSpace(s[k])
    decreases j - i
  {
    if i < j && IsSpace(s[i]) then LeftEdge(s, i + 1, j) else i
  }

  /** The index after the last non-space character before j, not going below i. */
  function RightEdge(s: string, i: nat, j: nat): (r: nat)
    requires i <= j <= |s|
    ensures i <= r <= j
    ensures r > i ==> !IsSpace(s[r - 1])
    ensures forall k :: r <= k < j ==> IsSpace(s[k])
    decreases j - i
  {
    if i < j && IsSpace(s[j - 1]) then RightEdge(s, i, j - 1) else j
  }

  /** `s[i:j].strip()` */
  function StripRange(s: string, i: nat, j: nat): (r: string)
    requires i <= j <= |s|
    ensures r == [] || (!IsSpace(r[0]) && !IsSpace(r[|r| - 1]))
  {
    var a := LeftEdge(s, i, j);
    s[a..RightEdge(s, a, j)]
  }

  /** `s.strip()` */
  function Strip(s: string): (r: string)
    ensures r == [] || (!IsSpace(r[0]) && !IsSpace(r[|r| - 1]))
  {
    StripRange(s, 0, |s|)
  }

  /** The pieces of `s.split(sep)` from the piece that starts at index start on. */
  function SplitFrom(s: string, sep: char, start: nat, i: nat): (r: seq<string>)
    requires start <= i <= |s|
    requires forall k :: start <= k < i ==> s[k] != sep
    ensures |r| >= 1
    ensures forall k :: 0 <= k < |r| ==> sep !in r[k]
    decreases |s| - i
  {
    if i == |s| then [s[start..]]
    else if s[i] == sep then [s[start..i]] + SplitFrom(s, sep, i + 1, i + 1)
    else SplitFrom(s, sep, start, i + 1)
  }

  /** `s.split(sep)` for a single-character separator: always at least one piece. */
  function Split(s: string, sep: char): (r: seq<string>)
    ensures |r| >= 1
    ensures forall k :: 0 <= k < |r| ==> sep !in r[k]
  {
    SplitFrom(s, sep, 0, 0)
  }

  /** With no separator from i on, the rest of the split is the one piece from start. */
  lemma {:induction false} SplitFromNoSep(s: string, sep: char, start: nat, i: nat)
    requires start <= i <= |s|
    requires forall k :: start <= k < |s| ==> s[k] != sep
    ensures SplitFrom(s, sep, start, i) == [s[start..]]
    decreases |s| - i
  {
    if i < |s| {
      SplitFromNoSep(s, sep, start, i + 1);
    }
  }

  /** Splitting `a + sep + b` splits a, then adds b as the last piece, when b holds no separator. */
  lemma {:induction false} SplitAppend(a: string, b: string, sep: char, start: nat, i: nat)
    requires start <= i <= |a|
    requires forall k :: start <= k < i ==> a[k] != sep
    requires sep !in b
    ensures SplitFrom(a + [sep] + b, sep, start, i) == SplitFrom(a, sep, start, i) + [b]
    decreases |a| - i
  {
    var s := a + [sep] + b;
    assert s[..|a|] == a && s[|a|] == sep && s[|a| + 1..] == b;
    if i == |a| {
      SplitFromNoSep(s, sep, |a| + 1, |a| + 1);
      assert s[start..i] == a[start..];
    } else if a[i] == sep {
      assert s[i] == sep && s[start..i] == a[start..i];
      SplitAppend(a, b, sep, i + 1, i + 1);
    } else {
      assert s[i] == a[i];
      SplitAppend(a, b, sep, start, i + 1);
    }
  }

  /** Python's comparison of a[i:] and b[i:]: code-point lexicographic order, a prefix first. */
  predicate StrLeFrom(a: string, b: string, i: nat)
    decreases |a| - i
  {
    i >= |a| || (i < |b| && (a[i] < b[i] || (a[i] == b[i] && StrLeFrom(a, b, i + 1))))
  }

  /** Python's `a <= b` on strings. */
  predicate StrLe(a: string, b: string) {
    StrLeFrom(a, b, 0)
  }

  lemma {:induction false} StrLeFromTotal(a: string, b: string, i: nat)
    ensures StrLeFrom(a, b, i) || StrLeFrom(b, a, i)
    decreases |a| - i
  {
    if i < |a| && i < |b| && a[i] == b[i] {
      StrLeFromTotal(a, b, i + 1);
    }
  }

  lemma {:induction false} StrLeFromAntisymmetric(a: string, b: string, i: nat)
    requires i <= |a| && i <= |b| && a[..i] == b[..i]
    requires StrLeFrom(a, b, i) && StrLeFrom(b, a, i)
    ensures a == b
    decreases |a| - i
  {
    if i < |a| && i < |b| {
      assert a[..i + 1] == a[..i] + [a[i]] && b[..i + 1] == b[..i] + [b[i]];
      StrLeFromAntisymmetric(a, b, i + 1);
    } else {
      assert a == a[..i] && b == b[..i];
    }
  }

  lemma {:induction false} StrLeFromTransitive(a: string, b: string, c: string, i: nat)
    requires StrLeFrom(a, b, i) && StrLeFrom(b, c, i)
    ensures StrLeFrom(a, c, i)
    decreases |a| - i
  {
    if i < |a| && i < |b| && i < |c| && a[i] == b[i] && b[i] == c[i] {
      StrLeFromTransitive(a, b, c, i + 1);
    }
  }

  /** Python's string order is total, antisymmetric and transitive. */
  lemma StrLeTotalOrder(a: string, b: string, c: string)
    ensures StrLe(a, b) || StrLe(b, a)
    ensures StrLe(a, b) && StrLe(b, a) ==> a == b
    ensures StrLe(a, b) && StrLe(b, c) ==> StrLe(a, c)
  {
    StrLeFromTotal(a, b, 0);
    if StrLe(a, b) && StrLe(b, a) { StrLeFromAntisymmetric(a, b, 0); }
    if StrLe(a, b) && StrLe(b, c) { StrLeFromTransitive(a, b, c, 0); }
  }
}
