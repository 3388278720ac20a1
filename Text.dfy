/**
 * The Python string operations the cleaner relies on: `find`, `rfind`, `in`,
 * `replace`, `strip` and `startswith`, as functions on `seq<char>`.
 */
module Text {

  /** `pat` occurs in `s` starting at index `i`. */
  predicate OccursAt(s: string, pat: string, i: int)
  {
    0 <= i && i + |pat| <= |s| && s[i..i + |pat|] == pat
  }

  predicate NoOccurrence(s: string, pat: string)
  {
    forall i :: 0 <= i <= |s| ==> !OccursAt(s, pat, i)
  }

  /** No two distinct indices at which `pat` starts. */
  predicate AtMostOnce(s: string, pat: string)
  {
    forall i, j :: 0 <= i <= |s| && 0 <= j <= |s| && OccursAt(s, pat, i) && OccursAt(s, pat, j) ==> i == j
  }

  /** `r` is a suffix of `s` (a string `s[k:]`). */
  predicate IsSuffix(r: string, s: string)
  {
    |r| <= |s| && s[|s| - |r|..] == r
  }

  function FindFrom(s: string, pat: string, i: nat): (r: int)
    ensures r == -1 ==> forall j :: i <= j ==> !OccursAt(s, pat, j)
    ensures r != -1 ==> i <= r && OccursAt(s, pat, r) && forall j :: i <= j < r ==> !OccursAt(s, pat, j)
    decreases |s| - i
  {
    if i + |pat| > |s| then -1
    else if s[i..i + |pat|] == pat then i
    else FindFrom(s, pat, i + 1)
  }

  /** `s.find(pat)`: the lowest index at which `pat` occurs, or -1 if there is none. */
  function Find(s: string, pat: string): (r: int)
    ensures r == -1 <==> NoOccurrence(s, pat)
    ensures r != -1 ==> OccursAt(s, pat, r) && forall j :: j < r ==> !OccursAt(s, pat, j)
  {
    FindFrom(s, pat, 0)
  }

  function RFindDown(s: string, pat: string, i: nat): (r: int)
    ensures r == -1 ==> forall j :: j <= i ==> !OccursAt(s, pat, j)
    ensures r != -1 ==> r <= i && OccursAt(s, pat, r) && forall j :: r < j <= i ==> !OccursAt(s, pat, j)
  {
    if OccursAt(s, pat, i) then i
    else if i == 0 then -1
    else RFindDown(s, pat, i - 1)
  }

  /** `s.rfind(pat)`: the highest index at which `pat` occurs, or -1 if there is none. */
  function RFind(s: string, pat: string): (r: int)
    ensures r == -1 <==> NoOccurrence(s, pat)
    ensures r != -1 ==> OccursAt(s, pat, r) && forall j :: r < j ==> !OccursAt(s, pat, j)
  {
    if |pat| > |s| then -1 else RFindDown(s, pat, |s| - |pat|)
  }

  /** `pat in s`. */
  function Contains(s: string, pat: string): (b: bool)
    ensures b <==> exists i :: OccursAt(s, pat, i)
  {
    Find(s, pat) != -1
  }

  /**
   * `s.replace(target, replacement)`: every occurrence of `target`, found left
   * to right without overlapping, is replaced.
   */
  function ReplaceAll(s: string, target: string, replacement: string): string
    requires |target| > 0
    decreases |s|
  {
    if |s| < |target| then s
    else if s[..|target|] == target then replacement + ReplaceAll(s[|target|..], target, replacement)
    else [s[0]] + ReplaceAll(s[1..], target, replacement)
  }

  /** The characters for which Python's `str.isspace()` holds. */
  predicate IsSpace(c: char)
  {
    || '\t' <= c <= '\r'
    || '\U{1C}' <= c <= ' '
    || c == '\U{85}' || c == '\U{A0}' || c == '\U{1680}'
    || '\U{2000}' <= c <= '\U{200A}'
    || c == '\U{2028}' || c == '\U{2029}' || c == '\U{202F}' || c == '\U{205F}' || c == '\U{3000}'
  }

  /** `s.lstrip()`: only leading whitespace is removed, and all of it. */
  function LStrip(s: string): (r: string)
    ensures IsSuffix(r, s)
    ensures forall i :: 0 <= i < |s| - |r| ==> IsSpace(s[i])
    ensures r == [] || !IsSpace(r[0])
  {
    if s != [] && IsSpace(s[0]) then
      var r := LStrip(s[1..]);
      assert s[1..][|s| - 1 - |r|..] == s[|s| - |r|..];
      r
    else s
  }

  /** `s.rstrip()`: only trailing whitespace is removed, and all of it. */
  function RStrip(s: string): (r: string)
    ensures |r| <= |s| && r == s[..|r|]
    ensures forall i :: |r| <= i < |s| ==> IsSpace(s[i])
    ensures r == [] || !IsSpace(r[|r| - 1])
  {
    if s != [] && IsSpace(s[|s| - 1]) then RStrip(s[..|s| - 1]) else s
  }

  /** `s.strip()`: the slice of `s` left once whitespace is removed from both ends. */
  function Strip(s: string): (r: string)
    ensures var k := |s| - |LStrip(s)|;
            && k + |r| <= |s| && r == s[k..k + |r|]
            && (forall i :: 0 <= i < k ==> IsSpace(s[i]))
            && (forall i :: k + |r| <= i < |s| ==> IsSpace(s[i]))
    ensures r == [] || (!IsSpace(r[0]) && !IsSpace(r[|r| - 1]))
  {
    RStrip(LStrip(s))
  }

  /** `s.startswith(p)`. */
  predicate StartsWith(s: string, p: string)
  {
    |p| <= |s| && s[..|p|] == p
  }

  // ---------------------------------------------------------------------------
  // Lemmas

  lemma OccursInSuffix(s: string, k: nat, pat: string, j: int)
    requires k <= |s| && OccursAt(s[k..], pat, j)
    ensures OccursAt(s, pat, k + j)
  {
    assert s[k..][j..j + |pat|] == s[k + j..k + j + |pat|];
  }

  /** A suffix has no more occurrences than the whole: at most once stays at most once. */
  lemma SuffixAtMostOnce(r: string, s: string, pat: string)
    requires IsSuffix(r, s) && AtMostOnce(s, pat)
    ensures AtMostOnce(r, pat)
  {
    var k := |s| - |r|;
    forall i, j | OccursAt(r, pat, i) && OccursAt(r, pat, j) ensures i == j {
      OccursInSuffix(s, k, pat, i);
      OccursInSuffix(s, k, pat, j);
    }
  }

  lemma SuffixTransitive(a: string, b: string, c: string)
    requires IsSuffix(a, b) && IsSuffix(b, c)
    ensures IsSuffix(a, c)
  {
    assert c[|c| - |a|..] == c[|c| - |b|..][|b| - |a|..];
  }

  lemma NoOccurrenceTail(s: string, pat: string)
    requires |s| > 0 && NoOccurrence(s, pat)
    ensures NoOccurrence(s[1..], pat)
  {
    forall i | OccursAt(s[1..], pat, i) ensures false {
      OccursInSuffix(s, 1, pat, i);
    }
  }

  /** Replacing a target that does not occur changes nothing. */
  lemma {:induction false} ReplaceAllAbsent(s: string, target: string, replacement: string)
    requires |target| > 0 && NoOccurrence(s, target)
    ensures ReplaceAll(s, target, replacement) == s
    decreases |s|
  {
    if |s| >= |target| {
      assert !OccursAt(s, target, 0);
      NoOccurrenceTail(s, target);
      ReplaceAllAbsent(s[1..], target, replacement);
      assert s == [s[0]] + s[1..];
    }
  }

  /** Replacing a target by itself changes nothing. */
  lemma {:induction false} ReplaceAllSelf(s: string, target: string)
    requires |target| > 0
    ensures ReplaceAll(s, target, target) == s
    decreases |s|
  {
    if |s| >= |target| {
      if s[..|target|] == target {
        ReplaceAllSelf(s[|target|..], target);
        assert s == s[..|target|] + s[|target|..];
      } else {
        ReplaceAllSelf(s[1..], target);
        assert s == [s[0]] + s[1..];
      }
    }
  }

  /** A string without the character `c` has no occurrence of a pattern starting with `c`. */
  lemma NoOccurrenceWithout(s: string, target: string)
    requires |target| > 0 && target[0] !in s
    ensures NoOccurrence(s, target)
  {
  }

  /**
   * One token between texts that cannot start another one (they do not contain
   * its first character) is replaced by the value, and nothing else changes.
   */
  lemma {:induction false} ReplaceAllSingle(a: string, target: string, b: string, replacement: string)
    requires |target| > 0 && target[0] !in a && target[0] !in b
    ensures ReplaceAll(a + target + b, target, replacement) == a + replacement + b
    decreases |a|
  {
    var s := a + target + b;
    if a == [] {
      assert s[..|target|] == target;
      assert s[|target|..] == b;
      NoOccurrenceWithout(b, target);
      ReplaceAllAbsent(b, target, replacement);
    } else {
      assert s[0] == a[0] && s[..|target|][0] == s[0];
      assert s[1..] == a[1..] + target + b;
      ReplaceAllSingle(a[1..], target, b, replacement);
      assert a + replacement + b == [a[0]] + (a[1..] + replacement + b);
    }
  }

  /** Right-stripping keeps a prefix of the text that ends in a non-space character. */
  lemma {:induction false} RStripKeepsPrefix(t: string, p: string)
    requires StartsWith(t, p) && |p| > 0 && !IsSpace(p[|p| - 1])
    ensures StartsWith(RStrip(t), p)
    decreases |t|
  {
    if t != [] && IsSpace(t[|t| - 1]) {
      assert |p| < |t|;
      assert t[..|t| - 1][..|p|] == p;
      RStripKeepsPrefix(t[..|t| - 1], p);
    }
  }

  /**
   * For a prefix ending in a non-space character, `s.strip().startswith(p)`
   * holds exactly when `s` starts with `p` once leading whitespace is removed.
   */
  lemma StripStartsWith(s: string, p: string)
    requires |p| > 0 && !IsSpace(p[|p| - 1])
    ensures StartsWith(Strip(s), p) <==> StartsWith(LStrip(s), p)
  {
    var t := LStrip(s);
    if StartsWith(t, p) {
      RStripKeepsPrefix(t, p);
    }
    if StartsWith(Strip(s), p) {
      var r := RStrip(t);
      assert t[..|r|][..|p|] == t[..|p|];
    }
  }
}
