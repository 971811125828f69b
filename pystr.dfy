/**
 * The Python `str` builtins that the toolbelt's decisions rest on:
 * `find`, `count`, `replace(old, new, 1)`, `strip` and `str(int)`.
 * Strings are sequences of Unicode scalar values, compared code point by
 * code point, as Python compares them.
 */
module PyStr {
  import opened Wrappers

  // ---------------------------------------------------------------------
  // Literal substring occurrences
  // ---------------------------------------------------------------------

  /** `pat` occurs in `s` starting at index `i` (a literal, non-pattern match). */
  predicate OccursAt(s: string, pat: string, i: int)
  {
    0 <= i && i + |pat| <= |s| && s[i..i + |pat|] == pat
  }

  /** Dropping the first `d` characters shifts every occurrence at or after `d` by `d`. */
  lemma OccursInSuffix(s: string, pat: string, d: nat)
    requires d <= |s|
    ensures forall j :: d <= j ==> (OccursAt(s, pat, j) <==> OccursAt(s[d..], pat, j - d))
  {
    forall j | d <= j
      ensures OccursAt(s, pat, j) <==> OccursAt(s[d..], pat, j - d)
    {
      if j + |pat| <= |s| {
        assert s[j..j + |pat|] == s[d..][j - d..j - d + |pat|];
      }
    }
  }

  /** Python's `s.find(pat)`: the leftmost occurrence, or none. */
  function FindFirst(s: string, pat: string): (r: Option<nat>)
    ensures r.Some? ==> OccursAt(s, pat, r.value)
    ensures r.Some? ==> forall j :: 0 <= j < r.value ==> !OccursAt(s, pat, j)
    ensures r.None? ==> forall j :: !OccursAt(s, pat, j)
    decreases |s|
  {
    if |s| < |pat| then None
    else if s[..|pat|] == pat then Some(0)
    else
      OccursInSuffix(s, pat, 1);
      match FindFirst(s[1..], pat)
      case None => None
      case Some(j) => Some(j + 1)
  }

  /**
   * Python's `s.count(pat)`: occurrences counted greedily from the left,
   * each search resuming after the previous match, so overlapping
   * occurrences are not counted twice. The empty pattern counts |s| + 1.
   */
  function Count(s: string, pat: string): (n: nat)
    ensures |pat| == 0 ==> n == |s| + 1
    decreases |s|
  {
    if |pat| == 0 then |s| + 1
    else
      match FindFirst(s, pat)
      case None => 0
      case Some(i) => 1 + Count(s[i + |pat|..], pat)
  }

  /** The count is zero exactly when `pat` does not occur at all. */
  lemma CountZeroIffAbsent(s: string, pat: string)
    ensures Count(s, pat) == 0 <==> forall j :: !OccursAt(s, pat, j)
  {
    if |pat| == 0 {
      assert OccursAt(s, pat, 0);
    }
  }

  /** `s` holds two occurrences of `pat` that do not overlap. */
  ghost predicate TwoDisjointOccurrences(s: string, pat: string)
  {
    exists i, j :: OccursAt(s, pat, i) && OccursAt(s, pat, j) && i + |pat| <= j
  }

  /** An occurrence in the text after index `d` is an occurrence in `s`, shifted by `d`. */
  lemma OccursShifted(s: string, pat: string, d: nat, k: int)
    requires d <= |s|
    ensures OccursAt(s[d..], pat, k) <==> k >= 0 && OccursAt(s, pat, d + k)
  {
    if 0 <= k && d + k + |pat| <= |s| {
      assert s[d..][k..k + |pat|] == s[d + k..d + k + |pat|];
    }
  }

  /** A count of two or more comes from two disjoint occurrences: the first match and one after it. */
  lemma {:induction false} CountTwoHasDisjointPair(s: string, pat: string)
    requires |pat| > 0 && Count(s, pat) >= 2
    ensures TwoDisjointOccurrences(s, pat)
  {
    var f := FindFirst(s, pat).value;
    var d := f + |pat|;
    assert Count(s[d..], pat) >= 1;
    CountZeroIffAbsent(s[d..], pat);
    var k :| OccursAt(s[d..], pat, k);
    OccursShifted(s, pat, d, k);
    assert OccursAt(s, pat, f) && OccursAt(s, pat, d + k);
  }

  /** Two disjoint occurrences make the count at least two: the second lies after the first match. */
  lemma {:induction false} DisjointPairCountsTwo(s: string, pat: string)
    requires |pat| > 0 && TwoDisjointOccurrences(s, pat)
    ensures Count(s, pat) >= 2
  {
    var i, j :| OccursAt(s, pat, i) && OccursAt(s, pat, j) && i + |pat| <= j;
    PairCountsTwo(s, pat, i, j);
  }

  lemma {:induction false} PairCountsTwo(s: string, pat: string, i: int, j: int)
    requires |pat| > 0 && OccursAt(s, pat, i) && OccursAt(s, pat, j) && i + |pat| <= j
    ensures Count(s, pat) >= 2
  {
    FirstMatchNoLater(s, pat, i);
    var d := FindFirst(s, pat).value + |pat|;
    OccursShifted(s, pat, d, j - d);
    CountPositive(s[d..], pat, j - d);
    CountAfterFirst(s, pat);
  }

  lemma CountPositive(s: string, pat: string, k: int)
    requires OccursAt(s, pat, k)
    ensures Count(s, pat) > 0
  {
    CountZeroIffAbsent(s, pat);
  }

  /** The greedy count is the first match plus the count after it. */
  lemma CountAfterFirst(s: string, pat: string)
    requires |pat| > 0 && FindFirst(s, pat).Some?
    ensures Count(s, pat) == 1 + Count(s[FindFirst(s, pat).value + |pat|..], pat)
  {
  }


  /** The leftmost match lies at or before any occurrence. */
  lemma FirstMatchNoLater(s: string, pat: string, i: int)
    requires OccursAt(s, pat, i)
    ensures FindFirst(s, pat).Some? && FindFirst(s, pat).value <= i
  {
  }

  /**
   * The greedy count reaches two exactly when two non-overlapping
   * occurrences exist, wherever they are.
   */
  lemma CountAtLeastTwo(s: string, pat: string)
    requires |pat| > 0
    ensures Count(s, pat) >= 2 <==> TwoDisjointOccurrences(s, pat)
  {
    if Count(s, pat) >= 2 {
      CountTwoHasDisjointPair(s, pat);
    }
    if TwoDisjointOccurrences(s, pat) {
      DisjointPairCountsTwo(s, pat);
    }
  }

  /**
   * A count of exactly one: `pat` occurs, and no two occurrences are
   * disjoint. Overlapping occurrences are still allowed.
   */
  lemma CountIsOne(s: string, pat: string)
    requires |pat| > 0
    ensures Count(s, pat) == 1 <==> (exists j :: OccursAt(s, pat, j)) && !TwoDisjointOccurrences(s, pat)
  {
    CountZeroIffAbsent(s, pat);
    CountAtLeastTwo(s, pat);
  }

  /**
   * `idx` lists occurrences of `pat` in `s` from left to right, each one
   * starting after the previous one ends.
   */
  predicate NonOverlapping(s: string, pat: string, idx: seq<int>)
  {
    && (forall m :: 0 <= m < |idx| ==> OccursAt(s, pat, idx[m]))
    && (forall m, n :: 0 <= m < n < |idx| ==> idx[m] + |pat| <= idx[n])
  }

  function Shifted(idx: seq<int>, d: int): (r: seq<int>)
    ensures |r| == |idx| && forall m :: 0 <= m < |idx| ==> r[m] == idx[m] + d
  {
    seq(|idx|, m requires 0 <= m < |idx| => idx[m] + d)
  }

  /** The positions `count` counts: each match found by searching on after the previous one. */
  function GreedyMatches(s: string, pat: string): seq<int>
    requires |pat| > 0
    decreases |s|
  {
    match FindFirst(s, pat)
    case None => []
    case Some(i) => [i] + Shifted(GreedyMatches(s[i + |pat|..], pat), i + |pat|)
  }

  /** The greedy matches are non-overlapping occurrences, as many as the count. */
  lemma {:induction false} GreedyMatchesCounted(s: string, pat: string)
    requires |pat| > 0
    ensures NonOverlapping(s, pat, GreedyMatches(s, pat))
    ensures |GreedyMatches(s, pat)| == Count(s, pat)
    decreases |s|
  {
    if FindFirst(s, pat).Some? {
      var i := FindFirst(s, pat).value;
      var d := i + |pat|;
      GreedyMatchesCounted(s[d..], pat);
      PrependMatch(s, pat, i, GreedyMatches(s[d..], pat));
    }
  }

  /** An occurrence followed by non-overlapping occurrences after its end is non-overlapping. */
  lemma PrependMatch(s: string, pat: string, i: int, rest: seq<int>)
    requires OccursAt(s, pat, i) && NonOverlapping(s[i + |pat|..], pat, rest)
    ensures NonOverlapping(s, pat, [i] + Shifted(rest, i + |pat|))
  {
    var d := i + |pat|;
    var r := [i] + Shifted(rest, d);
    assert r[0] == i;
    forall m | 1 <= m < |r|
      ensures r[m] == rest[m - 1] + d && OccursAt(s, pat, r[m]) && d <= r[m]
    {
      assert r[m] == Shifted(rest, d)[m - 1];
      OccursShifted(s, pat, d, rest[m - 1]);
    }
    forall m, n | 0 <= m < n < |r|
      ensures r[m] + |pat| <= r[n]
    {
      if m > 0 {
        assert rest[m - 1] + |pat| <= rest[n - 1];
      }
    }
  }

  /** No list of non-overlapping occurrences is longer than the count. */
  lemma {:induction false} NonOverlappingAtMostCount(s: string, pat: string, idx: seq<int>)
    requires |pat| > 0 && NonOverlapping(s, pat, idx)
    ensures |idx| <= Count(s, pat)
    decreases |s|
  {
    if idx != [] {
      FirstMatchNoLater(s, pat, idx[0]);
      var d := FindFirst(s, pat).value + |pat|;
      var tail := Shifted(idx[1..], -d);
      forall m | 0 <= m < |tail|
        ensures OccursAt(s[d..], pat, tail[m])
      {
        OccursShifted(s, pat, d, tail[m]);
      }
      assert NonOverlapping(s[d..], pat, tail);
      NonOverlappingAtMostCount(s[d..], pat, tail);
      CountAfterFirst(s, pat);
    }
  }

  /**
   * The greedy count is the largest number of non-overlapping
   * occurrences: the count reaches `k` exactly when `k` of them exist.
   */
  lemma CountAtLeast(s: string, pat: string, k: nat)
    requires |pat| > 0
    ensures Count(s, pat) >= k <==> exists idx :: |idx| == k && NonOverlapping(s, pat, idx)
  {
    if Count(s, pat) >= k {
      GreedyMatchesCounted(s, pat);
      var idx := GreedyMatches(s, pat)[..k];
      assert NonOverlapping(s, pat, idx);
    }
    if idx :| |idx| == k && NonOverlapping(s, pat, idx) {
      NonOverlappingAtMostCount(s, pat, idx);
    }
  }

  /** Python's `s.replace(pat, rep, 1)`: the leftmost occurrence is replaced, if there is one. */
  function ReplaceFirst(s: string, pat: string, rep: string): (r: string)
    ensures (forall j :: !OccursAt(s, pat, j)) ==> r == s
    ensures |pat| == 0 ==> r == rep + s
  {
    match FindFirst(s, pat)
    case None => s
    case Some(i) => s[..i] + rep + s[i + |pat|..]
  }

  /** The replacement splices `rep` in at the leftmost occurrence and keeps everything around it. */
  lemma ReplaceFirstAtLeftmost(s: string, pat: string, rep: string, i: int)
    requires OccursAt(s, pat, i)
    requires forall j :: 0 <= j < i ==> !OccursAt(s, pat, j)
    ensures ReplaceFirst(s, pat, rep) == s[..i] + rep + s[i + |pat|..]
    ensures |ReplaceFirst(s, pat, rep)| == |s| - |pat| + |rep|
  {
    var f := FindFirst(s, pat);
    assert f.Some?;
    assert f.value == i;
  }

  /**
   * Replacing at the leftmost occurrence is undone by splicing `pat`
   * back at the same index.
   */
  lemma ReplaceFirstUndo(s: string, pat: string, rep: string)
    requires FindFirst(s, pat).Some?
    ensures var i := FindFirst(s, pat).value;
      var r := ReplaceFirst(s, pat, rep);
      && r == s[..i] + rep + s[i + |pat|..]
      && s == r[..i] + pat + r[i + |rep|..]
  {
    var i := FindFirst(s, pat).value;
    SpliceParts(s[..i], rep, s[i + |pat|..]);
    ThreeParts(s, i, |pat|);
  }

  lemma SpliceParts(a: string, m: string, b: string)
    ensures (a + m + b)[..|a|] == a && (a + m + b)[|a| + |m|..] == b
  {
  }

  lemma ThreeParts(s: string, i: nat, n: nat)
    requires i + n <= |s|
    ensures s == s[..i] + s[i..i + n] + s[i + n..]
  {
  }


  /**
   * A text that starts with `pat` and holds no other occurrence after it
   * counts `pat` once, and the replacement swaps that leading occurrence.
   */
  lemma LeadingOccurrenceUnique(pat: string, rest: string, rep: string)
    requires pat != []
    requires forall j :: !OccursAt(rest, pat, j)
    ensures Count(pat + rest, pat) == 1
    ensures ReplaceFirst(pat + rest, pat, rep) == rep + rest
  {
    var s := pat + rest;
    assert OccursAt(s, pat, 0) by {
      assert s[0..|pat|] == pat;
    }
    FirstMatchNoLater(s, pat, 0);
    assert s[|pat|..] == rest;
    CountZeroIffAbsent(rest, pat);
    CountAfterFirst(s, pat);
  }

  /** `"aaa"` holds `"aa"` at two positions, yet the greedy count is one and the replacement applies. */
  lemma OverlappingOccurrencesCountOnce(rep: string)
    ensures OccursAt("aaa", "aa", 0) && OccursAt("aaa", "aa", 1)
    ensures Count("aaa", "aa") == 1
    ensures ReplaceFirst("aaa", "aa", rep) == rep + "a"
  {
    assert FindFirst("aaa", "aa") == Some(0);
    var rest := "aaa"[2..];
    assert rest == "a";
    assert FindFirst(rest, "aa") == None;
  }

  // ---------------------------------------------------------------------
  // strip
  // ---------------------------------------------------------------------

  /** Python's `str.isspace` for one character. */
  predicate IsSpace(c: char)
  {
    || ('\t' <= c <= '\r')
    || ('\U{1C}' <= c <= '\U{1F}')
    || c == ' '
    || c == '\U{85}'
    || c == '\U{A0}'
    || c == '\U{1680}'
    || ('\U{2000}' <= c <= '\U{200A}')
    || c == '\U{2028}'
    || c == '\U{2029}'
    || c == '\U{202F}'
    || c == '\U{205F}'
    || c == '\U{3000}'
  }

  predicate AllSpace(s: string)
  {
    forall k :: 0 <= k < |s| ==> IsSpace(s[k])
  }

  /** `s.lstrip()`: a suffix of `s`; what it drops is whitespace; it does not start with whitespace. */
  function StripLeading(s: string): (r: string)
    ensures |r| <= |s| && r == s[|s| - |r|..]
    ensures AllSpace(s[..|s| - |r|])
    ensures r != [] ==> !IsSpace(r[0])
  {
    if |s| > 0 && IsSpace(s[0]) then
      var r := StripLeading(s[1..]);
      var t := s[1..][..|s| - 1 - |r|];
      assert s[..|s| - |r|] == [s[0]] + t;
      AllSpaceCons(s[0], t);
      r
    else s
  }

  lemma AllSpaceCons(c: char, t: string)
    requires IsSpace(c) && AllSpace(t)
    ensures AllSpace([c] + t)
  {
    assert forall k :: 1 <= k < |t| + 1 ==> ([c] + t)[k] == t[k - 1];
  }

  /** `s.rstrip()`: a prefix of `s`; what it drops is whitespace; it does not end with whitespace. */
  function StripTrailing(s: string): (r: string)
    ensures |r| <= |s| && r == s[..|r|]
    ensures AllSpace(s[|r|..])
    ensures r != [] ==> !IsSpace(r[|r| - 1])
  {
    if |s| > 0 && IsSpace(s[|s| - 1]) then
      var r := StripTrailing(s[..|s| - 1]);
      var t := s[..|s| - 1][|r|..];
      assert s[|r|..] == t + [s[|s| - 1]];
      AllSpaceSnoc(t, s[|s| - 1]);
      r
    else s
  }

  lemma AllSpaceSnoc(t: string, c: char)
    requires AllSpace(t) && IsSpace(c)
    ensures AllSpace(t + [c])
  {
    assert forall k :: 0 <= k < |t| ==> (t + [c])[k] == t[k];
  }

  /** Python's `s.strip()`: whitespace removed from both ends, so neither end is whitespace. */
  function Strip(s: string): (r: string)
    ensures |r| <= |s|
    ensures r != [] ==> !IsSpace(r[0]) && !IsSpace(r[|r| - 1])
  {
    var l := StripLeading(s);
    var r := StripTrailing(l);
    assert r != [] ==> r[0] == l[0];
    r
  }

  /**
   * `strip` keeps a contiguous middle slice of its input and drops only
   * whitespace around it.
   */
  lemma StripIsTrimmedSlice(s: string)
    ensures exists i, j :: TrimmedAt(s, Strip(s), i, j)
  {
    var l := StripLeading(s);
    var r := StripTrailing(l);
    TrimmedOfTrimmed(s, l, r);
    assert TrimmedAt(s, Strip(s), |s| - |l|, |s| - |l| + |r|);
  }

  /** Trimming a suffix's end trims the whole. */
  lemma TrimmedOfTrimmed(s: string, l: string, r: string)
    requires |l| <= |s| && l == s[|s| - |l|..] && AllSpace(s[..|s| - |l|])
    requires |r| <= |l| && r == l[..|r|] && AllSpace(l[|r|..])
    ensures TrimmedAt(s, r, |s| - |l|, |s| - |l| + |r|)
  {
    var i := |s| - |l|;
    assert s[i..][..|r|] == s[i..i + |r|] && s[i..][|r|..] == s[i + |r|..];
  }

  /** `r` is the slice `s[i..j]` and only whitespace lies outside it. */
  predicate TrimmedAt(s: string, r: string, i: int, j: int)
  {
    0 <= i <= j <= |s| && r == s[i..j] && AllSpace(s[..i]) && AllSpace(s[j..])
  }

  /** `strip` removes exactly the whitespace around a core that neither starts nor ends with whitespace. */
  lemma StripAroundCore(before: string, core: string, after: string)
    requires AllSpace(before) && AllSpace(after)
    requires core != [] && !IsSpace(core[0]) && !IsSpace(core[|core| - 1])
    ensures Strip(before + core + after) == core
  {
    LeadingSpaceDropped(before, core + after);
    assert before + core + after == before + (core + after);
    TrailingSpaceDropped(core, after);
  }

  lemma {:induction false} LeadingSpaceDropped(sp: string, s: string)
    requires AllSpace(sp) && s != [] && !IsSpace(s[0])
    ensures StripLeading(sp + s) == s
  {
    if sp != [] {
      assert (sp + s)[1..] == sp[1..] + s;
      LeadingSpaceDropped(sp[1..], s);
    }
  }

  lemma {:induction false} TrailingSpaceDropped(s: string, sp: string)
    requires AllSpace(sp) && s != [] && !IsSpace(s[|s| - 1])
    ensures StripTrailing(s + sp) == s
  {
    if sp != [] {
      assert (s + sp)[..|s + sp| - 1] == s + sp[..|sp| - 1];
      TrailingSpaceDropped(s, sp[..|sp| - 1]);
    } else {
      assert s + sp == s;
    }
  }

  /** Stripping twice is stripping once. */
  lemma StripIdempotent(s: string)
    ensures Strip(Strip(s)) == Strip(s)
  {
    var r := Strip(s);
    StripIsTrimmedSlice(s);
    if r != [] {
      assert StripLeading(r) == r;
      assert StripTrailing(r) == r;
    }
  }

  // ---------------------------------------------------------------------
  // str(int)
  // ---------------------------------------------------------------------

  predicate IsDigits(d: string)
  {
    forall k :: 0 <= k < |d| ==> '0' <= d[k] <= '9'
  }

  /** The value of a string of decimal digits. */
  function DecimalValue(d: string): nat
    requires IsDigits(d)
  {
    if d == [] then 0 else 10 * DecimalValue(d[..|d| - 1]) + (d[|d| - 1] as int - '0' as int)
  }

  /** Python's `str(n)` for a natural number: canonical decimal, read back as `n`. */
  function NatToDecimal(n: nat): (d: string)
    ensures |d| >= 1 && IsDigits(d)
    ensures DecimalValue(d) == n
    ensures d[0] == '0' ==> d == "0"
  {
    var last := ('0' as int + n % 10) as char;
    if n < 10 then [last]
    else
      var p := NatToDecimal(n / 10);
      assert (p + [last])[..|p|] == p;
      p + [last]
  }

  /**
   * Python's `str(i)` for any integer: canonical decimal digits that read
   * back as `|i|`, after a minus sign for negative values; no leading zero
   * except in "0" itself, and never "-0".
   */
  function IntToDecimal(i: int): (d: string)
    ensures |d| >= 1
    ensures i < 0 ==> |d| >= 2 && d[0] == '-' && d[1] != '0' && IsDigits(d[1..]) && DecimalValue(d[1..]) == -i
    ensures i >= 0 ==> IsDigits(d) && DecimalValue(d) == i && (d[0] == '0' ==> d == "0")
  {
    if i < 0 then "-" + NatToDecimal(-i) else NatToDecimal(i)
  }
}
