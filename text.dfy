/** The Python `str` operations the sync script relies on, over `string`
    (a sequence of code points): `count`, `index`, and `strip`, `lstrip`,
    `rstrip` with the argument `"\n"`. */
module Text {

  /** `p` occurs in `s` starting at index `i`. */
  predicate OccursAt(s: string, p: string, i: nat)
  {
    i + |p| <= |s| && s[i..i + |p|] == p
  }

  /** `p` occurs in `s` at exactly one index. */
  ghost predicate OccursOnce(s: string, p: string)
  {
    exists i: nat :: OccursAt(s, p, i) && forall j: nat :: OccursAt(s, p, j) ==> j == i
  }

  /** `p` is not empty and its last character appears nowhere else in it, so
      two occurrences of `p` in any text can never overlap. */
  predicate LastCharUnique(p: string)
  {
    |p| > 0 && forall k :: 0 <= k < |p| - 1 ==> p[k] != p[|p| - 1]
  }

  /** Every character of `s` is a newline. */
  predicate AllNewlines(s: string)
  {
    forall k :: 0 <= k < |s| ==> s[k] == '\n'
  }

  /** `s.count(p)`: the occurrences of `p` that a left-to-right scan finds
      when it resumes after each match; the empty pattern counts `|s| + 1`. */
  function Count(s: string, p: string): nat
    decreases |s|
  {
    if |p| == 0 then |s| + 1
    else if |s| < |p| then 0
    else if p <= s then 1 + Count(s[|p|..], p)
    else Count(s[1..], p)
  }

  /** The number of indices at which `p` occurs in `s`, overlapping ones
      included. */
  function Occurrences(s: string, p: string): nat
    decreases |s|
  {
    if |s| < |p| then 0
    else (if p <= s then 1 else 0) + (if s == [] then 0 else Occurrences(s[1..], p))
  }

  /** `s.index(p)`: the first index at which `p` occurs. Python raises when
      there is none; the script only asks after counting one. */
  function IndexOf(s: string, p: string): (i: nat)
    requires exists k: nat :: OccursAt(s, p, k)
    ensures OccursAt(s, p, i)
    ensures forall j: nat :: j < i ==> !OccursAt(s, p, j)
    decreases |s|
  {
    if p <= s then 0
    else
      OccursInTail(s, p);
      OccursShift(s, p, 1);
      1 + IndexOf(s[1..], p)
  }

  /** `s.lstrip("\n")`. */
  function LStripNewlines(s: string): (r: string)
    ensures |r| <= |s| && r == s[|s| - |r|..]
    ensures AllNewlines(s[..|s| - |r|])
    ensures r == [] || r[0] != '\n'
    decreases |s|
  {
    if s != [] && s[0] == '\n' then LStripNewlines(s[1..]) else s
  }

  /** `s.rstrip("\n")`. */
  function RStripNewlines(s: string): (r: string)
    ensures |r| <= |s| && r == s[..|r|]
    ensures AllNewlines(s[|r|..])
    ensures r == [] || r[|r| - 1] != '\n'
    decreases |s|
  {
    if s != [] && s[|s| - 1] == '\n' then RStripNewlines(s[..|s| - 1]) else s
  }

  /** `s.strip("\n")`: only newline characters are removed, other white
      space stays. */
  function StripNewlines(s: string): (r: string)
    ensures r == [] <==> AllNewlines(s)
    ensures r != [] ==> r[0] != '\n' && r[|r| - 1] != '\n'
  {
    var l := LStripNewlines(s);
    var r := RStripNewlines(l);
    assert r == [] ==> AllNewlines(s) by {
      if r == [] {
        assert l[|r|..] == l;
        assert s[..|s| - |l|] == s;
      }
    }
    r
  }

  /** Occurrences of `p` in `s[k..]` are the occurrences in `s` shifted by `k`. */
  lemma OccursShift(s: string, p: string, k: nat)
    requires k <= |s|
    ensures forall j: nat :: OccursAt(s[k..], p, j) <==> OccursAt(s, p, k + j)
    ensures forall j: nat :: k <= j ==> (OccursAt(s, p, j) <==> OccursAt(s[k..], p, j - k))
  {
  }

  lemma OccursInTail(s: string, p: string)
    requires exists k: nat :: OccursAt(s, p, k)
    requires !(p <= s)
    ensures exists k: nat :: OccursAt(s[1..], p, k)
  {
    var k: nat :| OccursAt(s, p, k);
    assert k != 0 by {
      assert OccursAt(s, p, 0) ==> p <= s;
    }
    OccursShift(s, p, 1);
    assert OccursAt(s[1..], p, k - 1);
  }

  /** Python's `count` finds nothing exactly when the pattern occurs nowhere. */
  lemma {:induction false} CountZeroIff(s: string, p: string)
    requires |p| > 0
    ensures Count(s, p) == 0 <==> forall j: nat :: !OccursAt(s, p, j)
    decreases |s|
  {
    if |s| < |p| {
    } else if p <= s {
      assert OccursAt(s, p, 0);
    } else {
      CountZeroIff(s[1..], p);
      OccursShift(s, p, 1);
      assert !OccursAt(s, p, 0);
      forall j: nat | OccursAt(s, p, j) ensures OccursAt(s[1..], p, j - 1) {
      }
    }
  }

  /** Indices before the first occurrence do not contribute to `count`. */
  lemma {:induction false} CountSkip(s: string, p: string, k: nat)
    requires |p| > 0 && k <= |s|
    requires forall j: nat :: j < k ==> !OccursAt(s, p, j)
    ensures Count(s, p) == Count(s[k..], p)
    decreases k
  {
    if k > 0 {
      assert !OccursAt(s, p, 0);
      assert p <= s ==> OccursAt(s, p, 0);
      assert Count(s, p) == Count(s[1..], p);
      OccursShift(s, p, 1);
      CountSkip(s[1..], p, k - 1);
      assert s[1..][k - 1..] == s[k..];
    }
  }

  /** The same for the number of occurrence indices. */
  lemma {:induction false} OccurrencesSkip(s: string, p: string, k: nat)
    requires k <= |s|
    requires forall j: nat :: j < k ==> !OccursAt(s, p, j)
    ensures Occurrences(s, p) == Occurrences(s[k..], p)
    decreases k
  {
    if k > 0 {
      assert !OccursAt(s, p, 0);
      assert p <= s ==> OccursAt(s, p, 0);
      OccursShift(s, p, 1);
      OccurrencesSkip(s[1..], p, k - 1);
      assert s[1..][k - 1..] == s[k..];
    }
  }

  /** Two occurrences of such a pattern are at least its length apart: the
      later one would cover the unique last character of the earlier one. */
  lemma NoOccurrenceWithin(s: string, p: string, i: nat)
    requires LastCharUnique(p) && OccursAt(s, p, i)
    ensures forall j: nat :: i < j < i + |p| ==> !OccursAt(s, p, j)
  {
    var t := i + |p| - 1;
    assert s[t] == p[|p| - 1];
    forall j: nat | i < j < i + |p| && OccursAt(s, p, j)
      ensures s[t] == p[t - j]
    {
      assert s[j..j + |p|][t - j] == s[t];
    }
  }

  /** With a first occurrence at `i`, `count` is one more than the count of
      the text after that occurrence. */
  lemma CountFromFirst(s: string, p: string, i: nat)
    requires |p| > 0 && OccursAt(s, p, i)
    requires forall j: nat :: j < i ==> !OccursAt(s, p, j)
    ensures Count(s, p) == 1 + Count(s[i + |p|..], p)
  {
    CountSkip(s, p, i);
    assert p <= s[i..];
    assert s[i..][|p|..] == s[i + |p|..];
  }

  /** For such a pattern Python's non-overlapping `count` is the number of
      indices at which the pattern occurs. */
  lemma {:induction false} CountIsOccurrences(s: string, p: string)
    requires LastCharUnique(p)
    ensures Count(s, p) == Occurrences(s, p)
    decreases |s|
  {
    if |s| < |p| {
    } else if p <= s {
      assert OccursAt(s, p, 0);
      NoOccurrenceWithin(s, p, 0);
      OccursShift(s, p, 1);
      OccurrencesSkip(s[1..], p, |p| - 1);
      assert s[1..][|p| - 1..] == s[|p|..];
      CountIsOccurrences(s[|p|..], p);
    } else {
      CountIsOccurrences(s[1..], p);
    }
  }

  /** For such a pattern, `count` is one exactly when the pattern occurs at
      one index and nowhere else. */
  lemma CountOnceIff(s: string, p: string)
    requires LastCharUnique(p)
    ensures Count(s, p) == 1 <==> OccursOnce(s, p)
  {
    if exists k: nat :: OccursAt(s, p, k) {
      var i := IndexOf(s, p);
      CountFromFirst(s, p, i);
      if Count(s, p) == 1 {
        OnlyOccurrence(s, p, i);
      }
      if OccursOnce(s, p) {
        NothingAfterOnly(s, p, i);
      }
    } else {
      CountZeroIff(s, p);
    }
  }

  /** With nothing counted after the first occurrence, it is the only one. */
  lemma OnlyOccurrence(s: string, p: string, i: nat)
    requires LastCharUnique(p) && OccursAt(s, p, i)
    requires forall j: nat :: j < i ==> !OccursAt(s, p, j)
    requires Count(s[i + |p|..], p) == 0
    ensures forall j: nat :: OccursAt(s, p, j) ==> j == i
  {
    var rest := s[i + |p|..];
    CountZeroIff(rest, p);
    NoOccurrenceWithin(s, p, i);
    forall j: nat | i + |p| <= j && OccursAt(s, p, j) ensures OccursAt(rest, p, j - (i + |p|)) {
      var a := j - (i + |p|);
      SliceOfSuffix(s, i + |p|, a, |p|);
    }
  }

  /** A slice of a suffix is a slice of the whole. */
  lemma SliceOfSuffix(s: string, k: nat, a: nat, n: nat)
    requires k + a + n <= |s|
    ensures s[k..][a..a + n] == s[k + a..k + a + n]
  {
  }

  /** After the only occurrence, `count` finds nothing. */
  lemma NothingAfterOnly(s: string, p: string, i: nat)
    requires |p| > 0 && OccursAt(s, p, i)
    requires OccursOnce(s, p)
    ensures Count(s[i + |p|..], p) == 0
  {
    var rest := s[i + |p|..];
    forall j: nat | OccursAt(rest, p, j) ensures OccursAt(s, p, i + |p| + j) {
      SliceOfSuffix(s, i + |p|, j, |p|);
    }
    CountZeroIff(rest, p);
  }

  /** A character the pattern does not contain separates the counts: no match
      found by the scan can straddle it. */
  lemma {:induction false} CountSplit(x: string, c: char, y: string, p: string)
    requires |p| > 0 && c !in p
    ensures Count(x + [c] + y, p) == Count(x, p) + Count(y, p)
    decreases |x|
  {
    var s := x + [c] + y;
    if |s| < |p| {
    } else if p <= s {
      assert s[|x|] == c;
      assert forall k :: 0 <= k < |p| ==> p[k] == s[k];
      assert p <= x;
      assert s[|p|..] == x[|p|..] + [c] + y;
      CountSplit(x[|p|..], c, y, p);
    } else if x == [] {
      assert s[1..] == y;
    } else {
      assert s[1..] == x[1..] + [c] + y;
      CountSplit(x[1..], c, y, p);
      assert p <= x ==> p <= s;
    }
  }

  /** The same across the blank line `"\n\n"` the script splices in. */
  lemma CountAcrossBlankLine(x: string, y: string, p: string)
    requires |p| > 0 && '\n' !in p
    ensures Count(x + "\n\n" + y, p) == Count(x, p) + Count(y, p)
  {
    assert x + "\n\n" + y == x + ['\n'] + ([] + ['\n'] + y);
    CountSplit([], '\n', y, p);
    CountSplit(x, '\n', [] + ['\n'] + y, p);
  }
}
