/** Character-level search primitives shared by the splitter and the field scanners. */
module Text {

  datatype Option<T> = None | Some(value: T)

  /** True when `pat` occurs in `s` starting at index `i`. */
  predicate OccursAt(s: string, pat: string, i: nat) {
    i + |pat| <= |s| && s[i..i + |pat|] == pat
  }

  /** True when `pat` occurs somewhere in `s`. */
  predicate Contains(s: string, pat: string) {
    exists i: nat :: i <= |s| && OccursAt(s, pat, i)
  }

  /** `p` is the leftmost index at which `pat` occurs in `s`. */
  predicate IsFirstOccurrence(s: string, pat: string, p: nat) {
    OccursAt(s, pat, p) && forall j: nat :: j < p ==> !OccursAt(s, pat, j)
  }

  /** Leftmost occurrence of `pat` in `s` at or after `from` (Python's `str.find`). */
  function IndexOf(s: string, pat: string, from: nat): (r: Option<nat>)
    requires from <= |s|
    ensures r.Some? ==> from <= r.value && OccursAt(s, pat, r.value)
    ensures r.Some? ==> forall j: nat :: from <= j < r.value ==> !OccursAt(s, pat, j)
    ensures r.None? ==> forall j: nat :: from <= j ==> !OccursAt(s, pat, j)
    decreases |s| - from
  {
    if OccursAt(s, pat, from) then Some(from)
    else if from + |pat| >= |s| then None
    else IndexOf(s, pat, from + 1)
  }

  /** Index of the first newline at or after `i`, or `|s|` when the line runs to the end. */
  function LineEnd(s: string, i: nat): (e: nat)
    requires i <= |s|
    ensures i <= e <= |s|
    ensures forall k :: i <= k < e ==> s[k] != '\n'
    ensures e < |s| ==> s[e] == '\n'
    decreases |s| - i
  {
    if i == |s| || s[i] == '\n' then i else LineEnd(s, i + 1)
  }

  /** Largest index in `[lo, hi)` holding `c`. */
  function LastIndexOf(s: string, c: char, lo: nat, hi: nat): (r: Option<nat>)
    requires lo <= hi <= |s|
    ensures r.Some? ==> lo <= r.value < hi && s[r.value] == c
    ensures r.Some? ==> forall k :: r.value < k < hi ==> s[k] != c
    ensures r.None? ==> forall k :: lo <= k < hi ==> s[k] != c
    decreases hi - lo
  {
    if lo == hi then None
    else if s[hi - 1] == c then Some(hi - 1)
    else LastIndexOf(s, c, lo, hi - 1)
  }

  /** The word-character class `\w`, restricted to ASCII letters, digits and underscore. */
  predicate IsWordChar(c: char) {
    ('a' <= c <= 'z') || ('A' <= c <= 'Z') || ('0' <= c <= '9') || c == '_'
  }

  predicate AllWordChars(t: string) {
    forall k :: 0 <= k < |t| ==> IsWordChar(t[k])
  }

  /** Length of the longest run of word characters starting at `i` (what a greedy `\w*` first takes). */
  function WordRun(s: string, i: nat): (n: nat)
    requires i <= |s|
    ensures i + n <= |s|
    ensures AllWordChars(s[i..i + n])
    ensures i + n < |s| ==> !IsWordChar(s[i + n])
    decreases |s| - i
  {
    if i < |s| && IsWordChar(s[i]) then 1 + WordRun(s, i + 1) else 0
  }

  /** Every prefix of the longest run is a run of word characters. */
  lemma WordRunPrefix(s: string, i: nat, b: nat)
    requires i <= |s| && b <= WordRun(s, i)
    ensures AllWordChars(s[i..i + b])
  {
    var run, prefix := s[i..i + WordRun(s, i)], s[i..i + b];
    forall k | 0 <= k < b ensures IsWordChar(prefix[k]) {
      assert prefix[k] == run[k];
    }
  }

  /** A run of `a` word characters at `i` is no longer than the longest one. */
  lemma {:induction false} WordRunCovers(s: string, i: nat, a: nat)
    requires i + a <= |s| && AllWordChars(s[i..i + a])
    ensures a <= WordRun(s, i)
    decreases a
  {
    if a > 0 {
      assert IsWordChar(s[i..i + a][0]);
      assert s[i + 1..i + a] == s[i..i + a][1..];
      WordRunCovers(s, i + 1, a - 1);
    }
  }

  /** Dropping the last character of a run of word characters leaves one. */
  lemma WordCharsShorter(s: string, i: nat, a: nat)
    requires 0 < a && i + a <= |s| && AllWordChars(s[i..i + a])
    ensures AllWordChars(s[i..i + a - 1])
  {
    var shorter, run := s[i..i + a - 1], s[i..i + a];
    forall k | 0 <= k < a - 1 ensures IsWordChar(shorter[k]) {
      assert shorter[k] == run[k];
    }
  }

  /** A slice of a slice is a slice of the whole string. */
  lemma SliceOfSlice(s: string, lo: nat, hi: nat, a: nat, b: nat)
    requires lo <= hi <= |s| && a <= b <= hi - lo
    ensures s[lo..hi][a..b] == s[lo + a..lo + b]
  {
    var inner, whole := s[lo..hi][a..b], s[lo + a..lo + b];
    forall k | 0 <= k < b - a ensures inner[k] == whole[k] {
      assert inner[k] == s[lo..hi][a + k];
    }
  }

  /** An occurrence inside a slice is an occurrence in the whole string, shifted by the slice's start. */
  lemma OccursInSlice(s: string, pat: string, lo: nat, hi: nat, j: nat)
    requires lo <= hi <= |s|
    ensures OccursAt(s[lo..hi], pat, j) <==> lo + j + |pat| <= hi && OccursAt(s, pat, lo + j)
  {
    if lo + j + |pat| <= hi {
      var inSlice, inWhole := s[lo..hi][j..j + |pat|], s[lo + j..lo + j + |pat|];
      forall k | 0 <= k < |pat| ensures inSlice[k] == inWhole[k] {
        assert s[lo..hi][j + k] == s[lo + j + k];
      }
      assert inSlice == inWhole;
    }
  }
}
