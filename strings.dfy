/**
 * The JavaScript string primitives the server relies on, over Dafny strings:
 * `indexOf` for a substring and for a character, `includes`, the first
 * component of `split`, `replace` with a string pattern (first occurrence
 * only) and `substring` with its clamping of out-of-range bounds.
 *
 * The functions carry only small contracts; what they compute is stated by
 * the lemma that follows each of them.
 */
module Strings {

  /** `pat` occurs in `s` starting at index `k`. */
  predicate OccursAt(s: string, pat: string, k: nat)
  {
    k + |pat| <= |s| && s[k..k + |pat|] == pat
  }

  /** `s.indexOf(pat, from)`: the first index at or after `from` where `pat` occurs, or -1. */
  function Find(s: string, pat: string, from: nat): (k: int)
    requires from <= |s|
    ensures k == -1 || from <= k <= |s|
    decreases |s| - from
  {
    if from + |pat| > |s| then -1
    else if s[from..from + |pat|] == pat then from
    else Find(s, pat, from + 1)
  }

  /** Find returns the first occurrence at or after `from`, and -1 only when there is none. */
  lemma {:induction false} FindSpec(s: string, pat: string, from: nat)
    requires from <= |s|
    ensures Find(s, pat, from) != -1 ==> OccursAt(s, pat, Find(s, pat, from))
    ensures Find(s, pat, from) == -1 ==> forall j: nat :: from <= j ==> !OccursAt(s, pat, j)
    ensures forall j: nat :: from <= j < Find(s, pat, from) ==> !OccursAt(s, pat, j)
    decreases |s| - from
  {
    if from + |pat| <= |s| && s[from..from + |pat|] != pat {
      FindSpec(s, pat, from + 1);
    }
  }

  /** `s.includes(pat)`. */
  predicate Contains(s: string, pat: string)
  {
    Find(s, pat, 0) != -1
  }

  /** `includes` is true exactly when some index holds an occurrence. */
  lemma {:induction false} ContainsIff(s: string, pat: string)
    ensures Contains(s, pat) <==> exists k: nat :: OccursAt(s, pat, k)
  {
    FindSpec(s, pat, 0);
    if Contains(s, pat) {
      assert OccursAt(s, pat, Find(s, pat, 0) as nat);
    }
  }

  /**
   * `s.split(delim)[0]` for a non-empty `delim`: the prefix before the first
   * occurrence of `delim`, or all of `s`.
   */
  function FirstComponent(s: string, delim: string): (r: string)
    requires delim != ""
    ensures |r| <= |s|
  {
    var k := Find(s, delim, 0);
    if k == -1 then s else s[..k]
  }

  /**
   * The first component is a prefix of `s` free of `delim`; it is all of `s`
   * when `delim` does not occur, and otherwise `delim` follows it.
   */
  lemma {:induction false} FirstComponentSpec(s: string, delim: string)
    requires delim != ""
    ensures var r := FirstComponent(s, delim);
      && r == s[..|r|]
      && ((forall j: nat :: !OccursAt(s, delim, j)) ==> r == s)
      && (r != s ==> OccursAt(s, delim, |r|))
      && (forall j: nat :: j < |r| ==> !OccursAt(s, delim, j))
  {
    FindSpec(s, delim, 0);
  }

  /** `s.indexOf(c)` for a single character: the first index holding `c`, or -1. */
  function IndexOf(s: string, c: char): (k: int)
    ensures -1 <= k < |s|
  {
    if s == [] then -1
    else if s[0] == c then 0
    else
      var k := IndexOf(s[1..], c);
      if k == -1 then -1 else k + 1
  }

  /** IndexOf finds the first occurrence of `c`, and -1 exactly when `c` does not occur. */
  lemma {:induction false} IndexOfSpec(s: string, c: char)
    ensures IndexOf(s, c) == -1 <==> c !in s
    ensures IndexOf(s, c) != -1 ==> s[IndexOf(s, c)] == c && c !in s[..IndexOf(s, c)]
  {
    if s != [] && s[0] != c {
      IndexOfSpec(s[1..], c);
      assert s == [s[0]] + s[1..];
      if IndexOf(s, c) != -1 {
        assert s[..IndexOf(s, c)] == [s[0]] + s[1..][..IndexOf(s[1..], c)];
      }
    }
  }

  /** `s.replace(from, to)` with one-character strings: only the first `from` becomes `to`. */
  function ReplaceFirst(s: string, from: char, to: char): (r: string)
    ensures |r| == |s|
  {
    if s == [] then []
    else if s[0] == from then [to] + s[1..]
    else [s[0]] + ReplaceFirst(s[1..], from, to)
  }

  /** Only the character at IndexOf(s, from) changes; a string without `from` is returned as is. */
  lemma {:induction false} ReplaceFirstSpec(s: string, from: char, to: char)
    ensures IndexOf(s, from) == -1 ==> ReplaceFirst(s, from, to) == s
    ensures IndexOf(s, from) != -1 ==>
      var k := IndexOf(s, from);
      ReplaceFirst(s, from, to) == s[..k] + [to] + s[k + 1..]
  {
    if s != [] && s[0] != from {
      ReplaceFirstSpec(s[1..], from, to);
      assert s == [s[0]] + s[1..];
    }
  }

  function Min(a: int, b: int): int { if a <= b then a else b }

  /**
   * `s.substring(start, end)`: both bounds are clamped to the length of `s`
   * and swapped when `start` exceeds `end`.
   */
  function Substring(s: string, start: nat, end: nat): (r: string)
    ensures |r| <= |s|
    ensures start <= end ==> r == s[Min(start, |s|)..Min(end, |s|)]
    ensures start <= end ==> |r| <= end - start
  {
    var a := Min(start, |s|);
    var b := Min(end, |s|);
    if a <= b then s[a..b] else s[b..a]
  }
}
