/** Character-level string operations used by the parser and the router (ASCII case mapping). */
module Strings {

  /** Lower-cases one character; only 'A'..'Z' are mapped. */
  function Lower(c: char): char {
    if 'A' <= c <= 'Z' then (c as int - 'A' as int + 'a' as int) as char else c
  }

  /** String.toLowerCase, restricted to ASCII letters. */
  function ToLower(s: string): (r: string)
    ensures |r| == |s|
    ensures forall i :: 0 <= i < |s| ==> r[i] == Lower(s[i])
  {
    seq(|s|, i requires 0 <= i < |s| => Lower(s[i]))
  }

  lemma ToLowerIdempotent(s: string)
    ensures ToLower(ToLower(s)) == ToLower(s)
  {
  }

  predicate IsPrefix<T(==)>(p: seq<T>, s: seq<T>) {
    |p| <= |s| && s[..|p|] == p
  }

  predicate IsSuffix<T(==)>(p: seq<T>, s: seq<T>) {
    |p| <= |s| && s[|s| - |p|..] == p
  }

  /** `p` occurs somewhere in `s` as a consecutive sub-sequence. */
  predicate IsSubstring<T(==)>(p: seq<T>, s: seq<T>) {
    exists i :: 0 <= i <= |s| - |p| && IsPrefix(p, s[i..])
  }

  /** StringUtils.equalsIgnoreCase for non-null arguments. */
  predicate EqualsIgnoreCase(s: string, t: string) {
    ToLower(s) == ToLower(t)
  }

  /** StringUtils.containsIgnoreCase(s, search). */
  predicate ContainsIgnoreCase(s: string, search: string) {
    IsSubstring(ToLower(search), ToLower(s))
  }

  /** StringUtils.startsWithIgnoreCase(s, prefix). */
  predicate StartsWithIgnoreCase(s: string, prefix: string) {
    IsPrefix(ToLower(prefix), ToLower(s))
  }

  /** StringUtils.endsWithIgnoreCase(s, suffix). */
  predicate EndsWithIgnoreCase(s: string, suffix: string) {
    IsSuffix(ToLower(suffix), ToLower(s))
  }

  /** The part of `s` before the first occurrence of `c` (all of `s` when `c` does not occur),
      as `s.substring(0, s.indexOf(c))` guarded by `indexOf >= 0`. */
  function TakeUntil(s: string, c: char): (r: string)
    ensures IsPrefix(r, s)
    ensures c !in r
    ensures |r| < |s| ==> s[|r|] == c
    ensures c !in s ==> r == s
  {
    if s == [] || s[0] == c then [] else [s[0]] + TakeUntil(s[1..], c)
  }

  /** Java's String.trim treats every character up to U+0020 as white space. */
  predicate IsTrimmable(c: char) {
    c <= ' '
  }

  /** The first index at or after `st` whose character is not white space (the first loop of trim). */
  function SkipLeading(s: string, st: nat): (m: nat)
    requires st <= |s|
    ensures st <= m <= |s|
    ensures forall k :: st <= k < m ==> IsTrimmable(s[k])
    ensures m < |s| ==> !IsTrimmable(s[m])
    decreases |s| - st
  {
    if st < |s| && IsTrimmable(s[st]) then SkipLeading(s, st + 1) else st
  }

  /** The end index after dropping white space before `len`, never going below `st`
      (the second loop of trim). */
  function SkipTrailing(s: string, st: nat, len: nat): (m: nat)
    requires st <= len <= |s|
    ensures st <= m <= len
    ensures forall k :: m <= k < len ==> IsTrimmable(s[k])
    ensures st < m ==> !IsTrimmable(s[m - 1])
    decreases len
  {
    if st < len && IsTrimmable(s[len - 1]) then SkipTrailing(s, st, len - 1) else len
  }

  /** String.trim: drops leading and trailing characters up to U+0020; what it keeps is
      one slice of `s`, and every character dropped before or after it is white space. */
  function Trim(s: string): (r: string)
    ensures IsSubstring(r, s)
    ensures r != [] ==> !IsTrimmable(r[0]) && !IsTrimmable(r[|r| - 1])
    ensures r == [] ==> forall i :: 0 <= i < |s| ==> IsTrimmable(s[i])
    ensures var i := SkipLeading(s, 0);
      && i + |r| <= |s| && s[i..i + |r|] == r
      && (forall k :: 0 <= k < i ==> IsTrimmable(s[k]))
      && (forall k :: i + |r| <= k < |s| ==> IsTrimmable(s[k]))
  {
    var st := SkipLeading(s, 0);
    var len := SkipTrailing(s, st, |s|);
    assert IsPrefix(s[st..len], s[st..]);
    s[st..len]
  }
}
