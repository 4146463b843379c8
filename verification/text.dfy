/**
 * The JavaScript and Node built-ins the relay and the upload helpers rely on:
 * bytes, substring search (`String.prototype.includes`, `Buffer.indexOf`),
 * the search for the last occurrence of a character that the pattern
 * `\.[^.]+$` and `path.extname` perform, and ASCII character classes and
 * case mapping.
 */
module Text {

  /** One element of a Node `Buffer` or a `Uint8Array`. */
  type byte = x: int | 0 <= x < 256

  /** `needle` occurs in `hay` starting at index `i`. */
  predicate OccursAt<T(==)>(hay: seq<T>, needle: seq<T>, i: int) {
    0 <= i && i + |needle| <= |hay| && forall j :: 0 <= j < |needle| ==> hay[i + j] == needle[j]
  }

  /**
   * The first index at or after `from` where `needle` occurs in `hay`, or -1:
   * `Buffer.indexOf(needle, from)` and `String.prototype.indexOf`.
   */
  function IndexOf<T(==)>(hay: seq<T>, needle: seq<T>, from: nat): (r: int)
    ensures r == -1 || (from <= r && OccursAt(hay, needle, r))
    decreases |hay| - from
  {
    if |hay| < from + |needle| then -1
    else if OccursAt(hay, needle, from) then from
    else IndexOf(hay, needle, from + 1)
  }

  /**
   * `IndexOf` finds the FIRST occurrence: it answers -1 exactly when there is
   * none at or after `from`, and otherwise none comes before its answer.
   */
  lemma {:induction false} IndexOfFirst<T>(hay: seq<T>, needle: seq<T>, from: nat)
    ensures IndexOf(hay, needle, from) == -1 <==> forall i :: from <= i ==> !OccursAt(hay, needle, i)
    ensures IndexOf(hay, needle, from) >= 0 ==>
      forall i :: from <= i < IndexOf(hay, needle, from) ==> !OccursAt(hay, needle, i)
    decreases |hay| - from
  {
    if |hay| >= from + |needle| && !OccursAt(hay, needle, from) {
      IndexOfFirst(hay, needle, from + 1);
    }
  }

  /** `s.includes(pattern)`. */
  function Includes(s: string, pattern: string): (b: bool)
    ensures b <==> exists i :: OccursAt(s, pattern, i)
  {
    IndexOfFirst(s, pattern, 0);
    IndexOf(s, pattern, 0) >= 0
  }

  predicate IsAsciiUpper(c: char) { 'A' <= c <= 'Z' }
  predicate IsAsciiLower(c: char) { 'a' <= c <= 'z' }
  predicate IsDigit(c: char) { '0' <= c <= '9' }

  /** The class `[a-zA-Z0-9]`. */
  predicate IsAlnum(c: char) { IsAsciiUpper(c) || IsAsciiLower(c) || IsDigit(c) }

  /** The class `\w` of a regular expression without the `u` flag. */
  predicate IsWordChar(c: char) { IsAlnum(c) || c == '_' }

  function LowerChar(c: char): char {
    if IsAsciiUpper(c) then (c as int + 32) as char else c
  }

  function UpperChar(c: char): char {
    if IsAsciiLower(c) then (c as int - 32) as char else c
  }

  /** `s.toLowerCase()`, for the ASCII letters: each upper-case letter moves to its lower-case partner, every other character stays. */
  function ToLower(s: string): (r: string)
    ensures |r| == |s|
    ensures forall i :: 0 <= i < |r| ==> !IsAsciiUpper(r[i])
    ensures forall i :: 0 <= i < |s| && IsAsciiUpper(s[i]) ==> r[i] as int == s[i] as int + 32 && IsAsciiLower(r[i])
    ensures forall i :: 0 <= i < |s| && !IsAsciiUpper(s[i]) ==> r[i] == s[i]
  {
    seq(|s|, i requires 0 <= i < |s| => LowerChar(s[i]))
  }

  /** The index of the last `c` in `s`, or -1: where `\.[^.]+$` and `path.extname` find the last '.'. */
  function LastIndex(s: string, c: char): (i: int)
    ensures -1 <= i < |s|
    ensures i >= 0 ==> s[i] == c
    ensures forall j :: i < j < |s| ==> s[j] != c
    decreases |s|
  {
    if s == [] then -1
    else if s[|s| - 1] == c then |s| - 1
    else LastIndex(s[..|s| - 1], c)
  }
}
