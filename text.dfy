/** The string primitives the component relies on: ASCII `toLowerCase`,
    `indexOf` and `trim`, each with the property that defines it. */
module Text {

  /** `toLowerCase` restricted to ASCII: only 'A'..'Z' change. */
  function LowerChar(c: char): char {
    if 'A' <= c <= 'Z' then (c as int + 32) as char else c
  }

  /** `s.toLowerCase()` on ASCII: same length, no upper-case letter left,
      and exactly the upper-case letters changed, each to its lower-case
      form. */
  function Lower(s: string): (r: string)
    ensures |r| == |s|
    ensures forall i :: 0 <= i < |r| ==> !('A' <= r[i] <= 'Z')
    ensures forall i :: 0 <= i < |s| ==> (r[i] == s[i] <==> !('A' <= s[i] <= 'Z'))
    ensures forall i :: 0 <= i < |s| && 'A' <= s[i] <= 'Z' ==> r[i] as int == s[i] as int + 32
  {
    seq(|s|, i requires 0 <= i < |s| => LowerChar(s[i]))
  }

  /** Lower-casing twice is lower-casing once. */
  lemma LowerIdempotent(s: string)
    ensures Lower(Lower(s)) == Lower(s)
  {
  }

  /** Lower-casing commutes with slicing (it works character by character). */
  lemma LowerSlice(s: string, a: nat, b: nat)
    requires a <= b <= |s|
    ensures Lower(s[a..b]) == Lower(s)[a..b]
  {
  }

  /** `needle` occurs in `hay` starting at index `i`. */
  predicate MatchAt(hay: string, needle: string, i: int) {
    0 <= i && i + |needle| <= |hay| && hay[i..i + |needle|] == needle
  }

  predicate Occurs(hay: string, needle: string) {
    exists i :: 0 <= i <= |hay| && MatchAt(hay, needle, i)
  }

  /** `hay.indexOf(needle)`: the first index of an occurrence, or -1.
      An empty needle occurs at 0. */
  function IndexOf(hay: string, needle: string): (r: int)
    ensures r == -1 <==> !Occurs(hay, needle)
    ensures r != -1 ==> MatchAt(hay, needle, r)
    ensures forall j :: 0 <= j < r ==> !MatchAt(hay, needle, j)
  {
    IndexFrom(hay, needle, 0)
  }

  /** The first occurrence at or after `k`. */
  function IndexFrom(hay: string, needle: string, k: nat): (r: int)
    ensures r == -1 <==> forall j :: k <= j ==> !MatchAt(hay, needle, j)
    ensures r != -1 ==> k <= r && MatchAt(hay, needle, r)
    ensures forall j :: k <= j < r ==> !MatchAt(hay, needle, j)
    decreases |hay| - k
  {
    if k + |needle| > |hay| then -1
    else if hay[k..k + |needle|] == needle then assert MatchAt(hay, needle, k); k
    else IndexFrom(hay, needle, k + 1)
  }

  /** The characters `String.prototype.trim` strips: the ECMAScript
      WhiteSpace and LineTerminator code points. */
  predicate IsWhitespace(c: char) {
    var n := c as int;
    n == 0x09 || n == 0x0A || n == 0x0B || n == 0x0C || n == 0x0D || n == 0x20 ||
    n == 0xA0 || n == 0x1680 || (0x2000 <= n <= 0x200A) || n == 0x2028 ||
    n == 0x2029 || n == 0x202F || n == 0x205F || n == 0x3000 || n == 0xFEFF
  }

  /** Drops the longest whitespace prefix. */
  function TrimStart(s: string): (r: string)
    ensures |r| <= |s| && r == s[|s| - |r|..]
    ensures forall i :: 0 <= i < |s| - |r| ==> IsWhitespace(s[i])
    ensures r != [] ==> !IsWhitespace(r[0])
  {
    if s != [] && IsWhitespace(s[0]) then TrimStart(s[1..]) else s
  }

  /** Drops the longest whitespace suffix. */
  function TrimEnd(s: string): (r: string)
    ensures |r| <= |s| && r == s[..|r|]
    ensures forall i :: |r| <= i < |s| ==> IsWhitespace(s[i])
    ensures r != [] ==> !IsWhitespace(r[|r| - 1])
  {
    if s != [] && IsWhitespace(s[|s| - 1]) then TrimEnd(s[..|s| - 1]) else s
  }

  /** `s.trim()`. */
  function Trim(s: string): (r: string)
    ensures r != [] ==> !IsWhitespace(r[0]) && !IsWhitespace(r[|r| - 1])
  {
    TrimEnd(TrimStart(s))
  }

  /** `s.trim() === ''`: holds exactly when every character is whitespace
      (so the empty string is blank). */
  predicate IsBlank(s: string)
    ensures IsBlank(s) <==> forall i :: 0 <= i < |s| ==> IsWhitespace(s[i])
  {
    BlankIffAllWhitespace(s);
    Trim(s) == ""
  }

  /** A string trims to nothing exactly when every character is whitespace. */
  lemma BlankIffAllWhitespace(s: string)
    ensures Trim(s) == "" <==> forall i :: 0 <= i < |s| ==> IsWhitespace(s[i])
  {
    var t := TrimStart(s);
    var u := TrimEnd(t);
    if t != [] {
      assert !IsWhitespace(t[0]);
      assert !IsWhitespace(s[|s| - |t|]);
    }
  }
}
