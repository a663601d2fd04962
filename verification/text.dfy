/**
 * Character classes and small string helpers used by the redactor, the
 * sanitiser and the validators. Strings are sequences of characters; case
 * folding is ASCII only, which is what JavaScript's case-insensitive regular
 * expressions do without the `u` flag.
 */
module Text {

  /** JavaScript's `\s`: the ECMAScript white-space and line-terminator code points. */
  predicate IsSpace(c: char) {
    var n := c as int;
    n == 0x09 || n == 0x0A || n == 0x0B || n == 0x0C || n == 0x0D || n == 0x20
    || n == 0xA0 || n == 0x1680 || (0x2000 <= n <= 0x200A) || n == 0x2028 || n == 0x2029
    || n == 0x202F || n == 0x205F || n == 0x3000 || n == 0xFEFF
  }

  predicate IsLowerLetter(c: char) { 'a' <= c <= 'z' }

  predicate IsUpperLetter(c: char) { 'A' <= c <= 'Z' }

  predicate IsLetter(c: char) { IsLowerLetter(c) || IsUpperLetter(c) }

  predicate IsDigit(c: char) { '0' <= c <= '9' }

  /** ASCII lower-casing: the canonicalisation a non-Unicode `/i` regular expression applies. */
  function Lower(c: char): (r: char)
    ensures IsLetter(c) <==> IsLowerLetter(r)
    ensures !IsLetter(c) ==> r == c
  {
    if IsUpperLetter(c) then (c as int + 32) as char else c
  }

  /** The character class `[a-zA-Z0-9_-]` shared by app names and backup names. */
  predicate IsAppNameChar(c: char) {
    IsLetter(c) || IsDigit(c) || c == '_' || c == '-'
  }

  /** `s` has the lower-case word `w` at position `k`, compared case-insensitively. */
  predicate WordAtCI(s: string, k: nat, w: string) {
    k + |w| <= |s| && forall i :: 0 <= i < |w| ==> Lower(s[k + i]) == w[i]
  }

  predicate StartsWith(s: string, w: string) {
    |w| <= |s| && s[..|w|] == w
  }

  /** `w` occurs in `s` at position `i`. */
  predicate OccursAt(s: string, w: string, i: int) {
    0 <= i && i + |w| <= |s| && s[i..i + |w|] == w
  }

  /** JavaScript's `String.prototype.includes`. */
  predicate Contains(s: string, w: string) {
    exists i | 0 <= i <= |s| - |w| :: OccursAt(s, w, i)
  }

  /** JavaScript's `Array.prototype.join(sep)` over strings. */
  function Join(sep: string, xs: seq<string>): (r: string)
    ensures xs == [] ==> r == []
    ensures |xs| == 1 ==> r == xs[0]
  {
    if xs == [] then []
    else if |xs| == 1 then xs[0]
    else xs[0] + sep + Join(sep, xs[1..])
  }

  /** Every element of a joined list appears, whole, in the joined string. */
  lemma {:induction false} JoinContainsEach(sep: string, xs: seq<string>, k: nat)
    requires k < |xs|
    ensures Contains(Join(sep, xs), xs[k])
  {
    var j := Join(sep, xs);
    if |xs| == 1 {
      assert OccursAt(j, xs[k], 0);
    } else if k == 0 {
      assert j == xs[0] + (sep + Join(sep, xs[1..]));
      assert j[0..|xs[0]|] == xs[0];
      assert OccursAt(j, xs[k], 0);
    } else {
      JoinContainsEach(sep, xs[1..], k - 1);
      var rest := Join(sep, xs[1..]);
      assert xs[1..][k - 1] == xs[k];
      var i :| 0 <= i <= |rest| - |xs[k]| && OccursAt(rest, xs[k], i);
      assert j == (xs[0] + sep) + rest;
      OccursAfter(xs[0] + sep, rest, xs[k], i);
    }
  }

  /** An occurrence in `b` is an occurrence in `a + b`, shifted by `|a|`. */
  lemma OccursAfter(a: string, b: string, w: string, i: int)
    requires OccursAt(b, w, i)
    ensures OccursAt(a + b, w, |a| + i)
  {
    assert (a + b)[|a| + i..|a| + i + |w|] == b[i..i + |w|];
  }

  /** Decimal rendering of a natural number, as JavaScript's `String(n)` gives it. */
  function DecimalString(n: nat): (r: string)
    ensures |r| >= 1
    ensures forall i :: 0 <= i < |r| ==> IsDigit(r[i])
  {
    var d := ['0' + (n % 10) as char];
    if n < 10 then d else DecimalString(n / 10) + d
  }
}
