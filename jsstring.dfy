/** ECMAScript's `String.prototype.trim`, on strings as sequences of Unicode
    scalar values. */
module JsString {

  /** The code points `trim` strips: the ECMAScript WhiteSpace set (tab,
      vertical tab, form feed, zero-width no-break space and every Unicode
      space separator) and the LineTerminator set. */
  predicate IsWhitespace(c: char) {
    var n := c as int;
    n == 0x09 || n == 0x0B || n == 0x0C || n == 0x20 || n == 0xA0 || n == 0xFEFF
    || n == 0x1680 || (0x2000 <= n <= 0x200A) || n == 0x202F || n == 0x205F || n == 0x3000
    || n == 0x0A || n == 0x0D || n == 0x2028 || n == 0x2029
  }

  predicate AllWhitespace(s: string) {
    forall k :: 0 <= k < |s| ==> IsWhitespace(s[k])
  }

  /** The first index at or after `i` that does not hold whitespace (or |s|). */
  function SkipLeading(s: string, i: nat): (n: nat)
    requires i <= |s|
    ensures i <= n <= |s|
    ensures forall k :: i <= k < n ==> IsWhitespace(s[k])
    ensures n < |s| ==> !IsWhitespace(s[n])
    decreases |s| - i
  {
    if i < |s| && IsWhitespace(s[i]) then SkipLeading(s, i + 1) else i
  }

  /** The end of `s[lo..j]` once its trailing whitespace is dropped. */
  function SkipTrailing(s: string, lo: nat, j: nat): (m: nat)
    requires lo <= j <= |s|
    ensures lo <= m <= j
    ensures forall k :: m <= k < j ==> IsWhitespace(s[k])
    ensures m > lo ==> !IsWhitespace(s[m - 1])
    decreases j
  {
    if j > lo && IsWhitespace(s[j - 1]) then SkipTrailing(s, lo, j - 1) else j
  }

  /** `s.trim()`: the slice of `s` left once the whitespace at both ends is
      cut. It starts and ends with a non-whitespace character, only
      whitespace lies outside it, and it is empty exactly when `s` is all
      whitespace. */
  function Trim(s: string): (r: string)
    ensures r != [] ==> !IsWhitespace(r[0]) && !IsWhitespace(r[|r| - 1])
    ensures exists i, j ::
              && 0 <= i <= j <= |s| && r == s[i..j]
              && (forall k :: 0 <= k < i ==> IsWhitespace(s[k]))
              && (forall k :: j <= k < |s| ==> IsWhitespace(s[k]))
    ensures r == [] <==> AllWhitespace(s)
  {
    var i := SkipLeading(s, 0);
    var j := SkipTrailing(s, i, |s|);
    assert j == i ==> AllWhitespace(s) by {
      if j == i {
        forall k | 0 <= k < |s| ensures IsWhitespace(s[k]) {
          if k >= i { assert j <= k < |s|; }
        }
      }
    }
    assert i < j ==> s[i..j][0] == s[i] && s[i..j][j - i - 1] == s[j - 1];
    s[i..j]
  }

  /** Trimming twice is trimming once. */
  lemma TrimIdempotent(s: string)
    ensures Trim(Trim(s)) == Trim(s)
  {
    var r := Trim(s);
    assert SkipLeading(r, 0) == 0;
    assert SkipTrailing(r, 0, |r|) == |r|;
    assert r[0..|r|] == r;
  }
}
