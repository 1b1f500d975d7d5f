/**
 * The string primitives the forms and the search box rely on, over `string`
 * (a sequence of Unicode scalar values):
 *  - `IsSpace`: the ECMAScript WhiteSpace and LineTerminator characters, which is
 *    the set both `String.prototype.trim` and the regular-expression class `\s` use;
 *  - `Trim`, `Blank`: `s.trim()` and the falsy test `!s.trim()`;
 *  - `Lower`: `toLowerCase`, for the ASCII and Latin-1 letters;
 *  - `Contains`: `String.prototype.includes`;
 *  - `EmailLike`: `/\S+@\S+\.\S+/.test(s)`;
 *  - fixed-width decimal digits, used to write ISO dates.
 */
module Text {

  /** ECMAScript WhiteSpace (TAB, VT, FF, ZWNBSP, category Zs) and LineTerminator (LF, CR, LS, PS). */
  predicate IsSpace(c: char)
  {
    || c == '\t' || c == '\n' || c == '\U{000B}' || c == '\U{000C}' || c == '\r' || c == ' '
    || c == '\U{00A0}' || c == '\U{1680}' || ('\U{2000}' <= c <= '\U{200A}')
    || c == '\U{2028}' || c == '\U{2029}' || c == '\U{202F}' || c == '\U{205F}'
    || c == '\U{3000}' || c == '\U{FEFF}'
  }

  /** No character of `s[lo..hi]` is a space: the range matches `\S*`. */
  predicate NoSpaceIn(s: string, lo: int, hi: int)
    requires 0 <= lo <= hi <= |s|
  {
    forall k | lo <= k < hi :: !IsSpace(s[k])
  }

  /** `s` with its leading spaces removed (`trimStart`). */
  function TrimStart(s: string): string
  {
    if |s| > 0 && IsSpace(s[0]) then TrimStart(s[1..]) else s
  }

  /** `s` with its trailing spaces removed (`trimEnd`). */
  function TrimEnd(s: string): string
  {
    if |s| > 0 && IsSpace(s[|s| - 1]) then TrimEnd(s[..|s| - 1]) else s
  }

  /** `trimStart` drops exactly the leading run of spaces: what remains is a suffix that does not start with a space. */
  lemma {:induction false} TrimStartSpec(s: string)
    ensures var r := TrimStart(s);
            && |r| <= |s| && r == s[|s| - |r|..]
            && (forall k | 0 <= k < |s| - |r| :: IsSpace(s[k]))
            && (|r| > 0 ==> !IsSpace(r[0]))
  {
    if |s| > 0 && IsSpace(s[0]) {
      TrimStartSpec(s[1..]);
    }
  }

  /** `trimEnd` drops exactly the trailing run of spaces: what remains is a prefix that does not end with a space. */
  lemma {:induction false} TrimEndSpec(s: string)
    ensures var r := TrimEnd(s);
            && |r| <= |s| && r == s[..|r|]
            && (forall k | |r| <= k < |s| :: IsSpace(s[k]))
            && (|r| > 0 ==> !IsSpace(r[|r| - 1]))
  {
    if |s| > 0 && IsSpace(s[|s| - 1]) {
      TrimEndSpec(s[..|s| - 1]);
    }
  }

  /** `s.trim()`. */
  function Trim(s: string): string
  {
    TrimEnd(TrimStart(s))
  }

  /** The guard `!s.trim()` of the forms: the trimmed string is empty. */
  predicate Blank(s: string)
  {
    Trim(s) == []
  }

  /** A string made only of spaces trims to nothing at its start. */
  lemma {:induction false} AllSpaceTrimStart(s: string)
    requires forall k | 0 <= k < |s| :: IsSpace(s[k])
    ensures TrimStart(s) == []
  {
    if |s| > 0 {
      AllSpaceTrimStart(s[1..]);
    }
  }

  /** A string trims to nothing exactly when every character of it is a space. */
  lemma BlankIffAllSpace(s: string)
    ensures Blank(s) <==> forall k | 0 <= k < |s| :: IsSpace(s[k])
  {
    if forall k | 0 <= k < |s| :: IsSpace(s[k]) {
      AllSpaceTrimStart(s);
    }
    if Blank(s) {
      TrimStartSpec(s);
      TrimEndSpec(TrimStart(s));
      // a non-empty TrimStart(s) starts with a non-space, which TrimEnd would keep
      assert |TrimStart(s)| == 0;
    }
  }

  /** A trimmed string neither starts nor ends with a space. */
  lemma TrimHasNoOuterSpace(s: string)
    ensures var t := Trim(s); |t| > 0 ==> !IsSpace(t[0]) && !IsSpace(t[|t| - 1])
  {
    var u := TrimStart(s);
    var t := TrimEnd(u);
    TrimStartSpec(s);
    TrimEndSpec(u);
    if |t| > 0 {
      assert t[0] == u[0];
    }
  }

  /** The capitals `toLowerCase` maps here: ASCII `A`-`Z` and the Latin-1 capitals U+00C0-U+00DE except the multiplication sign. */
  predicate IsCapital(c: char)
  {
    'A' <= c <= 'Z' || ('\U{00C0}' <= c <= '\U{00DE}' && c != '\U{00D7}')
  }

  /** `toLowerCase` of one character: a capital becomes the letter 32 code points above it, which is not a capital; anything else is kept. */
  function LowerChar(c: char): (r: char)
    ensures IsCapital(c) ==> r as int == c as int + 32 && !IsCapital(r)
    ensures !IsCapital(c) ==> r == c
  {
    if IsCapital(c) then (c as int + 32) as char else c
  }

  /** `s.toLowerCase()`: same length, each character lowered on its own, and no capital left. */
  function Lower(s: string): (r: string)
    ensures |r| == |s|
    ensures forall k | 0 <= k < |s| :: r[k] == LowerChar(s[k])
    ensures forall k | 0 <= k < |r| :: !IsCapital(r[k])
  {
    seq(|s|, k requires 0 <= k < |s| => LowerChar(s[k]))
  }

  /** Lower-casing twice is lower-casing once. */
  lemma LowerIdempotent(s: string)
    ensures Lower(Lower(s)) == Lower(s)
  {
    var l := Lower(s);
    forall k | 0 <= k < |s|
      ensures Lower(l)[k] == l[k]
    {
      assert !IsCapital(l[k]);
    }
  }

  /** Two texts that differ only in the case of letters `toLowerCase` knows have the same lower-case form. */
  lemma LowerIgnoresCase(a: string, b: string)
    requires |a| == |b|
    requires forall k | 0 <= k < |a| :: a[k] == b[k] || (IsCapital(a[k]) && b[k] == LowerChar(a[k])) || (IsCapital(b[k]) && a[k] == LowerChar(b[k]))
    ensures Lower(a) == Lower(b)
  {
    forall k | 0 <= k < |a|
      ensures Lower(a)[k] == Lower(b)[k]
    {
      if IsCapital(a[k]) && b[k] == LowerChar(a[k]) {
        assert !IsCapital(b[k]);
      } else if IsCapital(b[k]) && a[k] == LowerChar(b[k]) {
        assert !IsCapital(a[k]);
      }
    }
  }

  /** `needle` occurs in `hay` starting at position `i`. */
  predicate OccursAt(hay: string, needle: string, i: int)
  {
    0 <= i && i + |needle| <= |hay| && hay[i..i + |needle|] == needle
  }

  /** `hay.includes(needle)`. */
  predicate Contains(hay: string, needle: string)
  {
    exists i | 0 <= i <= |hay| - |needle| :: OccursAt(hay, needle, i)
  }

  /** Every string contains the empty string, and every string contains itself between any context. */
  lemma ContainsInfix(a: string, needle: string, b: string)
    ensures Contains(a + needle + b, needle)
    ensures Contains(a, [])
  {
    var h := a + needle + b;
    assert h[|a|..|a| + |needle|] == needle;
    assert OccursAt(h, needle, |a|);
    assert OccursAt(a, [], 0);
  }

  /**
   * The email test `/\S+@\S+\.\S+/.test(s)`: the pattern is not anchored, so it
   * matches exactly when some `@` at `p` has a non-space before it, and is followed
   * by one or more non-spaces up to some `.` at `q` that has a non-space after it.
   */
  predicate EmailLike(s: string)
  {
    exists p, q | 0 < p && p + 1 < q && q + 1 < |s| :: EmailAt(s, p, q)
  }

  /** The shortest match: `s[p-1] @ s[p+1..q] . s[q+1]`. */
  predicate EmailAt(s: string, p: int, q: int)
  {
    && 0 < p && p + 1 < q && q + 1 < |s|
    && s[p] == '@' && s[q] == '.'
    && !IsSpace(s[p - 1]) && NoSpaceIn(s, p + 1, q) && !IsSpace(s[q + 1])
  }

  /** `s[i..j]` is a match of `\S+@\S+\.\S+` whose `@` is at `p` and whose `.` is at `q`. */
  ghost predicate PatternSpan(s: string, i: int, p: int, q: int, j: int)
  {
    && 0 <= i < p && p + 1 < q && q + 1 < j <= |s|
    && NoSpaceIn(s, i, p) && s[p] == '@' && NoSpaceIn(s, p + 1, q)
    && s[q] == '.' && NoSpaceIn(s, q + 1, j)
  }

  /** The regular-expression reading: some substring of `s` has the shape X@Y.Z with X, Y, Z non-empty runs of non-spaces. */
  ghost predicate MatchesEmailPattern(s: string)
  {
    exists i, p, q, j :: PatternSpan(s, i, p, q, j)
  }

  /** The shortest-match test agrees with the regular-expression reading, in both directions. */
  lemma EmailLikeIffPattern(s: string)
    ensures EmailLike(s) <==> MatchesEmailPattern(s)
  {
    if EmailLike(s) {
      var p, q :| 0 < p && p + 1 < q && q + 1 < |s| && EmailAt(s, p, q);
      assert PatternSpan(s, p - 1, p, q, q + 2);
    }
    if MatchesEmailPattern(s) {
      var i, p, q, j :| PatternSpan(s, i, p, q, j);
      assert !IsSpace(s[p - 1]);
      assert !IsSpace(s[q + 1]);
      assert EmailAt(s, p, q);
    }
  }

  /** Without an `@` there is no match (so `"bad-email"` is rejected). */
  lemma NoAtNoEmail(s: string)
    requires '@' !in s
    ensures !EmailLike(s)
  {
    forall p, q | 0 < p && p + 1 < q && q + 1 < |s|
      ensures !EmailAt(s, p, q)
    {
      assert s[p] in s;
    }
  }

  /** The decimal digit character for `d`. */
  function DigitChar(d: int): (c: char)
    requires 0 <= d < 10
    ensures '0' <= c <= '9' && c as int - '0' as int == d
  {
    ('0' as int + d) as char
  }

  function Pow10(n: nat): (r: nat)
    ensures r >= 1
  {
    if n == 0 then 1 else 10 * Pow10(n - 1)
  }

  /** The last `width` decimal digits of `n`, zero-padded on the left. */
  function FixedDigits(n: nat, width: nat): (r: string)
    ensures |r| == width
    ensures forall k | 0 <= k < |r| :: '0' <= r[k] <= '9'
  {
    if width == 0 then [] else FixedDigits(n / 10, width - 1) + [DigitChar(n % 10)]
  }

  predicate AllDigits(s: string)
  {
    forall k | 0 <= k < |s| :: '0' <= s[k] <= '9'
  }

  /** The number a string of decimal digits denotes. */
  function DigitsValue(s: string): nat
    requires AllDigits(s)
  {
    if |s| == 0 then 0 else 10 * DigitsValue(s[..|s| - 1]) + (s[|s| - 1] as int - '0' as int)
  }

  /** Reading back a zero-padded number gives the number, when it fits in the width. */
  lemma {:induction false} FixedDigitsRoundTrip(n: nat, width: nat)
    requires n < Pow10(width)
    ensures DigitsValue(FixedDigits(n, width)) == n
  {
    if width > 0 {
      var r := FixedDigits(n, width);
      assert r[..|r| - 1] == FixedDigits(n / 10, width - 1);
      FixedDigitsRoundTrip(n / 10, width - 1);
    }
  }
}
