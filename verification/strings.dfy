/** Python string primitives the parsers rely on: the whitespace test shared by
    the regex class `\s` and `str.strip`, `str.strip` itself, and the decimal
    conversion `int(...)` applied to a `\d+` capture. */
module Strings {

  /** Python's `str.isspace` for one code point; the regex class `\s` on a
      `str` pattern uses the same table. */
  predicate IsSpace(c: char) {
    || ('\t' <= c <= '\r')                      // U+0009 .. U+000D
    || ('\U{1C}' <= c <= '\U{1F}')              // information separators
    || c == ' '
    || c == '\U{85}' || c == '\U{A0}' || c == '\U{1680}'
    || ('\U{2000}' <= c <= '\U{200A}')
    || c == '\U{2028}' || c == '\U{2029}' || c == '\U{202F}'
    || c == '\U{205F}' || c == '\U{3000}'
  }

  predicate AllSpace(x: string) {
    forall k :: 0 <= k < |x| ==> IsSpace(x[k])
  }

  /** Neither end of `x` is whitespace: the shape of every `strip()` result. */
  predicate Stripped(x: string) {
    |x| == 0 || (!IsSpace(x[0]) && !IsSpace(x[|x| - 1]))
  }

  /** Python's `str.strip()` with no argument: whitespace is dropped from
      the front, then from the back, until neither end is whitespace. */
  function Strip(s: string): (r: string)
    ensures |r| <= |s|
    decreases |s|
  {
    if |s| > 0 && IsSpace(s[0]) then Strip(s[1..])
    else if |s| > 0 && IsSpace(s[|s| - 1]) then Strip(s[..|s| - 1])
    else s
  }

  /** What `strip()` returns has no whitespace at either end. */
  lemma {:induction false} LemmaStripShape(s: string)
    ensures Stripped(Strip(s))
    decreases |s|
  {
    if |s| > 0 && IsSpace(s[0]) {
      LemmaStripShape(s[1..]);
    } else if |s| > 0 && IsSpace(s[|s| - 1]) {
      LemmaStripShape(s[..|s| - 1]);
    }
  }

  /** `Strip` removes exactly a whitespace prefix and a whitespace suffix:
      any split of `s` into whitespace, a stripped core and whitespace
      yields that core. */
  lemma {:induction false} LemmaStripUnique(s: string, a: nat, b: nat)
    requires a <= b <= |s|
    requires AllSpace(s[..a]) && AllSpace(s[b..])
    requires Stripped(s[a..b])
    ensures Strip(s) == s[a..b]
    decreases |s|
  {
    if |s| > 0 && IsSpace(s[0]) {
      var t := s[1..];
      if a > 0 {
        assert t[..a - 1] == s[1..a] && s[..a][1..] == s[1..a];
        assert t[b - 1..] == s[b..] && t[a - 1..b - 1] == s[a..b];
        LemmaStripUnique(t, a - 1, b - 1);
      } else {
        assert b == 0;
        assert t[..0] == [] && t[0..0] == s[0..0];
        assert t[0..] == s[0..][1..];
        LemmaStripUnique(t, 0, 0);
      }
    } else if |s| > 0 && IsSpace(s[|s| - 1]) {
      var t := s[..|s| - 1];
      assert b < |s|;
      assert t[..a] == s[..a] && t[a..b] == s[a..b];
      assert t[b..] == s[b..][..|s| - 1 - b];
      LemmaStripUnique(t, a, b);
    } else if |s| > 0 {
      assert a == 0 && b == |s|;
      assert s[0..|s|] == s;
    }
  }

  /** A string that is already stripped is left unchanged. */
  lemma LemmaStripStripped(x: string)
    requires Stripped(x)
    ensures Strip(x) == x
  {
  }

  /** `strip()` is idempotent. */
  lemma LemmaStripIdempotent(s: string)
    ensures Strip(Strip(s)) == Strip(s)
  {
    LemmaStripShape(s);
    LemmaStripStripped(Strip(s));
  }

  /** `not x.strip()` holds exactly for whitespace-only strings. */
  lemma {:induction false} LemmaStripBlank(s: string)
    ensures Strip(s) == "" <==> AllSpace(s)
    decreases |s|
  {
    if |s| > 0 && IsSpace(s[0]) {
      LemmaStripBlank(s[1..]);
      assert AllSpace(s[1..]) ==> AllSpace(s) by {
        if AllSpace(s[1..]) {
          forall k | 0 < k < |s| ensures IsSpace(s[k]) { assert s[1..][k - 1] == s[k]; }
        }
      }
    } else if |s| > 0 && IsSpace(s[|s| - 1]) {
      var t := s[..|s| - 1];
      LemmaStripBlank(t);
      assert t[0] == s[0];
    }
  }

  /** Whitespace in front of a text does not change what it strips to. */
  lemma {:induction false} LemmaStripSkip(s: string, x: nat, a: nat, b: nat)
    requires x <= a <= b <= |s| && AllSpace(s[x..a])
    ensures Strip(s[x..b]) == Strip(s[a..b])
    decreases a - x
  {
    if x < a {
      var t := s[x..b];
      assert t[0] == s[x..a][0];
      assert t[1..] == s[x + 1..b];
      assert s[x + 1..a] == s[x..a][1..];
      LemmaStripSkip(s, x + 1, a, b);
    }
  }

  // ----- decimal numbers -----

  predicate IsDigit(c: char) {
    '0' <= c <= '9'
  }

  predicate AllDigits(d: string) {
    forall k :: 0 <= k < |d| ==> IsDigit(d[k])
  }

  function DigitValue(c: char): (v: nat)
    requires IsDigit(c)
    ensures v < 10
  {
    (c as int) - ('0' as int)
  }

  function DigitChar(v: nat): (c: char)
    requires v < 10
    ensures IsDigit(c) && DigitValue(c) == v
  {
    ('0' as int + v) as char
  }

  function Pow10(n: nat): (r: nat)
    ensures r > 0
  {
    if n == 0 then 1 else 10 * Pow10(n - 1)
  }

  /** Python's `int(d)` for a run of ASCII decimal digits; leading zeros are
      allowed and ignored. */
  function DecimalValue(d: string): (v: nat)
    requires AllDigits(d)
    ensures v < Pow10(|d|)
    decreases |d|
  {
    if |d| == 0 then 0
    else DecimalValue(d[..|d| - 1]) * 10 + DigitValue(d[|d| - 1])
  }

  /** The canonical decimal spelling of `n`, without leading zeros. */
  function ToDecimal(n: nat): (d: string)
    ensures |d| > 0 && AllDigits(d)
    ensures |d| > 1 ==> d[0] != '0'
    decreases n
  {
    if n < 10 then [DigitChar(n)] else ToDecimal(n / 10) + [DigitChar(n % 10)]
  }

  /** Reading back a spelled-out number gives the number. */
  lemma {:induction false} LemmaDecimalRoundTrip(n: nat)
    ensures DecimalValue(ToDecimal(n)) == n
    decreases n
  {
    if n >= 10 {
      var d := ToDecimal(n);
      assert d[..|d| - 1] == ToDecimal(n / 10);
      LemmaDecimalRoundTrip(n / 10);
    }
  }
}
