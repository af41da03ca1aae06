/** String helpers with the meaning JavaScript gives them: `trimEnd`, `trimStart`,
    `endsWith`, `includes`, decimal formatting of numbers, `parseInt` on a run of
    digits, and the `<` order on strings (compared by code point). */
module Text {

  /** JavaScript white space and line terminators, as matched by `\s` and removed
      by `trim`: tab, line feed, vertical tab, form feed, carriage return, space,
      the space separators of Unicode (no-break space, ogham space mark, the spaces
      U+2000 to U+200A, narrow no-break space, medium mathematical space, ideographic
      space), the two Unicode line/paragraph separators and the byte order mark. */
  predicate IsWhiteSpace(c: char) {
    c == '\t' || c == '\n' || c == '\U{000B}' || c == '\U{000C}' || c == '\r' || c == ' '
    || c == '\U{00A0}' || c == '\U{1680}' || ('\U{2000}' <= c <= '\U{200A}')
    || c == '\U{202F}' || c == '\U{205F}' || c == '\U{3000}'
    || c == '\U{2028}' || c == '\U{2029}' || c == '\U{FEFF}'
  }

  /** Characters that end a line for the `.` of a JavaScript regular expression. */
  predicate IsLineTerminator(c: char) {
    c == '\n' || c == '\r' || c == '\U{2028}' || c == '\U{2029}'
  }

  /** A text that stays on one line. */
  predicate NoLineTerminator(s: string) {
    forall i :: 0 <= i < |s| ==> !IsLineTerminator(s[i])
  }

  lemma NoLineTerminatorConcat(x: string, y: string)
    requires NoLineTerminator(x) && NoLineTerminator(y)
    ensures NoLineTerminator(x + y)
  {
    forall i | 0 <= i < |x + y|
      ensures !IsLineTerminator((x + y)[i])
    {
      if i >= |x| {
        assert (x + y)[i] == y[i - |x|];
      }
    }
  }

  /** Dates, digits and dashes stay on one line. */
  lemma DateCharsOneLine(t: string)
    requires AllDateChars(t)
    ensures NoLineTerminator(t)
  {
    forall i | 0 <= i < |t|
      ensures !IsLineTerminator(t[i])
    {
      assert IsDateChar(t[i]);
    }
  }

  predicate AllWhiteSpace(s: string) {
    forall i :: 0 <= i < |s| ==> IsWhiteSpace(s[i])
  }

  predicate EndsWithWhiteSpace(s: string) {
    |s| > 0 && IsWhiteSpace(s[|s| - 1])
  }

  /** `s.trimEnd()`: the longest prefix of `s` that does not end with white space. */
  function TrimEnd(s: string): (r: string)
    ensures r <= s
    ensures !EndsWithWhiteSpace(r)
    ensures AllWhiteSpace(s[|r|..])
  {
    if |s| > 0 && IsWhiteSpace(s[|s| - 1]) then TrimEnd(s[..|s| - 1]) else s
  }

  /** The number of white-space characters `s.trimStart()` removes. */
  function LeadingWhiteSpace(s: string): (n: nat)
    ensures n <= |s|
    ensures AllWhiteSpace(s[..n])
    ensures n < |s| ==> !IsWhiteSpace(s[n])
  {
    if |s| > 0 && IsWhiteSpace(s[0]) then
      var k := LeadingWhiteSpace(s[1..]);
      assert forall i :: 1 <= i < k + 1 ==> s[i] == s[1..][i - 1];
      k + 1
    else 0
  }

  /** `s.trimStart()`, returned with the white space it removed. */
  function TrimStart(s: string): (r: (string, string))
    ensures r.0 + r.1 == s
    ensures AllWhiteSpace(r.0)
    ensures |r.1| > 0 ==> !IsWhiteSpace(r.1[0])
  {
    var n := LeadingWhiteSpace(s);
    assert s[..n] + s[n..] == s;
    (s[..n], s[n..])
  }

  lemma {:induction false} TrimEndOfTrimmed(s: string, w: string)
    requires !EndsWithWhiteSpace(s)
    requires AllWhiteSpace(w)
    ensures TrimEnd(s + w) == s
    decreases |w|
  {
    if w == [] {
      assert s + w == s;
    } else {
      assert (s + w)[..|s + w| - 1] == s + w[..|w| - 1];
      TrimEndOfTrimmed(s, w[..|w| - 1]);
    }
  }

  /** Concatenation is associative; stating it once spares the solver from
      comparing long strings character by character. */
  lemma ConcatAssoc(a: string, b: string, c: string)
    ensures a + (b + c) == (a + b) + c
  {
  }

  predicate StartsWith(s: string, prefix: string) {
    |prefix| <= |s| && s[..|prefix|] == prefix
  }

  predicate EndsWith(s: string, suffix: string) {
    |suffix| <= |s| && s[|s| - |suffix|..] == suffix
  }

  /** `s` holds `p` starting at index `i`. */
  predicate OccursAt(s: string, p: string, i: nat) {
    i + |p| <= |s| && s[i..i + |p|] == p
  }

  /** An occurrence of `x + y` is an occurrence of `x` followed by one of `y`. */
  lemma OccursAtConcat(s: string, x: string, y: string, i: nat)
    requires OccursAt(s, x + y, i)
    ensures OccursAt(s, x, i) && OccursAt(s, y, i + |x|)
  {
    assert s[i..i + |x|] == (x + y)[..|x|];
    assert s[i + |x|..i + |x| + |y|] == (x + y)[|x|..];
  }

  /** An occurrence inside the first part of a concatenation is one in that part. */
  lemma OccursInPrefix(x: string, y: string, p: string, j: nat)
    requires OccursAt(x + y, p, j) && j + |p| <= |x|
    ensures OccursAt(x, p, j)
  {
    assert (x + y)[j..j + |p|] == x[j..j + |p|];
  }

  /** An occurrence inside the second part of a concatenation is one in that part. */
  lemma OccursInSuffix(x: string, y: string, p: string, j: nat)
    requires OccursAt(x + y, p, j) && j >= |x|
    ensures OccursAt(y, p, j - |x|)
  {
    assert (x + y)[j..j + |p|] == y[j - |x|..j - |x| + |p|];
  }

  /** `s.includes(p)`. */
  predicate Contains(s: string, p: string) {
    exists i: nat | i <= |s| :: OccursAt(s, p, i)
  }

  predicate IsDigit(c: char) {
    '0' <= c <= '9'
  }

  predicate AllDigits(s: string) {
    forall i :: 0 <= i < |s| ==> IsDigit(s[i])
  }

  /** The regular-expression class `[\d-]`: the characters of a written date. */
  predicate IsDateChar(c: char) {
    IsDigit(c) || c == '-'
  }

  predicate AllDateChars(t: string) {
    forall i :: 0 <= i < |t| ==> IsDateChar(t[i])
  }

  function DigitChar(d: nat): (c: char)
    requires d < 10
    ensures IsDigit(c)
  {
    ['0', '1', '2', '3', '4', '5', '6', '7', '8', '9'][d]
  }

  function DigitValue(c: char): (d: nat)
    requires IsDigit(c)
    ensures d < 10
  {
    (c as int - '0' as int) as nat
  }

  lemma DigitRoundTrip(d: nat)
    requires d < 10
    ensures DigitValue(DigitChar(d)) == d
  {
  }

  /** Decimal digits of `n`, without leading zeros (JavaScript `${n}` for n >= 0). */
  function NatToString(n: nat): (s: string)
    ensures |s| > 0 && AllDigits(s)
  {
    if n < 10 then [DigitChar(n)] else NatToString(n / 10) + [DigitChar(n % 10)]
  }

  /** JavaScript `${n}` for an integer. */
  function IntToString(n: int): string {
    if n < 0 then "-" + NatToString(-n) else NatToString(n)
  }

  /** `parseInt` applied to a run of decimal digits. */
  function ParseNat(s: string): nat
    requires AllDigits(s)
  {
    if s == [] then 0 else ParseNat(s[..|s| - 1]) * 10 + DigitValue(s[|s| - 1])
  }

  lemma {:induction false} ParseNatToString(n: nat)
    ensures ParseNat(NatToString(n)) == n
  {
    if n < 10 {
      DigitRoundTrip(n);
    } else {
      var s := NatToString(n);
      assert s[..|s| - 1] == NatToString(n / 10);
      ParseNatToString(n / 10);
      DigitRoundTrip(n % 10);
    }
  }

  function Zeros(k: nat): (s: string)
    ensures |s| == k && AllDigits(s)
  {
    if k == 0 then "" else Zeros(k - 1) + "0"
  }

  /** Leading zeros do not change the value `parseInt` reads. */
  lemma {:induction false} ParseNatLeadingZeros(k: nat, s: string)
    requires AllDigits(s)
    ensures ParseNat(Zeros(k) + s) == ParseNat(s)
    decreases |s|, k
  {
    if s == [] {
      assert Zeros(k) + s == Zeros(k);
      if k > 0 {
        assert Zeros(k)[..k - 1] == Zeros(k - 1);
        ParseNatLeadingZeros(k - 1, s);
        assert Zeros(k - 1) + s == Zeros(k - 1);
      }
    } else {
      var t := Zeros(k) + s;
      assert t[..|t| - 1] == Zeros(k) + s[..|s| - 1];
      ParseNatLeadingZeros(k, s[..|s| - 1]);
    }
  }

  /** Decimal digits of `n`, zero-padded on the left to at least `width` characters. */
  function PadNat(n: nat, width: nat): (s: string)
    ensures AllDigits(s) && |s| >= width
    ensures ParseNat(s) == n
  {
    var t := NatToString(n);
    ParseNatToString(n);
    if |t| >= width then t
    else
      ParseNatLeadingZeros(width - |t|, t);
      Zeros(width - |t|) + t
  }

  lemma {:induction false} NatToStringLength(n: nat, k: nat)
    requires n < Pow10(k) && k > 0
    ensures |NatToString(n)| <= k
  {
    if n >= 10 {
      NatToStringLength(n / 10, k - 1);
    }
  }

  function Pow10(k: nat): (p: nat)
    ensures p >= 1
  {
    if k == 0 then 1 else 10 * Pow10(k - 1)
  }

  /** A number below 10^width is padded to exactly `width` digits. */
  lemma PadNatWidth(n: nat, width: nat)
    requires width > 0 && n < Pow10(width)
    ensures |PadNat(n, width)| == width
  {
    NatToStringLength(n, width);
  }

  /** `a < b` on strings, lexicographic on characters compared by code point. */
  predicate LexLess(a: string, b: string)
    decreases |a|
  {
    if a == [] then b != []
    else if b == [] then false
    else if a[0] != b[0] then a[0] < b[0]
    else LexLess(a[1..], b[1..])
  }

  lemma {:induction false} LexLessIrreflexive(a: string)
    ensures !LexLess(a, a)
    decreases |a|
  {
    if a != [] {
      LexLessIrreflexive(a[1..]);
    }
  }

  lemma {:induction false} LexLessTotal(a: string, b: string)
    ensures a == b || LexLess(a, b) || LexLess(b, a)
    decreases |a|
  {
    if a != [] && b != [] && a[0] == b[0] {
      LexLessTotal(a[1..], b[1..]);
      if a[1..] == b[1..] {
        assert a == [a[0]] + a[1..] && b == [b[0]] + b[1..];
      }
    }
  }

  lemma {:induction false} LexLessTransitive(a: string, b: string, c: string)
    requires LexLess(a, b) && LexLess(b, c)
    ensures LexLess(a, c)
    decreases |a|
  {
    if a != [] && b != [] && c != [] && a[0] == b[0] && b[0] == c[0] {
      LexLessTransitive(a[1..], b[1..], c[1..]);
    }
  }

  lemma {:induction false} LexLessAsymmetric(a: string, b: string)
    requires LexLess(a, b)
    ensures !LexLess(b, a)
    decreases |a|
  {
    if a != [] && b != [] && a[0] == b[0] {
      LexLessAsymmetric(a[1..], b[1..]);
    }
  }
}
