/** The `java.lang.String` operations the rental ledger relies on:
    `trim`, `equalsIgnoreCase` (with ASCII case mapping) and the decimal
    rendering of an `int` in string concatenation. */
module Text {

  /** `String.trim` removes every char whose code is at most U+0020. */
  predicate IsTrimmable(c: char) {
    c <= ' '
  }

  /** How many chars `trim` skips at the front: the length of the longest
      prefix of trimmable chars. */
  function LeadingTrimmable(s: string): (n: nat)
    ensures n <= |s|
    ensures forall i :: 0 <= i < n ==> IsTrimmable(s[i])
    ensures n < |s| ==> !IsTrimmable(s[n])
  {
    if |s| > 0 && IsTrimmable(s[0]) then
      var n := 1 + LeadingTrimmable(s[1..]);
      assert forall i :: 1 <= i < n ==> s[i] == s[1..][i - 1];
      n
    else 0
  }

  /** How many chars `trim` drops at the back: the length of the longest
      suffix of trimmable chars. */
  function TrailingTrimmable(s: string): (n: nat)
    ensures n <= |s|
    ensures forall i :: |s| - n <= i < |s| ==> IsTrimmable(s[i])
    ensures n < |s| ==> !IsTrimmable(s[|s| - n - 1])
  {
    if |s| > 0 && IsTrimmable(s[|s| - 1]) then
      var n := 1 + TrailingTrimmable(s[..|s| - 1]);
      assert forall i :: |s| - n <= i < |s| - 1 ==> s[i] == s[..|s| - 1][i];
      n
    else 0
  }

  /** `String.trim`: the chars between the leading and the trailing run of
      trimmable chars. A non-empty result starts and ends with a kept char,
      and the result is empty exactly when every char of the input is
      trimmable. */
  function Trim(s: string): (r: string)
    ensures |r| > 0 ==> !IsTrimmable(r[0]) && !IsTrimmable(r[|r| - 1])
    ensures |r| == 0 <==> forall i :: 0 <= i < |s| ==> IsTrimmable(s[i])
  {
    var a := LeadingTrimmable(s);
    var t := s[a..];
    var b := TrailingTrimmable(t);
    assert a < |s| ==> t[0] == s[a] && b < |t|;
    assert b < |t| ==> t[|t| - b - 1] == s[|s| - b - 1];
    s[a..|s| - b]
  }

  /** What `trim` keeps: the infix of the input that starts after the
      leading trimmable chars and is followed only by trimmable chars. */
  lemma TrimIsInfix(s: string)
    ensures LeadingTrimmable(s) + |Trim(s)| <= |s|
    ensures Trim(s) == s[LeadingTrimmable(s)..LeadingTrimmable(s) + |Trim(s)|]
    ensures forall i :: 0 <= i < LeadingTrimmable(s) ==> IsTrimmable(s[i])
    ensures forall i :: LeadingTrimmable(s) + |Trim(s)| <= i < |s| ==> IsTrimmable(s[i])
  {
    var a := LeadingTrimmable(s);
    var b := TrailingTrimmable(s[a..]);
    assert Trim(s) == s[a..|s| - b];
    forall i | |s| - b <= i < |s|
      ensures IsTrimmable(s[i])
    {
      assert s[i] == s[a..][i - a];
    }
  }

  /** Trimming twice is trimming once. */
  lemma TrimIdempotent(s: string)
    ensures Trim(Trim(s)) == Trim(s)
  {
    var r := Trim(s);
    if |r| > 0 {
      assert LeadingTrimmable(r) == 0;
      assert TrailingTrimmable(r[0..]) == 0;
    }
  }

  /** `Character.toUpperCase`, restricted to the ASCII letters. */
  function ToUpper(c: char): char {
    if 'a' <= c <= 'z' then (c as int - 32) as char else c
  }

  /** `Character.toLowerCase`, restricted to the ASCII letters. */
  function ToLower(c: char): char {
    if 'A' <= c <= 'Z' then (c as int + 32) as char else c
  }

  /** The per-char test of `String.regionMatches(true, ...)`, on which
      `equalsIgnoreCase` is built: equal, equal upper-cased, or equal after
      upper- then lower-casing. Under the ASCII mapping the three tests
      collapse to equality of the lower-case forms. */
  predicate CharEqualsIgnoreCase(a: char, b: char): (r: bool)
    ensures r <==> ToLower(a) == ToLower(b)
  {
    assert ToLower(ToUpper(a)) == ToLower(a);
    assert ToLower(ToUpper(b)) == ToLower(b);
    || a == b
    || ToUpper(a) == ToUpper(b)
    || ToLower(ToUpper(a)) == ToLower(ToUpper(b))
  }

  /** `String.equalsIgnoreCase`: same length and pairwise equal chars
      ignoring case, that is, the same lower-case form at every position. */
  predicate EqualsIgnoreCase(a: string, b: string): (r: bool)
    ensures r <==> |a| == |b| && forall i :: 0 <= i < |a| ==> ToLower(a[i]) == ToLower(b[i])
  {
    |a| == |b| && forall i :: 0 <= i < |a| ==> CharEqualsIgnoreCase(a[i], b[i])
  }

  /** Lower-case folding of a whole string. */
  function Fold(s: string): string {
    seq(|s|, i requires 0 <= i < |s| => ToLower(s[i]))
  }

  /** `equalsIgnoreCase` is equality of the folded strings, hence an
      equivalence relation on strings. */
  lemma EqualsIgnoreCaseIffFold(a: string, b: string)
    ensures EqualsIgnoreCase(a, b) <==> Fold(a) == Fold(b)
  {
    if |a| == |b| {
      if Fold(a) == Fold(b) {
        forall i | 0 <= i < |a| ensures CharEqualsIgnoreCase(a[i], b[i]) {
          assert Fold(a)[i] == Fold(b)[i];
        }
      }
    } else {
      assert |Fold(a)| != |Fold(b)|;
    }
  }

  lemma EqualsIgnoreCaseSymmetric(a: string, b: string)
    requires EqualsIgnoreCase(a, b)
    ensures EqualsIgnoreCase(b, a)
  {
    EqualsIgnoreCaseIffFold(a, b);
    EqualsIgnoreCaseIffFold(b, a);
  }

  lemma EqualsIgnoreCaseTransitive(a: string, b: string, c: string)
    requires EqualsIgnoreCase(a, b) && EqualsIgnoreCase(b, c)
    ensures EqualsIgnoreCase(a, c)
  {
    EqualsIgnoreCaseIffFold(a, b);
    EqualsIgnoreCaseIffFold(b, c);
    EqualsIgnoreCaseIffFold(a, c);
  }

  predicate IsDigit(c: char) {
    '0' <= c <= '9'
  }

  function DigitChar(d: nat): (c: char)
    requires d < 10
    ensures IsDigit(c)
  {
    ('0' as int + d) as char
  }

  /** The decimal digits Java's string concatenation writes for a
      non-negative `int`: at least one digit, and no leading zero. */
  function NatToString(n: nat): (s: string)
    ensures |s| > 0
    ensures forall i :: 0 <= i < |s| ==> IsDigit(s[i])
    ensures |s| > 1 ==> s[0] != '0'
  {
    if n < 10 then [DigitChar(n)] else NatToString(n / 10) + [DigitChar(n % 10)]
  }

  /** Reads a string of decimal digits back as a number. */
  function ParseDecimal(s: string): nat
    requires forall i :: 0 <= i < |s| ==> IsDigit(s[i])
  {
    if |s| == 0 then 0
    else
      assert IsDigit(s[|s| - 1]);
      ParseDecimal(s[..|s| - 1]) * 10 + (s[|s| - 1] as int - '0' as int)
  }

  /** Decimal rendering round-trips through parsing. */
  lemma {:induction false} ParseNatToString(n: nat)
    ensures ParseDecimal(NatToString(n)) == n
  {
    if n >= 10 {
      var s := NatToString(n);
      assert s[..|s| - 1] == NatToString(n / 10);
      ParseNatToString(n / 10);
    }
  }

  /** Distinct numbers render as distinct strings. */
  lemma NatToStringInjective(m: nat, n: nat)
    ensures NatToString(m) == NatToString(n) ==> m == n
  {
    ParseNatToString(m);
    ParseNatToString(n);
  }
}
