/** Small string toolkit the rest of the model is stated in: decimal digit
    strings (the "yyyy", "MM" and "dd" fields of a date pattern), the order in
    which Java's String.compareTo puts strings, and String.equalsIgnoreCase
    restricted to ASCII letters. */
module Strings {

  predicate IsDigit(c: char) { '0' <= c <= '9' }

  predicate AllDigits(s: string) { forall i :: 0 <= i < |s| ==> IsDigit(s[i]) }

  function DigitChar(n: nat): (c: char)
    requires n < 10
    ensures IsDigit(c) && c as int - '0' as int == n
  {
    ('0' as int + n) as char
  }

  function DigitValue(c: char): (n: nat)
    requires IsDigit(c)
    ensures n < 10 && DigitChar(n) == c
  {
    c as int - '0' as int
  }

  /** The number a string of decimal digits denotes, most significant digit first. */
  function Value(s: string): nat
    requires AllDigits(s)
  {
    if s == [] then 0 else 10 * Value(s[..|s| - 1]) + DigitValue(s[|s| - 1])
  }

  function Pow10(k: nat): (p: nat)
    ensures p >= 1
  {
    if k == 0 then 1 else 10 * Pow10(k - 1)
  }

  /** n in decimal, left-padded with '0' to at least `width` digits, as a
      numeric pattern field of that width prints it: a string longer than
      the width has no leading zero, so it is n's own digits. */
  function Padded(n: nat, width: nat): (s: string)
    ensures AllDigits(s) && Value(s) == n
    ensures |s| >= width && |s| >= 1
    ensures |s| > width && |s| > 1 ==> s[0] != '0'
    decreases n + width
  {
    if n < 10 && width <= 1 then
      assert [DigitChar(n)][..0] == [];
      [DigitChar(n)]
    else
      var high := Padded(n / 10, if width == 0 then 0 else width - 1);
      var s := high + [DigitChar(n % 10)];
      assert s[..|s| - 1] == high;
      assert |s| > width && |s| > 1 ==> s[0] != '0' by {
        if |s| > width && |s| > 1 {
          assert s[0] == high[0];
          if |high| == 1 {
            assert n >= 10;
            assert high[..0] == [];
            assert Value(high) == DigitValue(high[0]);
          }
        }
      }
      s
  }

  /** Padding to a width that the number fits in gives exactly that many digits. */
  lemma {:induction false} PaddedLength(n: nat, width: nat)
    requires 1 <= width && n < Pow10(width)
    ensures |Padded(n, width)| == width
    decreases width
  {
    if !(n < 10 && width <= 1) {
      assert width >= 2;
      PaddedLength(n / 10, width - 1);
    }
  }

  /** a comes strictly before b in the order of Java's String.compareTo:
      at the first position where they differ a has the smaller char, or a is
      a proper prefix of b. */
  predicate LexLess(a: string, b: string)
    decreases |a|
  {
    b != [] && (a == [] || a[0] < b[0] || (a[0] == b[0] && LexLess(a[1..], b[1..])))
  }

  /** Comparing two concatenations whose first parts have equal length
      compares the first parts, and only on a tie the second parts. */
  lemma {:induction false} LexLessAppend(p1: string, q1: string, p2: string, q2: string)
    requires |p1| == |p2|
    ensures LexLess(p1 + q1, p2 + q2) <==> LexLess(p1, p2) || (p1 == p2 && LexLess(q1, q2))
    decreases |p1|
  {
    if p1 != [] {
      assert (p1 + q1)[0] == p1[0] && (p2 + q2)[0] == p2[0];
      assert (p1 + q1)[1..] == p1[1..] + q1;
      assert (p2 + q2)[1..] == p2[1..] + q2;
      LexLessAppend(p1[1..], q1, p2[1..], q2);
      assert p1 == p2 <==> p1[0] == p2[0] && p1[1..] == p2[1..] by {
        if p1[0] == p2[0] && p1[1..] == p2[1..] {
          assert p1 == [p1[0]] + p1[1..];
          assert p2 == [p2[0]] + p2[1..];
        }
      }
    } else {
      assert p1 + q1 == q1 && p2 + q2 == q2;
    }
  }

  /** For digit strings of one length, the string order is the numeric order,
      and equal strings are exactly equal numbers. */
  lemma {:induction false} DigitsOrder(s: string, t: string)
    requires AllDigits(s) && AllDigits(t) && |s| == |t|
    ensures LexLess(s, t) <==> Value(s) < Value(t)
    ensures s == t <==> Value(s) == Value(t)
    decreases |s|
  {
    if s != [] {
      var n := |s| - 1;
      var s', t' := s[..n], t[..n];
      assert s == s' + [s[n]] && t == t' + [t[n]];
      DigitsOrder(s', t');
      LexLessAppend(s', [s[n]], t', [t[n]]);
      assert LexLess([s[n]], [t[n]]) <==> s[n] < t[n];
      assert DigitValue(s[n]) < DigitValue(t[n]) <==> s[n] < t[n];
    }
  }

  function AsciiLower(c: char): char
  {
    if 'A' <= c <= 'Z' then (c as int + 32) as char else c
  }

  function AsciiUpper(c: char): char
  {
    if 'a' <= c <= 'z' then (c as int - 32) as char else c
  }

  /** The per-character test of String.regionMatches(ignoreCase = true):
      equal chars, or equal upper-case forms, or equal lower-case forms of
      the upper-case forms. */
  predicate CharEqualsIgnoreCase(a: char, b: char)
  {
    a == b || AsciiUpper(a) == AsciiUpper(b) || AsciiLower(AsciiUpper(a)) == AsciiLower(AsciiUpper(b))
  }

  /** String.equalsIgnoreCase: equal lengths and every char pair equal up to case. */
  predicate EqualsIgnoreCase(a: string, b: string)
  {
    |a| == |b| && forall i :: 0 <= i < |a| ==> CharEqualsIgnoreCase(a[i], b[i])
  }

  function LowerCase(s: string): string
  {
    seq(|s|, i requires 0 <= i < |s| => AsciiLower(s[i]))
  }

  /** Ignoring case is comparing the lower-case forms; hence it is an
      equivalence relation. */
  lemma EqualsIgnoreCaseIsLowerCaseEquality(a: string, b: string)
    ensures EqualsIgnoreCase(a, b) <==> LowerCase(a) == LowerCase(b)
  {
    forall c: char, d: char
      ensures CharEqualsIgnoreCase(c, d) <==> AsciiLower(c) == AsciiLower(d)
    {
    }
    if LowerCase(a) == LowerCase(b) {
      assert |a| == |b|;
      forall i | 0 <= i < |a| ensures CharEqualsIgnoreCase(a[i], b[i]) {
        assert LowerCase(a)[i] == LowerCase(b)[i];
      }
    }
  }

  lemma EqualsIgnoreCaseEquivalence(a: string, b: string, c: string)
    ensures EqualsIgnoreCase(a, a)
    ensures EqualsIgnoreCase(a, b) ==> EqualsIgnoreCase(b, a)
    ensures EqualsIgnoreCase(a, b) && EqualsIgnoreCase(b, c) ==> EqualsIgnoreCase(a, c)
  {
    EqualsIgnoreCaseIsLowerCaseEquality(a, a);
    EqualsIgnoreCaseIsLowerCaseEquality(a, b);
    EqualsIgnoreCaseIsLowerCaseEquality(b, a);
    EqualsIgnoreCaseIsLowerCaseEquality(b, c);
    EqualsIgnoreCaseIsLowerCaseEquality(a, c);
  }
}
