/** Decimal rendering of naturals, as Python's f-strings write a non-negative int,
    and the facts needed to read such a rendering back. */
module Text {

  predicate IsDigit(c: char) {
    '0' <= c <= '9'
  }

  predicate AllDigits(s: string) {
    forall i :: 0 <= i < |s| ==> IsDigit(s[i])
  }

  function DigitValue(c: char): nat
    requires IsDigit(c)
  {
    c as int - '0' as int
  }

  function DigitChar(d: nat): (c: char)
    requires d < 10
    ensures IsDigit(c) && DigitValue(c) == d
  {
    ('0' as int + d) as char
  }

  /** f"{n}" for a non-negative int: at least one digit, no sign, no leading zero. */
  function NatToString(n: nat): (s: string)
    ensures |s| >= 1 && AllDigits(s)
    ensures (|s| == 1) == (n < 10)
    ensures |s| > 1 ==> s[0] != '0'
    decreases n
  {
    if n < 10 then [DigitChar(n)] else NatToString(n / 10) + [DigitChar(n % 10)]
  }

  /** The number a string of decimal digits denotes. */
  function DigitsValue(s: string): nat
    requires AllDigits(s)
  {
    if s == [] then 0 else DigitsValue(s[..|s| - 1]) * 10 + DigitValue(s[|s| - 1])
  }

  lemma {:induction false} DigitsValueOfNatToString(n: nat)
    ensures DigitsValue(NatToString(n)) == n
    decreases n
  {
    if n >= 10 {
      var s := NatToString(n);
      assert s[..|s| - 1] == NatToString(n / 10);
      DigitsValueOfNatToString(n / 10);
    }
  }

  lemma NatToStringInjective(m: nat, n: nat)
    requires NatToString(m) == NatToString(n)
    ensures m == n
  {
    DigitsValueOfNatToString(m);
    DigitsValueOfNatToString(n);
  }

  /** Length of the run of digits a string starts with. */
  function LeadingDigits(s: string): (k: nat)
    ensures k <= |s|
  {
    if s == [] || !IsDigit(s[0]) then 0 else 1 + LeadingDigits(s[1..])
  }

  lemma {:induction false} LeadingDigitsOfConcat(x: string, r: string)
    requires AllDigits(x) && r != [] && !IsDigit(r[0])
    ensures LeadingDigits(x + r) == |x|
  {
    if x != [] {
      assert (x + r)[1..] == x[1..] + r;
      LeadingDigitsOfConcat(x[1..], r);
    }
  }

  /** A run of digits followed by a non-digit splits a string in only one way. */
  lemma DigitRunSplits(x: string, r: string, y: string, t: string)
    requires AllDigits(x) && AllDigits(y)
    requires r != [] && !IsDigit(r[0]) && t != [] && !IsDigit(t[0])
    requires x + r == y + t
    ensures x == y && r == t
  {
    LeadingDigitsOfConcat(x, r);
    LeadingDigitsOfConcat(y, t);
    assert x == (x + r)[..|x|];
    assert y == (y + t)[..|y|];
    assert r == (x + r)[|x|..];
    assert t == (y + t)[|y|..];
  }

  /** Two renderings of numbers, each followed by a text that starts with a non-digit,
      are equal only if the numbers and the texts are. */
  lemma NumberThenTextSplits(m: nat, r: string, n: nat, t: string)
    requires r != [] && !IsDigit(r[0]) && t != [] && !IsDigit(t[0])
    requires NatToString(m) + r == NatToString(n) + t
    ensures m == n && r == t
  {
    DigitRunSplits(NatToString(m), r, NatToString(n), t);
    NatToStringInjective(m, n);
  }

  /** A text made of fixed pieces with three numbers rendered between them determines
      the three numbers, provided each piece after a number starts with a non-digit. */
  lemma {:induction false} ThreeNumbersReadBack(p0: string, p1: string, p2: string, p3: string,
                                                a: nat, b: nat, c: nat, a': nat, b': nat, c': nat)
    requires p1 != [] && !IsDigit(p1[0]) && p2 != [] && !IsDigit(p2[0]) && p3 != [] && !IsDigit(p3[0])
    requires p0 + (NatToString(a) + (p1 + (NatToString(b) + (p2 + (NatToString(c) + p3))))) ==
             p0 + (NatToString(a') + (p1 + (NatToString(b') + (p2 + (NatToString(c') + p3)))))
    ensures a == a' && b == b' && c == c'
  {
    var t2, t2' := p2 + (NatToString(c) + p3), p2 + (NatToString(c') + p3);
    var t1, t1' := p1 + (NatToString(b) + t2), p1 + (NatToString(b') + t2');
    CommonPrefixDrops(p0, NatToString(a) + t1, NatToString(a') + t1');
    NumberThenTextSplits(a, t1, a', t1');
    CommonPrefixDrops(p1, NatToString(b) + t2, NatToString(b') + t2');
    NumberThenTextSplits(b, t2, b', t2');
    CommonPrefixDrops(p2, NatToString(c) + p3, NatToString(c') + p3);
    NumberThenTextSplits(c, p3, c', p3);
  }

  lemma CommonPrefixDrops(h: string, x: string, y: string)
    requires h + x == h + y
    ensures x == y
  {
    assert x == (h + x)[|h|..];
    assert y == (h + y)[|h|..];
  }
}
