/**
 Decimal rendering and parsing of integers, as `strconv.Itoa` and
 `strconv.Atoi` do them for the handler in main.go. Integers are unbounded:
 the 64-bit range check of `Atoi` is not modelled.
 */
module Decimal {
  import opened Options

  predicate IsDigit(c: char) {
    '0' <= c <= '9'
  }

  predicate AllDigits(s: string) {
    forall i :: 0 <= i < |s| ==> IsDigit(s[i])
  }

  function DigitValue(c: char): (d: nat)
    requires IsDigit(c)
    ensures d < 10
  {
    (c as int) - ('0' as int)
  }

  function DigitChar(d: nat): (c: char)
    requires d < 10
    ensures IsDigit(c) && DigitValue(c) == d
  {
    (('0' as int) + d) as char
  }

  /** The value of a string of decimal digits, most significant digit first. */
  function DigitsValue(s: string): nat
    requires AllDigits(s)
    decreases |s|
  {
    if |s| == 0 then 0 else DigitsValue(s[..|s| - 1]) * 10 + DigitValue(s[|s| - 1])
  }

  /** The text `Atoi` accepts: an optional sign followed by one or more ASCII digits. */
  predicate IsIntText(s: string) {
    && |s| >= 1
    && (IsDigit(s[0]) || (|s| >= 2 && (s[0] == '+' || s[0] == '-')))
    && forall i :: 1 <= i < |s| ==> IsDigit(s[i])
  }

  /**
   The texts `Itoa` produces: no `+`, no leading zero, and no `-0`.
   */
  predicate IsCanonicalIntText(s: string) {
    && IsIntText(s)
    && s[0] != '+'
    && (s[0] == '-' ==> s[1] != '0')
    && (s[0] != '-' && |s| >= 2 ==> s[0] != '0')
  }

  /** Canonical digits of a natural number: no leading zero, "0" for zero. */
  function NatDigits(n: nat): (s: string)
    ensures |s| >= 1 && AllDigits(s)
    ensures DigitsValue(s) == n
    ensures |s| > 1 ==> s[0] != '0'
  {
    if n < 10 then [DigitChar(n)]
    else
      var front := NatDigits(n / 10);
      var s := front + [DigitChar(n % 10)];
      assert s[..|s| - 1] == front;
      s
  }

  /** `strconv.Itoa`: a minus sign for negative numbers, then the canonical digits. */
  function Itoa(n: int): (s: string)
    ensures IsIntText(s)
    ensures s[0] == '-' <==> n < 0
    ensures ',' !in s
    ensures |s| >= 2 && s[0] != '-' ==> s[0] != '0'
    ensures |s| >= 3 && s[0] == '-' ==> s[1] != '0'
    ensures IsCanonicalIntText(s)
  {
    if n < 0 then "-" + NatDigits(-n) else NatDigits(n)
  }

  /** `strconv.Atoi` on unbounded integers: `None` for every text that is not `IsIntText`. */
  function Atoi(s: string): (r: Option<int>)
    ensures r.Some? <==> IsIntText(s)
    ensures r.Some? && s[0] != '-' ==> r.value >= 0
    ensures r.Some? && s[0] == '-' ==> r.value <= 0
  {
    if |s| >= 2 && s[0] == '-' && AllDigits(s[1..]) then Some(-(DigitsValue(s[1..]) as int))
    else if |s| >= 2 && s[0] == '+' && AllDigits(s[1..]) then Some(DigitsValue(s[1..]))
    else if |s| >= 1 && AllDigits(s) then Some(DigitsValue(s))
    else None
  }

  /** Round trip: `Atoi` reads back every number `Itoa` renders. */
  lemma AtoiItoa(n: int)
    ensures Atoi(Itoa(n)) == Some(n)
  {
  }

  /** `Itoa` renders distinct numbers as distinct texts. */
  lemma ItoaInjective(m: int, n: int)
    requires Itoa(m) == Itoa(n)
    ensures m == n
  {
    AtoiItoa(m);
    AtoiItoa(n);
  }

  /** A leading zero does not change the value of a digit string. */
  lemma {:induction false} DigitsLeadingZero(t: string)
    requires AllDigits(t)
    ensures AllDigits("0" + t) && DigitsValue("0" + t) == DigitsValue(t)
  {
    var z := "0" + t;
    assert AllDigits(z) by {
      forall i | 0 <= i < |z| ensures IsDigit(z[i]) {
        if i > 0 { assert z[i] == t[i - 1]; }
      }
    }
    if |t| > 0 {
      var front := t[..|t| - 1];
      assert z[..|z| - 1] == "0" + front;
      assert z[|z| - 1] == t[|t| - 1];
      DigitsLeadingZero(front);
    }
  }

  /** `Atoi` on digits without a sign. */
  lemma AtoiUnsigned(t: string)
    requires |t| >= 1 && AllDigits(t)
    ensures Atoi(t) == Some(DigitsValue(t) as int)
  {
    assert IsDigit(t[0]);
  }

  /** `Atoi` on a sign followed by digits. */
  lemma AtoiSigned(c: char, t: string)
    requires c == '+' || c == '-'
    requires |t| >= 1 && AllDigits(t)
    ensures Atoi([c] + t) == Some(if c == '-' then -(DigitsValue(t) as int) else DigitsValue(t) as int)
  {
    assert ([c] + t)[1..] == t;
  }

  /** A `+` sign does not change what `Atoi` reads. */
  lemma AtoiPlusSign(t: string)
    requires |t| >= 1 && AllDigits(t)
    ensures Atoi("+" + t) == Atoi(t)
  {
    AtoiUnsigned(t);
    AtoiSigned('+', t);
  }

  /** A `-` sign negates what `Atoi` reads. */
  lemma AtoiMinusSign(t: string)
    requires |t| >= 1 && AllDigits(t)
    ensures Atoi(t).Some? && Atoi("-" + t) == Some(-Atoi(t).value)
  {
    AtoiUnsigned(t);
    AtoiSigned('-', t);
  }

  /** An extra leading zero does not change what `Atoi` reads. */
  lemma AtoiLeadingZero(t: string)
    requires |t| >= 1 && AllDigits(t)
    ensures Atoi("0" + t) == Atoi(t)
  {
    AtoiUnsigned(t);
    DigitsLeadingZero(t);
    AtoiUnsigned("0" + t);
  }

  /** A digit string that does not start with `0` has a positive value. */
  lemma {:induction false} LeadingNonZero(s: string)
    requires |s| >= 1 && AllDigits(s) && s[0] != '0'
    ensures DigitsValue(s) >= 1
  {
    if |s| > 1 {
      LeadingNonZero(s[..|s| - 1]);
    }
  }

  /** Canonical digits are exactly what `NatDigits` renders for their value. */
  lemma {:induction false} NatDigitsOfValue(s: string)
    requires |s| >= 1 && AllDigits(s)
    requires |s| > 1 ==> s[0] != '0'
    ensures NatDigits(DigitsValue(s)) == s
  {
    if |s| == 1 {
      assert DigitChar(DigitValue(s[0])) == s[0];
    } else {
      var front := s[..|s| - 1];
      LeadingNonZero(front);
      NatDigitsOfValue(front);
      var v := DigitsValue(s);
      assert v / 10 == DigitsValue(front) && v % 10 == DigitValue(s[|s| - 1]);
      assert DigitChar(DigitValue(s[|s| - 1])) == s[|s| - 1];
      assert s == front + [s[|s| - 1]];
    }
  }

  /** Round trip the other way: `Itoa` renders back every canonical text `Atoi` reads. */
  lemma ItoaAtoi(s: string)
    requires IsCanonicalIntText(s)
    ensures Atoi(s).Some? && Itoa(Atoi(s).value) == s
  {
    if s[0] == '-' {
      var t := s[1..];
      LeadingNonZero(t);
      NatDigitsOfValue(t);
      assert s == "-" + t;
    } else {
      NatDigitsOfValue(s);
    }
  }
}
