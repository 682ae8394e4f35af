/** Decimal numerals, as string formatting writes them. */
module Decimal {
  function DigitChar(d: nat): char
    requires d < 10
  {
    '0' + d as char
  }

  predicate IsDigit(c: char) {
    '0' <= c <= '9'
  }

  function Digits(n: nat): (s: string)
    ensures s != [] && forall i :: 0 <= i < |s| ==> IsDigit(s[i])
  {
    if n < 10 then [DigitChar(n)] else Digits(n / 10) + [DigitChar(n % 10)]
  }

  function Value(s: string): int {
    if s == [] then 0 else Value(s[..|s| - 1]) * 10 + (s[|s| - 1] as int - '0' as int)
  }

  /** Zero-padding on the left up to a width. */
  function Padded(s: string, width: nat): (r: string)
    ensures |r| == if |s| < width then width else |s|
    ensures (forall i :: 0 <= i < |s| ==> IsDigit(s[i])) ==> forall i :: 0 <= i < |r| ==> IsDigit(r[i])
    decreases width - |s|
  {
    if |s| >= width then s else Padded("0" + s, width)
  }

  lemma {:induction false} ValueOfDigits(n: nat)
    ensures Value(Digits(n)) == n
  {
    if n >= 10 {
      ValueOfDigits(n / 10);
      assert Digits(n)[..|Digits(n)| - 1] == Digits(n / 10);
    }
  }

  lemma {:induction false} ValueOfLeadingZero(s: string)
    ensures Value("0" + s) == Value(s)
  {
    if s != [] {
      ValueOfLeadingZero(s[..|s| - 1]);
      assert ("0" + s)[..|s|] == "0" + s[..|s| - 1];
    }
  }

  lemma {:induction false} ValueOfPadded(s: string, width: nat)
    ensures Value(Padded(s, width)) == Value(s)
    decreases width - |s|
  {
    if |s| < width {
      ValueOfLeadingZero(s);
      ValueOfPadded("0" + s, width);
    }
  }

  /** Different numbers have different numerals. */
  lemma DigitsInjective(m: nat, n: nat)
    requires Digits(m) == Digits(n)
    ensures m == n
  {
    ValueOfDigits(m);
    ValueOfDigits(n);
  }

  /** Without a superfluous zero in front. */
  predicate Plain(s: string) {
    s != [] && (forall i :: 0 <= i < |s| ==> '0' <= s[i] <= '9') && (|s| > 1 ==> s[0] != '0')
  }

  /** The numeral of a number is the only plain one with its value. */
  lemma {:induction false} DigitsIff(n: nat, s: string)
    ensures s == Digits(n) <==> Plain(s) && Value(s) == n
    decreases n
  {
    DigitsPlain(n);
    ValueOfDigits(n);
    if Plain(s) && Value(s) == n {
      PlainUnique(s, n);
    }
  }

  lemma {:induction false} DigitsPlain(n: nat)
    ensures Plain(Digits(n)) && (n > 0 ==> Digits(n)[0] != '0')
  {
    if n >= 10 {
      DigitsPlain(n / 10);
    }
  }

  lemma {:induction false} PlainUnique(s: string, n: nat)
    requires Plain(s) && Value(s) == n
    ensures s == Digits(n)
    decreases |s|
  {
    var front, d := s[..|s| - 1], s[|s| - 1] as int - '0' as int;
    assert s == front + [s[|s| - 1]] && s[|s| - 1] == DigitChar(d);
    if |s| == 1 {
      assert Value(front) == 0;
    } else {
      ValuePositive(front);
      PlainUnique(front, Value(front));
    }
  }

  lemma {:induction false} ValuePositive(s: string)
    requires Plain(s) && s[0] != '0'
    ensures Value(s) > 0
  {
    if |s| > 1 {
      ValuePositive(s[..|s| - 1]);
    }
  }

  /** Padding changes nothing but zeros in front, and none of a numeral as wide as asked for. */
  lemma {:induction false} PaddedIs(s: string, width: nat)
    ensures |Padded(s, width)| >= |s| && Padded(s, width)[|Padded(s, width)| - |s|..] == s
    ensures forall i :: 0 <= i < |Padded(s, width)| - |s| ==> Padded(s, width)[i] == '0'
    decreases width - |s|
  {
    if |s| < width {
      var r := Padded(s, width);
      PaddedIs("0" + s, width);
      var k := |r| - |s|;
      assert r[k - 1..] == "0" + s;
      assert r[k..] == r[k - 1..][1..] == s;
      assert r[k - 1] == r[k - 1..][0];
    }
  }

  function PowerOfTen(k: nat): nat {
    if k == 0 then 1 else 10 * PowerOfTen(k - 1)
  }

  lemma {:induction false} DigitsLength(n: nat, k: nat)
    requires 0 < k && n < PowerOfTen(k)
    ensures |Digits(n)| <= k
  {
    if n >= 10 {
      DigitsLength(n / 10, k - 1);
    }
  }

  lemma {:induction false} DigitsWide(n: nat, k: nat)
    requires n >= PowerOfTen(k)
    ensures |Digits(n)| > k
  {
    if k > 0 {
      DigitsWide(n / 10, k - 1);
    }
  }
}
