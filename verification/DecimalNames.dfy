/** Device indices as decimal text, appended to and stripped from alphabetic names. */
module DecimalNames {

  predicate IsAlpha(c: char) { 'a' <= c <= 'z' || 'A' <= c <= 'Z' }

  predicate IsDigit(c: char) { '0' <= c <= '9' }

  predicate Alphabetic(s: string) { forall i | 0 <= i < |s| :: IsAlpha(s[i]) }

  function Digit(d: nat): (c: char)
    requires d < 10
    ensures IsDigit(c)
  {
    '0' + d as char
  }

  /** std::to_string of a non-negative number. */
  function ToString(n: nat): (s: string)
    ensures |s| >= 1 && forall i | 0 <= i < |s| :: IsDigit(s[i])
  {
    if n < 10 then [Digit(n)] else ToString(n / 10) + [Digit(n % 10)]
  }

  /** No zero in front, and the digits of a number below a thousand one by one. */
  lemma ToStringDigits(n: nat)
    requires n < 1000
    ensures ToString(n) ==
            if n < 10 then ["0123456789"[n]]
            else if n < 100 then ["0123456789"[n / 10], "0123456789"[n % 10]]
            else ["0123456789"[n / 100], "0123456789"[n / 10 % 10], "0123456789"[n % 10]]
  {
    hide ToString, Digit;
    DigitIs(n % 10);
    if n < 10 {
      OneDigit(n);
    } else {
      DigitIs(n / 10 % 10);
      LastDigit(n);
      if n < 100 {
        OneDigit(n / 10);
      } else {
        DigitIs(n / 100);
        LastDigit(n / 10);
        OneDigit(n / 100);
        assert n / 10 / 10 == n / 100;
      }
    }
  }

  lemma OneDigit(n: nat)
    requires n < 10
    ensures ToString(n) == [Digit(n)]
  {
  }

  lemma LastDigit(n: nat)
    requires n >= 10
    ensures ToString(n) == ToString(n / 10) + [Digit(n % 10)]
  {
  }

  lemma DigitIs(d: nat)
    requires d < 10
    ensures Digit(d) == "0123456789"[d]
  {
    assert "0123456789"[d] == '0' + d as char;
  }

  /** What the digits say, read from the left. */
  function Value(s: string): int
    requires forall i | 0 <= i < |s| :: IsDigit(s[i])
  {
    if s == "" then 0 else 10 * Value(s[..|s| - 1]) + (s[|s| - 1] as int - '0' as int)
  }

  lemma {:induction false} ToStringReadsBack(n: nat)
    ensures Value(ToString(n)) == n
  {
    if n < 10 {
      assert ToString(n)[..0] == "";
    } else {
      ToStringReadsBack(n / 10);
      assert ToString(n)[..|ToString(n)| - 1] == ToString(n / 10);
    }
  }

  /** erase(remove_if(not isalpha)) */
  function AlphaOnly(s: string): string {
    if s == "" then "" else
    (if IsAlpha(s[0]) then [s[0]] else "") + AlphaOnly(s[1..])
  }

  lemma {:induction false} AlphaOnlyOfDigits(s: string)
    requires forall i | 0 <= i < |s| :: IsDigit(s[i])
    ensures AlphaOnly(s) == ""
  {
    if s != "" {
      AlphaOnlyOfDigits(s[1..]);
    }
  }

  /** Stripping a numbered name gives back the name. */
  lemma {:induction false} AlphaOnlyStrips(name: string, n: nat)
    requires Alphabetic(name)
    ensures AlphaOnly(name + ToString(n)) == name
    decreases |name|
  {
    if name == "" {
      assert name + ToString(n) == ToString(n);
      AlphaOnlyOfDigits(ToString(n));
    } else {
      AlphaOnlyStrips(name[1..], n);
      assert (name + ToString(n))[1..] == name[1..] + ToString(n);
      assert name == [name[0]] + name[1..];
    }
  }

  lemma {:induction false} AlphaOnlyKeepsNames(name: string)
    requires Alphabetic(name)
    ensures AlphaOnly(name) == name
  {
    if name != "" {
      AlphaOnlyKeepsNames(name[1..]);
      assert name == [name[0]] + name[1..];
    }
  }

  /** An alphabetic name with a number behind it determines both. */
  lemma NumberedInjective(a: string, m: nat, b: string, n: nat)
    requires Alphabetic(a) && Alphabetic(b)
    requires a + ToString(m) == b + ToString(n)
    ensures a == b && m == n
  {
    AlphaOnlyStrips(a, m);
    AlphaOnlyStrips(b, n);
    assert ToString(m) == (a + ToString(m))[|a|..];
    assert ToString(n) == (b + ToString(n))[|b|..];
    ToStringReadsBack(m);
    ToStringReadsBack(n);
  }

  /** An alphabetic name is not a numbered one. */
  lemma NumberedIsNotAlphabetic(a: string, m: nat, b: string)
    requires Alphabetic(a) && Alphabetic(b)
    ensures a + ToString(m) != b
  {
    AlphaOnlyStrips(a, m);
    AlphaOnlyKeepsNames(b);
    assert |a + ToString(m)| > |a|;
  }
}
