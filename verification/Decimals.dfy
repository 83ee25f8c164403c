/** Decimal strings of integers, as std::to_string writes them. */
module Decimals {
  import opened Arithmetic

  function Digits(n: nat): (s: string)
    ensures |s| >= 1
    ensures forall i :: 0 <= i < |s| ==> '0' <= s[i] <= '9'
  {
    var last := [('0' as int + n % 10) as char];
    if n < 10 then last else Digits(n / 10) + last
  }

  function ToString(n: int): string {
    if n < 0 then "-" + Digits(-n) else Digits(n)
  }

  function Pow10(n: nat): (p: nat)
    ensures p >= 1
  {
    if n == 0 then 1 else 10 * Pow10(n - 1)
  }

  /** The i-th character from the right is the i-th decimal digit. */
  lemma {:induction false} DigitsPlaces(n: nat, i: nat)
    requires i < |Digits(n)|
    ensures Digits(n)[|Digits(n)| - 1 - i] as int - '0' as int == n / Pow10(i) % 10
    decreases i
  {
    var s := Digits(n);
    if i > 0 {
      assert s == Digits(n / 10) + [s[|s| - 1]];
      DigitsPlaces(n / 10, i - 1);
      ScaledQuotient(n / 10, n % 10, 10, Pow10(i - 1));
    }
  }

  /** There are as many characters as are needed: none is missing, and none is a leading zero. */
  lemma {:induction false} DigitsLength(n: nat)
    ensures n < Pow10(|Digits(n)|)
    ensures |Digits(n)| > 1 ==> Digits(n)[0] != '0' && Pow10(|Digits(n)| - 1) <= n
  {
    if n >= 10 {
      DigitsLength(n / 10);
      assert Digits(n)[0] == Digits(n / 10)[0];
    }
  }

  /** The decimal notation: a sign for negative numbers, then every digit in its place without leading zeros. */
  lemma ToStringMeaning(n: int, i: nat)
    ensures |ToString(n)| >= 1
    ensures ToString(n)[0] == '-' <==> n < 0
    ensures var s, m := if n < 0 then ToString(n)[1..] else ToString(n), if n < 0 then -n else n;
            && |s| >= 1
            && m < Pow10(|s|)
            && (|s| > 1 ==> s[0] != '0')
            && (i < |s| ==> s[|s| - 1 - i] as int - '0' as int == m / Pow10(i) % 10)
  {
    var m := if n < 0 then -n else n;
    DigitsLength(m);
    if i < |Digits(m)| {
      DigitsPlaces(m, i);
    }
    assert n < 0 ==> ToString(n)[1..] == Digits(m);
  }

  lemma {:induction false} DigitsInjective(m: nat, n: nat)
    requires Digits(m) == Digits(n)
    ensures m == n
  {
    var s, t := Digits(m), Digits(n);
    assert s[|s| - 1] == ('0' as int + m % 10) as char;
    assert t[|t| - 1] == ('0' as int + n % 10) as char;
    assert m % 10 == n % 10;
    assert m < 10 <==> |s| == 1;
    assert n < 10 <==> |t| == 1;
    if m >= 10 {
      assert s[..|s| - 1] == Digits(m / 10) && t[..|t| - 1] == Digits(n / 10);
      DigitsInjective(m / 10, n / 10);
    }
  }

  lemma SignOfString(n: int)
    ensures n < 0 ==> ToString(n)[0] == '-' && ToString(n)[1..] == Digits(-n)
    ensures n >= 0 ==> ToString(n) == Digits(n) && Digits(n)[0] != '-'
  {
  }

  /** Different integers have different strings. */
  lemma ToStringInjective(m: int, n: int)
    ensures ToString(m) == ToString(n) <==> m == n
  {
    hide Digits, ToString;
    SignOfString(m);
    SignOfString(n);
    if ToString(m) == ToString(n) {
      if m < 0 {
        DigitsInjective(-m, -n);
      } else {
        DigitsInjective(m, n);
      }
    }
  }
}
