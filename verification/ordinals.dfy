/**
 `printNthSuffixFor`: the decimal text of `n` followed by its English ordinal
 suffix, chosen from Java's `n % 10` and `n % 100`. Java's `%` keeps the
 dividend's sign, so for a negative `n` both are at most zero and every
 negative number gets "th".
 */
module Ordinals {
  import opened JavaSemantics
  import opened Decimal

  /** The suffix `printNthSuffixFor` appends, chosen from the ones digit and the last
      two digits as Java's `%` computes them. */
  function SuffixFor(n: int): (suffix: string)
    ensures |suffix| == 2
    ensures suffix in {"st", "nd", "rd", "th"}
    ensures n < 0 ==> suffix == "th"
  {
    var onesDigit := Rem(n, 10);
    var tensDigit := Rem(n, 100);
    if tensDigit > 10 && tensDigit < 14 then "th"
    else if onesDigit == 1 then "st"
    else if onesDigit == 2 then "nd"
    else if onesDigit == 3 then "rd"
    else "th"
  }

  /** `printNthSuffixFor(n)`: `n + suffix`, with `Integer.toString` for `n`. */
  function PrintNthSuffixFor(n: int): (s: string)
    ensures |s| == |IntToString(n)| + 2
    ensures s[..|IntToString(n)|] == IntToString(n)
    ensures s[|IntToString(n)|..] in {"st", "nd", "rd", "th"}
    ensures n < 0 ==> s[|IntToString(n)|..] == "th"
  {
    var text := IntToString(n);
    var suffix := SuffixFor(n);
    assert (text + suffix)[..|text|] == text && (text + suffix)[|text|..] == suffix;
    text + suffix
  }

  /** The English rule read off the decimal text of a number: "th" when the
      tens digit is 1 (eleventh, twelfth, thirteenth, and the other teens),
      otherwise by the last digit. */
  function EnglishSuffix(text: string): string
    requires |text| >= 1 && AllDigits(text)
  {
    if |text| >= 2 && text[|text| - 2] == '1' then "th"
    else if text[|text| - 1] == '1' then "st"
    else if text[|text| - 1] == '2' then "nd"
    else if text[|text| - 1] == '3' then "rd"
    else "th"
  }

  /** For every non-negative `n`, the arithmetic of `printNthSuffixFor` on
      `n % 10` and `n % 100` gives the suffix the English rule reads off the digits. */
  lemma SuffixIsEnglish(n: nat)
    ensures PrintNthSuffixFor(n) == NatToString(n) + EnglishSuffix(NatToString(n))
  {
    var text := NatToString(n);
    QuotRemNonNegative(n, 10);
    QuotRemNonNegative(n, 100);
    var ones := n % 10;
    var tens := n / 10 % 10;
    assert n % 100 == tens * 10 + ones by { LastTwoDigits(n); }
    assert text[|text| - 1] == DigitChar(ones);
    DigitCharInjective(ones, 1);
    DigitCharInjective(ones, 2);
    DigitCharInjective(ones, 3);
    if n >= 10 {
      assert text[|text| - 2] == DigitChar(tens);
      DigitCharInjective(tens, 1);
    } else {
      assert n % 100 == n;
    }
  }

  /** `n % 100` is made of the last two decimal digits. */
  lemma LastTwoDigits(n: nat)
    ensures n % 100 == (n / 10 % 10) * 10 + n % 10
  {
    var a := n / 10;
    assert n == a * 10 + n % 10;
    assert a == (a / 10) * 10 + a % 10;
    assert n == (a / 10) * 100 + ((a % 10) * 10 + n % 10);
    var r := (a % 10) * 10 + n % 10;
    assert 0 <= r < 100;
    DivModUnique(n, a / 10, r);
  }

  lemma DivModUnique(n: nat, q: int, r: int)
    requires 0 <= r < 100 && n == q * 100 + r
    ensures n % 100 == r
  {
    var q' := n / 100;
    var r' := n % 100;
    assert n == q' * 100 + r';
    assert (q - q') * 100 == r' - r;
  }

  lemma DigitCharInjective(d: nat, e: nat)
    requires d < 10 && e < 10
    ensures DigitChar(d) == DigitChar(e) <==> d == e
  {
    assert DigitValue(DigitChar(d)) == d && DigitValue(DigitChar(e)) == e;
  }
}
