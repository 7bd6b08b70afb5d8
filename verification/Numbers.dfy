/** Numbers as text: Python's `str(n)` and `int(s)` for digits. */
module Numbers {
  import opened Seqs
  import opened Strings

  function Digit(n: nat): char
    requires n < 10
  {
    ('0' as int + n) as char
  }

  /** `str(n)` */
  function Decimal(n: nat): (s: string)
    ensures s != "" && forall i :: 0 <= i < |s| ==> '0' <= s[i] <= '9'
  {
    if n < 10 then [Digit(n)] else Decimal(n / 10) + [Digit(n % 10)]
  }

  predicate Digits(s: string) {
    s != "" && forall i :: 0 <= i < |s| ==> IsDigit(s[i])
  }

  /** `int(s)` */
  function ToNat(s: string): nat
    requires forall i :: 0 <= i < |s| ==> IsDigit(s[i])
  {
    if s == "" then 0
    else
      assert IsDigit(s[|s| - 1]);
      ToNat(s[..|s| - 1]) * 10 + (s[|s| - 1] as int - '0' as int)
  }

  function Pow10(n: nat): nat {
    if n == 0 then 1 else 10 * Pow10(n - 1)
  }

  /** What each digit is worth. */
  lemma DigitValues()
    ensures ToNat("0") == 0 && ToNat("1") == 1 && ToNat("2") == 2 && ToNat("3") == 3 && ToNat("4") == 4
    ensures ToNat("5") == 5 && ToNat("6") == 6 && ToNat("7") == 7 && ToNat("8") == 8 && ToNat("9") == 9
  {
    OneDigit('0');
    OneDigit('1');
    OneDigit('2');
    OneDigit('3');
    OneDigit('4');
    OneDigit('5');
    OneDigit('6');
    OneDigit('7');
    OneDigit('8');
    OneDigit('9');
  }

  lemma OneDigit(c: char)
    requires IsDigit(c)
    ensures ToNat([c]) == c as int - '0' as int
  {
    assert [c][..0] == "";
  }

  /** Digits are positional: those in front are worth a power of ten more. */
  lemma {:induction false} ToNatAppend(s: string, t: string)
    requires forall i :: 0 <= i < |s| ==> IsDigit(s[i])
    requires forall i :: 0 <= i < |t| ==> IsDigit(t[i])
    ensures ToNat(s + t) == ToNat(s) * Pow10(|t|) + ToNat(t)
  {
    if t == "" {
      AppendNil(s);
    } else {
      var init := t[..|t| - 1];
      InitOfAppend(s, t);
      ToNatAppend(s, init);
      TenTimes(ToNat(s), Pow10(|init|), ToNat(init));
    }
  }

  lemma TenTimes(a: nat, p: nat, b: nat)
    ensures (a * p + b) * 10 == a * (10 * p) + b * 10
  {
  }

  /** `int(str(n)) == n`, and `str` writes no leading zero. */
  lemma {:induction false} ToNatOfDecimal(n: nat)
    ensures Digits(Decimal(n)) && ToNat(Decimal(n)) == n
    ensures n > 0 ==> Decimal(n)[0] != '0'
  {
    if n < 10 {
      OneDigit(Digit(n));
    } else {
      ToNatOfDecimal(n / 10);
      assert Decimal(n)[..|Decimal(n)| - 1] == Decimal(n / 10);
      assert Decimal(n)[0] == Decimal(n / 10)[0];
    }
  }

  /** Different numbers are written differently. */
  lemma DecimalInjective(a: nat, b: nat)
    requires Decimal(a) == Decimal(b)
    ensures a == b
  {
    ToNatOfDecimal(a);
    ToNatOfDecimal(b);
  }
}
