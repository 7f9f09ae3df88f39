/** Decimal digit strings, as %d prints them. */
module Numbers {
  import opened Text

  function Digits(n: nat): string
  {
    (if n < 10 then "" else Digits(n / 10)) + [('0' as int + n % 10) as char]
  }

  function Itoa(n: int): string
  {
    if n < 0 then "-" + Digits(-n) else Digits(n)
  }

  lemma {:induction false} DigitsOnly(n: nat)
    ensures Digits(n) != "" && forall c :: c in Digits(n) ==> IsDigit(c)
  {
    if n >= 10 { DigitsOnly(n / 10); }
  }

  lemma ItoaShape(n: int)
    ensures Itoa(n) != "" && '|' !in Itoa(n) && (Itoa(n)[0] == '-' <==> n < 0)
  {
    DigitsOnly(if n < 0 then -n else n);
    if n >= 0 { assert Digits(n)[0] in Digits(n); }
  }

  lemma {:induction false} DigitsInjective(m: nat, n: nat)
    requires Digits(m) == Digits(n)
    ensures m == n
    decreases m
  {
    var d, e := Digits(m), Digits(n);
    DigitsOnly(m / 10);
    DigitsOnly(n / 10);
    assert d[|d| - 1] == e[|e| - 1];
    assert d[..|d| - 1] == e[..|e| - 1];
    assert d[..|d| - 1] == if m < 10 then "" else Digits(m / 10);
    assert e[..|e| - 1] == if n < 10 then "" else Digits(n / 10);
    if m >= 10 && n >= 10 {
      DigitsInjective(m / 10, n / 10);
    }
  }

  lemma ItoaInjective(m: int, n: int)
    requires Itoa(m) == Itoa(n)
    ensures m == n
  {
    ItoaShape(m);
    ItoaShape(n);
    if m < 0 {
      assert Itoa(m)[1..] == Digits(-m) && Itoa(n)[1..] == Digits(-n);
      DigitsInjective(-m, -n);
    } else {
      DigitsInjective(m, n);
    }
  }
}
