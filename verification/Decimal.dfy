/** Reading spreadsheet amounts: either locale's number format, normalised and converted to cents. */
module Decimal {
  import opened Text
  import opened Numbers
  import opened Money

  // ----- string operations

  /** strings.ReplaceAll of one character by nothing. */
  function Remove(s: string, c: char): string
  {
    if s == "" then "" else (if s[0] == c then "" else [s[0]]) + Remove(s[1..], c)
  }

  /** strings.Replace of the first occurrence of one character. */
  function ReplaceFirst(s: string, c: char, with: char): string
  {
    if s == "" then "" else if s[0] == c then [with] + s[1..] else [s[0]] + ReplaceFirst(s[1..], c, with)
  }

  function LastBelow(s: string, c: char, n: nat): (i: int)
    requires n <= |s|
    ensures -1 <= i < n
    ensures i >= 0 ==> s[i] == c
    ensures forall k :: i < k < n ==> s[k] != c
  {
    if n == 0 then -1 else if s[n - 1] == c then n - 1 else LastBelow(s, c, n - 1)
  }

  /** strings.LastIndex of one character. */
  function LastIndexOf(s: string, c: char): int
  {
    LastBelow(s, c, |s|)
  }

  /** From US format (1,234.56) or German format (1.234,56) to a plain decimal (1234.56). */
  function NormalizeDecimal(val: string): string
  {
    if '.' in val && ',' in val then
      if LastIndexOf(val, ',') > LastIndexOf(val, '.') then ReplaceFirst(Remove(val, '.'), ',', '.')
      else Remove(val, ',')
    else if ',' in val then
      if |val[LastIndexOf(val, ',') + 1..]| <= 2 then ReplaceFirst(val, ',', '.') else Remove(val, ',')
    else val
  }

  lemma {:induction false} RemoveConcat(a: string, b: string, c: char)
    ensures Remove(a + b, c) == Remove(a, c) + Remove(b, c)
  {
    if a == "" {
      assert a + b == b;
    } else {
      assert (a + b)[1..] == a[1..] + b;
      RemoveConcat(a[1..], b, c);
    }
  }

  lemma {:induction false} RemoveAbsent(s: string, c: char)
    requires c !in s
    ensures Remove(s, c) == s
  {
    if s != "" { RemoveAbsent(s[1..], c); }
  }

  lemma {:induction false} ReplaceAt(a: string, b: string, c: char, with: char)
    requires c !in a
    ensures ReplaceFirst(a + [c] + b, c, with) == a + [with] + b
  {
    var s := a + [c] + b;
    if a == "" {
      assert s[1..] == b;
    } else {
      assert s[1..] == a[1..] + [c] + b;
      ReplaceAt(a[1..], b, c, with);
    }
  }

  // ----- the two printers

  datatype Locale = German | US

  function GroupSep(l: Locale): char { if l.German? then '.' else ',' }

  function DecimalSep(l: Locale): char { if l.German? then ',' else '.' }

  /** Digits in groups of three from the right. */
  function GroupDigits(d: string, sep: char): string
  {
    if |d| <= 3 then d else GroupDigits(d[..|d| - 3], sep) + [sep] + d[|d| - 3..]
  }

  function Sign(c: int): string { if c < 0 then "-" else "" }

  function Abs(c: int): nat { if c < 0 then -c else c }

  function TwoDigits(n: nat): string
    requires n < 100
  {
    [('0' as int + n / 10) as char, ('0' as int + n % 10) as char]
  }

  /** The integer part of an amount. */
  function Whole(sep: char, grouped: bool, n: nat): string
  {
    if grouped then GroupDigits(Digits(n), sep) else Digits(n)
  }

  /** An amount of c cents as a locale prints it. */
  function Printed(l: Locale, grouped: bool, c: int): string
  {
    Sign(c) + Whole(GroupSep(l), grouped, Abs(c) / 100) + [DecimalSep(l)] + TwoDigits(Abs(c) % 100)
  }

  /** An amount of c cents as a plain decimal. */
  function Plain(c: int): string
  {
    Sign(c) + Digits(Abs(c) / 100) + "." + TwoDigits(Abs(c) % 100)
  }

  lemma RemoveOnly(c: char)
    ensures Remove([c], c) == ""
  {
  }

  /** Grouping adds nothing but separators, and none to three digits or fewer. */
  lemma {:induction false} GroupShape(d: string, sep: char)
    requires forall c :: c in d ==> IsDigit(c)
    requires !IsDigit(sep)
    ensures forall c :: c in GroupDigits(d, sep) ==> IsDigit(c) || c == sep
    ensures sep in GroupDigits(d, sep) <==> |d| > 3
    decreases |d|
  {
    if |d| > 3 {
      var head, tail := d[..|d| - 3], d[|d| - 3..];
      assert forall c :: c in tail ==> c in d;
      assert forall c :: c in head ==> c in d;
      GroupShape(head, sep);
    }
  }

  /** Removing the separators undoes the grouping. */
  lemma {:induction false} GroupUndone(d: string, sep: char)
    requires sep !in d
    ensures Remove(GroupDigits(d, sep), sep) == d
    decreases |d|
  {
    if |d| <= 3 {
      RemoveAbsent(d, sep);
    } else {
      var head, tail := d[..|d| - 3], d[|d| - 3..];
      var front := GroupDigits(head, sep);
      assert d == head + tail;
      assert GroupDigits(d, sep) == front + [sep] + tail;
      hide GroupDigits;
      GroupUndone(head, sep);
      RemoveOnly(sep);
      hide Remove;
      RemoveConcat(front + [sep], tail, sep);
      RemoveConcat(front, [sep], sep);
      RemoveAbsent(tail, sep);
    }
  }

  lemma GroupRemoved(d: string, sep: char)
    requires forall c :: c in d ==> IsDigit(c)
    requires !IsDigit(sep)
    ensures Remove(GroupDigits(d, sep), sep) == d
    ensures forall c :: c in GroupDigits(d, sep) ==> IsDigit(c) || c == sep
    ensures sep in GroupDigits(d, sep) <==> |d| > 3
  {
    GroupShape(d, sep);
    GroupUndone(d, sep);
  }

  lemma WholeRemoved(sep: char, grouped: bool, n: nat, sign: string)
    requires sep == '.' || sep == ','
    requires sign == "" || sign == "-"
    ensures Remove(sign + Whole(sep, grouped, n), sep) == sign + Digits(n)
    ensures forall c :: c in Whole(sep, grouped, n) ==> IsDigit(c) || c == sep
    ensures sep !in Whole(sep, grouped, n) ==> Whole(sep, grouped, n) == Digits(n)
  {
    DigitsOnly(n);
    GroupRemoved(Digits(n), sep);
    RemoveConcat(sign, Whole(sep, grouped, n), sep);
    RemoveAbsent(sign, sep);
    RemoveAbsent(Digits(n), sep);
    if sep !in Whole(sep, grouped, n) { RemoveAbsent(Whole(sep, grouped, n), sep); }
  }

  lemma LastBeforeTail(body: string, dec: char, tt: string)
    requires dec !in tt
    ensures LastIndexOf(body + [dec] + tt, dec) == |body|
  {
    var s := body + [dec] + tt;
    assert s[|body|] == dec;
    assert forall k :: |body| < k < |s| ==> s[k] == tt[k - |body| - 1];
  }

  lemma SepInside(body: string, sep: char, dec: char, tt: string)
    requires sep in body && sep != dec && sep !in tt
    ensures var s := body + [dec] + tt; sep in s && LastIndexOf(s, sep) < |body|
  {
    var s := body + [dec] + tt;
    var k :| 0 <= k < |body| && body[k] == sep;
    assert s[k] == sep;
    assert s[|body|] == dec;
    assert forall i :: |body| < i < |s| ==> s[i] == tt[i - |body| - 1];
  }

  /** Strip the dots, turn the comma into a dot. */
  lemma NormalizeGerman(body: string, plain: string, tt: string)
    requires ',' !in body && ',' !in plain && ',' !in tt && '.' !in tt && |tt| == 2
    requires Remove(body, '.') == plain && ('.' !in body ==> body == plain)
    ensures NormalizeDecimal(body + "," + tt) == plain + "." + tt
  {
    hide Remove, ReplaceFirst;
    var s := body + "," + tt;
    LastBeforeTail(body, ',', tt);
    assert s[|body|] == ',';
    ReplaceAt(plain, tt, ',', '.');
    if '.' in body {
      SepInside(body, '.', ',', tt);
      RemoveTail(body, '.', ',', tt);
    } else {
      assert '.' !in s;
      assert s[|body| + 1..] == tt;
    }
  }

  /** Strip the commas. */
  lemma NormalizeUS(body: string, plain: string, tt: string)
    requires '.' !in body && ',' !in tt && '.' !in tt
    requires Remove(body, ',') == plain && (',' !in body ==> body == plain)
    ensures NormalizeDecimal(body + "." + tt) == plain + "." + tt
  {
    hide Remove, ReplaceFirst;
    var s := body + "." + tt;
    LastBeforeTail(body, '.', tt);
    assert s[|body|] == '.';
    if ',' in body {
      SepInside(body, ',', '.', tt);
      RemoveTail(body, ',', '.', tt);
    } else {
      assert ',' !in s;
    }
  }

  lemma RemoveTail(body: string, sep: char, dec: char, tt: string)
    requires sep != dec && sep !in tt
    ensures Remove(body + [dec] + tt, sep) == Remove(body, sep) + [dec] + tt
  {
    RemoveConcat(body + [dec], tt, sep);
    RemoveConcat(body, [dec], sep);
    RemoveAbsent([dec], sep);
    RemoveAbsent(tt, sep);
  }

  /** Without a comma nothing changes; a single comma is a decimal point before up to two characters. */
  lemma PlainComma(a: string, b: string)
    requires ',' !in a && ',' !in b && '.' !in a && '.' !in b
    ensures NormalizeDecimal(a) == a && NormalizeDecimal(a + "." + b) == a + "." + b
    ensures NormalizeDecimal(a + "," + b) == if |b| <= 2 then a + "." + b else a + b
  {
    hide Remove, ReplaceFirst;
    LastBeforeTail(a, ',', b);
    assert (a + "," + b)[|a|] == ',' && (a + "," + b)[|a| + 1..] == b;
    assert (a + "." + b)[|a|] == '.';
    ReplaceAt(a, b, ',', '.');
    RemoveConcat(a + ",", b, ',');
    RemoveConcat(a, ",", ',');
    RemoveOnly(',');
    RemoveAbsent(a, ',');
    RemoveAbsent(b, ',');
  }

  /** normalizeDecimal undoes both locale printers, grouped or not, for every signed amount of cents. */
  lemma NormalizeUndoesPrinters(l: Locale, grouped: bool, c: int)
    ensures NormalizeDecimal(Printed(l, grouped, c)) == Plain(c)
  {
    hide NormalizeDecimal, Remove, Whole;
    var sep, dec := GroupSep(l), DecimalSep(l);
    var body, tt := Sign(c) + Whole(sep, grouped, Abs(c) / 100), TwoDigits(Abs(c) % 100);
    var plain := Sign(c) + Digits(Abs(c) / 100);
    WholeRemoved(sep, grouped, Abs(c) / 100, Sign(c));
    DigitsOnly(Abs(c) / 100);
    assert sep !in body ==> sep !in Whole(sep, grouped, Abs(c) / 100);
    if l.German? {
      NormalizeGerman(body, plain, tt);
    } else {
      NormalizeUS(body, plain, tt);
    }
  }

  /** The last separator is followed by three digits. */
  lemma GroupTail(d: string, sep: char)
    requires |d| > 3 && sep !in d
    ensures |GroupDigits(d, sep)[LastIndexOf(GroupDigits(d, sep), sep) + 1..]| == 3
  {
    var head, tail := GroupDigits(d[..|d| - 3], sep), d[|d| - 3..];
    assert forall c :: c in tail ==> c in d;
    LastBeforeTail(head, sep, tail);
  }

  /** A whole amount without decimals, grouped the US way, normalises to its digits. */
  lemma WholeUSRead(n: nat)
    ensures NormalizeDecimal(GroupDigits(Digits(n), ',')) == Digits(n)
  {
    hide Remove, ReplaceFirst, Digits;
    var d := Digits(n);
    DigitsOnly(n);
    GroupRemoved(d, ',');
    assert '.' !in GroupDigits(d, ',');
    if |d| > 3 {
      GroupTail(d, ',');
    }
  }

  /** Grouped the German way it does so exactly below one thousand: from there on it is read as a decimal. */
  lemma WholeGermanReadIff(n: nat)
    ensures NormalizeDecimal(GroupDigits(Digits(n), '.')) == Digits(n) <==> n < 1000
  {
    DigitsOnly(n);
    GroupRemoved(Digits(n), '.');
    DigitsLength(n);
  }

  lemma PointSurvives()
    ensures GroupDigits("1234", '.') == "1.234" && NormalizeDecimal("1.234") == "1.234"
  {
    hide ReplaceFirst, Remove;
    assert GroupDigits("1", '.') == "1";
    assert GroupDigits("1234", '.') == GroupDigits("1", '.') + "." + "234";
    assert ',' !in "1.234";
  }

  /** For example 1.234, which stands for 1234 and is read as one and a fraction. */
  lemma ThousandsMisread()
    ensures GroupDigits(Digits(1234), '.') == "1.234" && NormalizeDecimal("1.234") == "1.234" != Digits(1234)
  {
    hide GroupDigits, NormalizeDecimal, ReplaceFirst, Remove;
    assert Digits(1) == "1" && Digits(12) == "12" && Digits(123) == "123" && Digits(1234) == "1234";
    PointSurvives();
  }

  lemma DigitsLength(n: nat)
    ensures |Digits(n)| <= 3 <==> n < 1000
  {
    assert n >= 10 ==> Digits(n) == Digits(n / 10) + Digits(n)[|Digits(n / 10)|..];
    assert |Digits(n)| == if n < 10 then 1 else |Digits(n / 10)| + 1;
    assert |Digits(n / 10)| == if n / 10 < 10 then 1 else |Digits(n / 10 / 10)| + 1;
    assert |Digits(n / 10 / 10)| == if n / 10 / 10 < 10 then 1 else |Digits(n / 10 / 10 / 10)| + 1;
    DigitsOnly(n / 10 / 10 / 10);
  }

  // ----- cells

  /** strconv.ParseFloat: a value, possibly infinite or no number, or an error. */
  type FloatParser = string -> Option<Float>

  /** cellAsCents on a trimmed cell: blank reads as 0, out of range or unreadable as an error. */
  function CentsOf(parse: FloatParser, text: string): Option<int>
  {
    if text == "" then Some(0)
    else
      match parse(NormalizeDecimal(text))
      case None => None
      case Some(x) => if OutOfRange(RoundedCents(x)) then None else Some(ToInt(RoundedCents(x)))
  }

  /** A blank cell is 0, a number in range its nearest cent; nothing else but NaN is read. */
  lemma CentsOfIff(parse: FloatParser, text: string, cents: int)
    ensures CentsOf(parse, text) == Some(cents) <==>
              if text == "" then cents == 0
              else
                match parse(NormalizeDecimal(text))
                case Some(Finite(v)) => InRange(v) && Nearest(v, cents)
                case Some(NotANumber) => cents == -0x8000_0000_0000_0000
                case _ => false
  {
    hide NormalizeDecimal;
    if text != "" && parse(NormalizeDecimal(text)).Some? {
      var x := parse(NormalizeDecimal(text)).value;
      OutOfRangeIff(x);
      if !OutOfRange(RoundedCents(x)) { RangeCheckIff(x); }
      if x.Finite? { RoundIsNearest(x.value, cents); }
    }
  }

  predicate ReadsNaN(parse: FloatParser, text: string)
  {
    text != "" && parse(NormalizeDecimal(text)) == Some(NotANumber)
  }

  /** What is read as cents fits 32 bits exactly when the text does not parse as NaN, which no check refuses. */
  lemma CentsFitIff(parse: FloatParser, text: string)
    ensures CentsOf(parse, text).Some? ==> (InInt32(CentsOf(parse, text).value) <==> !ReadsNaN(parse, text))
    ensures ReadsNaN(parse, text) ==> CentsOf(parse, text) == Some(INT_OF_NAN)
  {
    hide NormalizeDecimal;
    if CentsOf(parse, text).Some? && text != "" { RangeCheckIff(parse(NormalizeDecimal(text)).value); }
  }

  /** For example the cell "NaN". */
  lemma NanCell(parse: FloatParser)
    requires parse("NaN") == Some(NotANumber)
    ensures CentsOf(parse, "NaN") == Some(INT_OF_NAN) && !InInt32(INT_OF_NAN)
  {
    assert '.' !in "NaN" && ',' !in "NaN";
  }

  /** Every amount that fits is read back to the cent from either locale. */
  lemma AmountsReadBack(parse: FloatParser, l: Locale, grouped: bool, c: int)
    requires InInt32(c) && parse(Plain(c)) == Some(Finite(c as real / 100.0))
    ensures CentsOf(parse, Printed(l, grouped, c)) == Some(c)
  {
    NormalizeUndoesPrinters(l, grouped, c);
    assert Printed(l, grouped, c) != "" by {
      assert |[DecimalSep(l)]| == 1;
    }
    assert c as real / 100.0 * 100.0 == c as real;
    RoundInteger(c);
  }

  lemma RoundInteger(c: int)
    ensures Round(c as real) == c
  {
  }
}
