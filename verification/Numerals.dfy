/** The decimal numerals of printf ("%d" and "%02d") and strtol; the width of an int is not modelled. */
module Numerals {

  predicate IsDigit(c: char) {
    '0' <= c <= '9'
  }

  function Digits(n: nat): (s: string)
    ensures s != [] && forall c | c in s :: IsDigit(c)
  {
    if n < 10 then ['0' + n as char] else Digits(n / 10) + ['0' + (n % 10) as char]
  }

  /** No leading zero, but for the number zero itself. */
  lemma {:induction false} DigitsStart(n: nat)
    ensures Digits(n)[0] == '0' <==> n == 0
    ensures |Digits(n)| == 1 <==> n < 10
  {
    if n >= 10 {
      DigitsStart(n / 10);
    }
  }

  /** "%d" */
  function Print(n: int): string {
    if n < 0 then "-" + Digits(-n) else Digits(n)
  }

  /** "%02d" */
  function PrintTwo(n: nat): string {
    (if n < 10 then "0" else "") + Digits(n)
  }

  /** Read digits up to the first other character. */
  function ReadDigits(s: string, read: nat): nat {
    if s == [] || !IsDigit(s[0]) then read else ReadDigits(s[1..], 10 * read + (s[0] - '0') as nat)
  }

  /** `strtol` to base ten */
  function ParseLong(s: string): int {
    if s == [] then 0
    else if s[0] in " \t\n\r" || s[0] as int == 11 || s[0] as int == 12 then ParseLong(s[1..])
    else if s[0] == '-' then 0 - ReadDigits(s[1..], 0)
    else if s[0] == '+' then ReadDigits(s[1..], 0)
    else ReadDigits(s, 0)
  }

  lemma {:induction false} ReadPrinted(n: nat, rest: string)
    ensures ReadDigits(Digits(n) + rest, 0) == ReadDigits(rest, n)
  {
    if n < 10 {
      assert (Digits(n) + rest)[1..] == rest;
    } else {
      var last := ['0' + (n % 10) as char];
      assert Digits(n) + rest == Digits(n / 10) + (last + rest);
      ReadPrinted(n / 10, last + rest);
      assert (last + rest)[1..] == rest;
    }
  }

  /** A number printed with two digits or more is read back, up to a character that is no digit. */
  lemma ReadPrintedTwo(n: nat, rest: string)
    requires rest != [] ==> !IsDigit(rest[0])
    ensures ReadDigits(PrintTwo(n) + rest, 0) == n
  {
    ReadPrinted(n, rest);
    assert "" + Digits(n) == Digits(n);
    if n < 10 {
      var s := Digits(n) + rest;
      assert PrintTwo(n) + rest == ['0'] + s && (['0'] + s)[1..] == s;
      LeadingZero(s);
    }
  }

  lemma LeadingZero(s: string)
    ensures ReadDigits(['0'] + s, 0) == ReadDigits(s, 0)
  {
    assert (['0'] + s)[1..] == s;
  }

  /** A numeral has a minus sign for a negative number, then digits, the first of which is no superfluous zero. */
  lemma PrintedForm(n: int)
    ensures var s := Print(n);
      var d := if n < 0 then s[1..] else s;
      && s != [] && d != [] && (n < 0 ==> s[0] == '-')
      && (forall c | c in d :: '0' <= c <= '9') && (d[0] == '0' ==> n == 0 && |d| == 1)
  {
    DigitsStart(if n < 0 then -n else n);
    assert n < 0 ==> Print(n)[1..] == Digits(-n);
  }

  /** Two digits up to 99, with a zero in front if need be, and the usual numeral from there on. */
  lemma PrintedTwo(n: nat)
    ensures n < 100 ==> PrintTwo(n) == ['0' + (n / 10) as char, '0' + (n % 10) as char]
    ensures n >= 10 ==> PrintTwo(n) == Print(n)
  {
    assert "" + Digits(n) == Digits(n);
    if n < 10 {
      assert n / 10 == 0 && '0' + 0 as char == '0';
      assert PrintTwo(n) == "0" + ['0' + n as char];
    } else if n < 100 {
      assert Digits(n / 10) == ['0' + (n / 10) as char];
    }
  }

  /** `strtol` reads back what "%d" prints. */
  lemma ParsePrinted(n: int)
    ensures ParseLong(Print(n)) == n
  {
    hide ReadDigits;
    var d := Digits(if n < 0 then -n else n);
    assert d[0] in d;
    assert d + [] == d;
    assert ("-" + d)[1..] == d;
    ReadPrinted(if n < 0 then -n else n, []);
    ReadNothing(if n < 0 then -n else n);
  }

  /** Other texts that `strtol` reads: white space in front, a plus sign, and what is no number. */
  lemma ParseText(s: string, n: nat)
    ensures ParseLong("") == 0 && ParseLong("+" + Digits(n)) == n
    ensures s != [] && (s[0] == ' ' || 9 <= s[0] as int <= 13) ==> ParseLong(s) == ParseLong(s[1..])
    ensures s != [] && s[0] !in "+- " && !(9 <= s[0] as int <= 13) && !IsDigit(s[0]) ==> ParseLong(s) == 0
  {
    hide Digits;
    assert ("+" + Digits(n))[1..] == Digits(n) == Digits(n) + [];
    ReadPrinted(n, []);
    ReadNothing(n);
  }

  lemma ReadNothing(n: nat)
    ensures ReadDigits([], n) == n
  {
  }
}
