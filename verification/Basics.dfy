/** What several parts of the model share: optional values, strchr and decimal numbers. */
module Basics {

  datatype Option<+T> = None | Some(value: T)

  function Digit(d: nat): char
    requires d < 10
  {
    '0' + d as char
  }

  predicate IsDigit(c: char) { '0' <= c <= '9' }

  /** strchr from `from` on; the length of the string is the null pointer. */
  function StrChr(s: string, from: nat, c: char): (i: nat)
    requires from <= |s|
    ensures from <= i <= |s| && (i < |s| ==> s[i] == c)
    ensures forall j | from <= j < i :: s[j] != c
    decreases |s| - from
  {
    if from == |s| || s[from] == c then from else StrChr(s, from + 1, c)
  }

  function Digits(n: nat): string {
    if n < 10 then [Digit(n)] else Digits(n / 10) + [Digit(n % 10)]
  }

  /** printf's %d and its wider forms. */
  function Decimal(n: int): string {
    if n < 0 then "-" + Digits(-n) else Digits(n)
  }

  /** Decimal notation: one digit below ten, one more for each factor of ten, and a sign in front. */
  lemma DecimalIs(n: nat, d: nat)
    requires d < 10
    ensures Decimal(d) == ["0123456789"[d]]
    ensures n > 0 ==> Decimal(10 * n + d) == Decimal(n) + ["0123456789"[d]]
    ensures n > 0 ==> Decimal(-(n as int)) == "-" + Decimal(n)
  {
    assert Digit(d) == "0123456789"[d];
    assert (10 * n + d) / 10 == n && (10 * n + d) % 10 == d;
  }

  lemma {:induction false} DigitsAreDigits(n: nat)
    ensures Digits(n) != []
    ensures forall c | c in Digits(n) :: IsDigit(c)
  {
    if n >= 10 {
      DigitsAreDigits(n / 10);
    }
  }

  /** The digits at the front of `s`, appended to those already in `n`. */
  function ReadDigits(s: string, n: nat): (r: (nat, string))
    ensures |r.1| <= |s|
  {
    if s != [] && IsDigit(s[0]) then ReadDigits(s[1..], 10 * n + (s[0] - '0') as nat) else (n, s)
  }

  lemma {:induction false} DigitsShape(n: nat)
    ensures Digits(n) != [] && IsDigit(Digits(n)[0])
    ensures n > 0 ==> Digits(n)[0] != '0'
    ensures n < 10 ==> Digits(n) == [Digit(n)]
  {
    if n >= 10 {
      DigitsShape(n / 10);
    }
  }

  lemma DigitReads(d: nat)
    requires d < 10
    ensures IsDigit(Digit(d)) && (Digit(d) - '0') as nat == d
  {
  }

  /** After reading the digits of `n`, whatever follows, the reader stands at it with `n`. */
  lemma {:induction false} ReadDigitsFrom(n: nat, rest: string)
    requires n > 0 && IsDigit(Digits(n)[0])
    ensures ReadDigits((Digits(n) + rest)[1..], (Digits(n)[0] - '0') as nat) == ReadDigits(rest, n)
  {
    if n < 10 {
      DigitReads(n);
      assert (Digits(n) + rest)[1..] == rest;
    } else {
      var front, d := Digits(n / 10), Digit(n % 10);
      DigitsShape(n / 10);
      DigitReads(n % 10);
      ReadDigitsFrom(n / 10, [d] + rest);
      assert Digits(n) + rest == front + ([d] + rest);
      assert ([d] + rest)[1..] == rest;
      assert 10 * (n / 10) + n % 10 == n;
    }
  }
}
