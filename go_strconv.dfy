/** The part of Go's `strconv` package that `MaskPreserveEnds` uses: `Atoi`, with
    the decimal formatting `Itoa` as its inverse. */
module GoStrconv {
  import opened GoInt

  /** The two kinds of `*strconv.NumError` that `Atoi` reports. */
  datatype NumError = ErrSyntax | ErrRange

  /** The pair `(int, error)` returned by `Atoi`. */
  datatype AtoiResult = Ok(value: int) | Err(error: NumError)

  /** An ASCII decimal digit. */
  predicate IsDigit(c: char) {
    '0' <= c <= '9'
  }

  /** Every character of `s` is a decimal digit. */
  predicate AllDigits(s: string) {
    s == [] || (AllDigits(s[..|s| - 1]) && IsDigit(s[|s| - 1]))
  }

  /** `AllDigits` holds position by position. */
  lemma {:induction false} AllDigitsEach(s: string)
    requires AllDigits(s)
    ensures forall i :: 0 <= i < |s| ==> IsDigit(s[i])
  {
    if s != [] {
      AllDigitsEach(s[..|s| - 1]);
    }
  }

  /** A non-empty string of digits starts with a digit. */
  lemma {:induction false} AllDigitsFirst(s: string)
    requires AllDigits(s) && s != []
    ensures IsDigit(s[0])
  {
    if |s| > 1 {
      AllDigitsFirst(s[..|s| - 1]);
    }
  }

  function DigitValue(c: char): (d: int)
    requires IsDigit(c)
    ensures 0 <= d < 10
  {
    c as int - '0' as int
  }

  function DigitChar(d: int): (c: char)
    requires 0 <= d < 10
    ensures IsDigit(c) && DigitValue(c) == d
  {
    ('0' as int + d) as char
  }

  /** The number a string of decimal digits denotes (most significant first). */
  function Decimal(s: string): nat
    requires AllDigits(s)
  {
    if s == [] then 0 else Decimal(s[..|s| - 1]) * 10 + DigitValue(s[|s| - 1])
  }

  /** `strconv.Atoi` for a 64-bit `int`: an optional `+` or `-`, then one or more
      ASCII decimal digits and nothing else (no spaces, no underscores, no base
      prefix); a well-formed number outside the `int` range is a range error. */
  function Atoi(s: string): (r: AtoiResult)
    ensures r.Ok? ==> InRange(r.value)
  {
    var signed := |s| > 0 && (s[0] == '+' || s[0] == '-');
    var digits := if signed then s[1..] else s;
    if digits == [] || !AllDigits(digits) then Err(ErrSyntax)
    else
      var v: int := if signed && s[0] == '-' then 0 - Decimal(digits) as int else Decimal(digits);
      if InRange(v) then Ok(v) else Err(ErrRange)
  }

  /** The decimal digits of `n`, without leading zeros. */
  function Digits(n: nat): (s: string)
    ensures |s| > 0 && AllDigits(s) && Decimal(s) == n
    ensures s[0] == '0' ==> s == "0"
    decreases n
  {
    if n < 10 then [DigitChar(n)]
    else
      var init := Digits(n / 10);
      var s := init + [DigitChar(n % 10)];
      assert s[..|s| - 1] == init;
      s
  }

  /** `strconv.Itoa`: `n` in decimal, with a leading `-` when negative. */
  function Itoa(n: int): (s: string)
    ensures |s| > 0
  {
    if n < 0 then "-" + Digits(-n) else Digits(n)
  }

  /** `Atoi` reads back every `int` that `Itoa` writes. */
  lemma AtoiItoa(n: int)
    requires InRange(n)
    ensures Atoi(Itoa(n)) == Ok(n)
  {
    var s := Itoa(n);
    if n < 0 {
      assert s[1..] == Digits(-n);
    } else {
      AllDigitsFirst(s);
    }
  }

  /** `Itoa` writes digits, with at most a `-` in front, and ends in a digit. */
  lemma ItoaChars(n: int)
    ensures forall i :: 0 <= i < |Itoa(n)| ==> IsDigit(Itoa(n)[i]) || Itoa(n)[i] == '-'
    ensures IsDigit(Itoa(n)[|Itoa(n)| - 1])
  {
    var d := Digits(if n < 0 then -n else n);
    AllDigitsEach(d);
  }

  /** A single digit, with or without a `-` in front, reads as its value. */
  lemma AtoiOneDigit(c: char)
    requires IsDigit(c)
    ensures Atoi([c]) == Ok(DigitValue(c))
    ensures Atoi(['-', c]) == Ok(-DigitValue(c))
  {
    assert [c][..0] == [];
    assert AllDigits([c]);
    assert Decimal([c]) == Decimal([c][..0]) * 10 + DigitValue(c);
    assert ['-', c][1..] == [c];
  }

  /** An explicit `+` sign is accepted and changes nothing. */
  lemma AtoiPlusSign(digits: string)
    requires |digits| > 0 && AllDigits(digits)
    ensures Atoi("+" + digits) == Atoi(digits)
  {
    assert ("+" + digits)[1..] == digits;
    AllDigitsFirst(digits);
  }

  /** Surrounding white space is a syntax error: `Atoi` does not trim. */
  lemma AtoiRejectsSpace(s: string)
    ensures Atoi(" " + s) == Err(ErrSyntax)
    ensures Atoi(s + " ") == Err(ErrSyntax)
  {
    assert Atoi(" " + s) == Err(ErrSyntax) by {
      var t := " " + s;
      assert t[0] == ' ';
      if AllDigits(t) {
        AllDigitsFirst(t);
      }
    }
    assert Atoi(s + " ") == Err(ErrSyntax) by {
      var t := s + " ";
      var digits := if t[0] == '+' || t[0] == '-' then t[1..] else t;
      assert digits == [] || digits[|digits| - 1] == ' ';
    }
  }
}
