/** Decimal numerals: strconv.Itoa, strconv.Atoi and the digit loop they share with parseNumber. */
module Decimal {
  import opened Bytes

  function DigitChar(d: nat): (c: char)
    requires d < 10
    ensures IsDigit(c) && DigitValue(c) == d
  {
    '0' + d as char
  }

  function DigitValue(c: char): (d: int)
    ensures IsDigit(c) ==> 0 <= d < 10
  {
    c as int - '0' as int
  }

  predicate AllDigits(s: string) {
    forall i :: 0 <= i < |s| ==> IsDigit(s[i])
  }

  // The number that a run of digits denotes.
  function Value(s: string): (v: nat)
    requires AllDigits(s)
  {
    if s == "" then 0 else Value(s[..|s| - 1]) * 10 + DigitValue(s[|s| - 1])
  }

  function Digits(n: nat): (s: string)
    ensures s != "" && AllDigits(s)
  {
    if n < 10 then [DigitChar(n)] else Digits(n / 10) + [DigitChar(n % 10)]
  }

  function Itoa(n: int): string {
    if n < 0 then "-" + Digits(-n) else Digits(n)
  }

  // strconv.Atoi over unbounded integers
  function Atoi(s: string): Option<int> {
    if s != "" && AllDigits(s) then Some(Value(s))
    else if |s| > 1 && (s[0] == '-' || s[0] == '+') && AllDigits(s[1..]) then
      var v: int := Value(s[1..]);
      Some(if s[0] == '-' then -v else v)
    else None
  }

  lemma {:induction false} ValueOfDigits(n: nat)
    ensures Value(Digits(n)) == n
  {
    if n >= 10 {
      ValueOfDigits(n / 10);
      var s := Digits(n);
      assert s[..|s| - 1] == Digits(n / 10);
    }
  }

  /** Atoi reads back what Itoa prints. */
  lemma AtoiOfItoa(n: int)
    ensures Atoi(Itoa(n)) == Some(n)
  {
    if n < 0 {
      ValueOfDigits(-n);
      assert Itoa(n)[1..] == Digits(-n);
    } else {
      ValueOfDigits(n);
    }
  }

  /** The most significant digit comes first. */
  lemma PrintedNumerals()
    ensures Itoa(135) == "135" && Itoa(-40) == "-40"
  {
    assert Digits(1) == "1" && Digits(13) == "13";
    assert Digits(4) == "4";
  }

  /** Leading zeros and a sign are read; an empty numeral, a lone sign and a letter are not. */
  lemma ReadNumerals()
    ensures Atoi("0042") == Some(42) && Atoi("-12") == Some(-12)
    ensures Atoi("") == None && Atoi("-") == None && Atoi("1a") == None
  {
    ReadsDigits("0042", "004");
    ReadsDigits("004", "00");
    ReadsDigits("00", "0");
    ReadsDigits("0", "");
    ReadsDigits("12", "1");
    ReadsDigits("1", "");
    var negative, mixed := "-12", "1a";
    hide Value;
    assert negative[1..] == "12" && !IsDigit(negative[0]);
    assert !AllDigits(mixed) by {
      assert !IsDigit(mixed[1]);
    }
    assert !AllDigits("-") by {
      assert !IsDigit("-"[0]);
    }
  }

  lemma {:induction false} ReadsDigits(s: string, init: string)
    requires AllDigits(s) && s != "" && s[..|s| - 1] == init && AllDigits(init)
    ensures Value(s) == 10 * Value(init) + DigitValue(s[|s| - 1])
  {
  }
}
