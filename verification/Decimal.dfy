/** Unsigned decimal numerals. */
module Decimal {

  predicate Digit(c: char) {
    '0' <= c <= '9'
  }

  predicate Digits(s: string) {
    forall i :: 0 <= i < |s| ==> Digit(s[i])
  }

  function DigitValue(c: char): nat
    requires Digit(c)
  {
    c as int - '0' as int
  }

  /** The number a numeral denotes; leading zeros are allowed. */
  function Value(s: string): nat
    requires Digits(s)
  {
    if s == "" then 0 else Value(s[..|s| - 1]) * 10 + DigitValue(s[|s| - 1])
  }

  function DigitChar(d: nat): (c: char)
    requires d < 10
    ensures Digit(c) && DigitValue(c) == d
  {
    (d + '0' as int) as char
  }

  function Print(n: nat): (s: string)
    ensures s != "" && Digits(s) && Value(s) == n
  {
    if n < 10 then [DigitChar(n)]
    else
      var s := Print(n / 10) + [DigitChar(n % 10)];
      assert s[..|s| - 1] == Print(n / 10);
      s
  }

  /** `zeros` zeros in front change nothing. */
  lemma {:induction false} LeadingZeros(zeros: string, s: string)
    requires (forall i :: 0 <= i < |zeros| ==> zeros[i] == '0') && Digits(s)
    ensures Digits(zeros + s) && Value(zeros + s) == Value(s)
  {
    if s != "" {
      assert (zeros + s)[..|zeros + s| - 1] == zeros + s[..|s| - 1];
      LeadingZeros(zeros, s[..|s| - 1]);
    } else if zeros != "" {
      assert (zeros + s)[..|zeros + s| - 1] == zeros[..|zeros| - 1] + s;
      LeadingZeros(zeros[..|zeros| - 1], s);
    }
  }

  /** Ten has two digits: the numerals are decimal. */
  lemma TenReads()
    ensures Value("10") == 10 && Value("2024") == 2024
  {
    assert "10"[..1] == "1" && "1"[..0] == "";
    assert "2024"[..3] == "202" && "202"[..2] == "20" && "20"[..1] == "2" && "2"[..0] == "";
    assert Value("2") == 2 && Value("20") == 20 && Value("202") == 202;
    assert Value("1") == 1;
  }
}
