/** Period parameters such as "7d", and the bucket size of their time series. */
module Period {
  import opened Strings
  import opened Decimal

  const DAY_SECONDS := 86400
  const MAX_INT64 := 0x7fff_ffff_ffff_ffff

  /** 64-bit two's-complement wrap-around. */
  function Wrap(n: int): (r: int)
    ensures -0x8000_0000_0000_0000 <= r <= MAX_INT64
    ensures -0x8000_0000_0000_0000 <= n <= MAX_INT64 ==> r == n
  {
    (n + 0x8000_0000_0000_0000) % 0x1_0000_0000_0000_0000 - 0x8000_0000_0000_0000
  }

  /** The digit loop, each step in 64 bits; anything but a digit means 7. */
  function Accumulate(s: string): int {
    if s == "" then 0
    else
      var front := Accumulate(s[..|s| - 1]);
      if !Digits(s) then 7
      else Wrap(Wrap(front * 10) + DigitValue(s[|s| - 1]))
  }

  function PeriodSeconds(raw: string): int {
    var trimmed := Trim(raw);
    var s := if trimmed == "" then "7d" else trimmed;
    if s[|s| - 1] == 'd' then
      var days := Accumulate(s[..|s| - 1]);
      Wrap((if days <= 0 then 7 else days) * DAY_SECONDS)
    else
      7 * DAY_SECONDS
  }

  method ParsePeriodSeconds(raw: string) returns (seconds: int)
    ensures seconds == PeriodSeconds(raw)
  {
    var s := Trim(raw);
    if s == "" {
      s := "7d";
    }
    if s[|s| - 1] == 'd' {
      var days := CountDays(s[..|s| - 1]);
      if days <= 0 {
        days := 7;
      }
      return Wrap(days * DAY_SECONDS);
    }
    return 7 * DAY_SECONDS;
  }

  /** The digit loop. */
  method CountDays(ds: string) returns (days: int)
    ensures days == Accumulate(ds)
  {
    days := 0;
    var i := 0;
    while i < |ds|
      invariant 0 <= i <= |ds|
      invariant Digits(ds[..i]) && days == Accumulate(ds[..i])
    {
      assert ds[..i + 1][..i] == ds[..i];
      if Digit(ds[i]) {
        days := Wrap(Wrap(days * 10) + DigitValue(ds[i]));
      } else {
        BadDigit(ds, i);
        return 7;
      }
      i := i + 1;
    }
    assert ds[..i] == ds;
  }

  lemma BadDigit(s: string, i: nat)
    requires i < |s| && !Digit(s[i])
    ensures Accumulate(s) == 7
  {
    assert !Digits(s);
  }

  /** Hourly up to a week, daily beyond. */
  function BucketSize(seconds: int): int {
    if seconds <= 7 * DAY_SECONDS then 3600 else DAY_SECONDS
  }

  lemma {:induction false} AccumulateExact(s: string)
    requires Digits(s) && Value(s) <= MAX_INT64
    ensures Accumulate(s) == Value(s)
  {
    if s != "" {
      AccumulateExact(s[..|s| - 1]);
    }
  }

  lemma NeverAboveMaximum(raw: string)
    ensures PeriodSeconds(raw) <= MAX_INT64
  {
  }

  /**
   "<n>d" gives n days of seconds for a numeral of n >= 1, leading zeros and surrounding
   blanks allowed, exactly when the seconds fit in 64 bits; beyond that they wrap around.
   */
  lemma DaysExactly(left: string, numeral: string, right: string)
    requires Blank(left) && Blank(right) && numeral != "" && Digits(numeral) && Value(numeral) >= 1
    ensures PeriodSeconds(left + (numeral + "d") + right) == Value(numeral) * 86400
            <==> Value(numeral) * 86400 <= 9223372036854775807
  {
    var s := numeral + "d";
    NeverAboveMaximum(left + s + right);
    if Value(numeral) * DAY_SECONDS <= MAX_INT64 {
      TrimPadded(left, s, right);
      assert s[..|s| - 1] == numeral;
      AccumulateExact(numeral);
    }
  }

  /** Printing and parsing: the decimal numeral of n reads back as n days. */
  lemma PrintRoundTrip(n: nat, zeros: string)
    requires n >= 1 && n * DAY_SECONDS <= MAX_INT64 && forall i :: 0 <= i < |zeros| ==> zeros[i] == '0'
    ensures PeriodSeconds(zeros + Print(n) + "d") == n * 86400
  {
    var numeral := zeros + Print(n);
    LeadingZeros(zeros, Print(n));
    assert "" + (numeral + "d") + "" == zeros + Print(n) + "d";
    DaysExactly("", numeral, "");
  }

  /** A text that is not a numeral of at least 1 followed by 'd' means a week. */
  lemma OtherwiseAWeek(raw: string)
    requires var s := Trim(raw);
             s == "" || s[|s| - 1] != 'd' || !Digits(s[..|s| - 1]) || Value(s[..|s| - 1]) == 0
    ensures PeriodSeconds(raw) == 604800
  {
    var s := Trim(raw);
    if s == "" {
      assert "7d"[..1] == "7";
      assert Accumulate("7") == 7;
    } else if s[|s| - 1] == 'd' && Digits(s[..|s| - 1]) {
      AccumulateExact(s[..|s| - 1]);
    }
  }

  /** Within 64 bits, a window always holds a whole, positive number of its buckets. */
  lemma WholeBuckets(raw: string)
    requires var s := Trim(raw);
             s != "" && s[|s| - 1] == 'd' && Digits(s[..|s| - 1]) ==> Value(s[..|s| - 1]) * DAY_SECONDS <= MAX_INT64
    ensures PeriodSeconds(raw) > 0 && PeriodSeconds(raw) % BucketSize(PeriodSeconds(raw)) == 0
  {
    var days := DaysOf(raw);
    DaysInBuckets(days);
  }

  /** The buckets of a window: one for each hour up to a week, one for each day beyond. */
  lemma BucketsExactly(days: nat)
    requires days > 0
    ensures days * 86400 / BucketSize(days * 86400) == if days <= 7 then 24 * days else days
  {
    assert days * 86400 == (24 * days) * 3600;
    if days <= 7 {
      assert (24 * days) * 3600 / 3600 == 24 * days;
    } else {
      assert days * 86400 / 86400 == days;
    }
  }

  /** Within 64 bits, the window is a positive number of days. */
  lemma DaysOf(raw: string) returns (days: nat)
    requires var s := Trim(raw);
             s != "" && s[|s| - 1] == 'd' && Digits(s[..|s| - 1]) ==> Value(s[..|s| - 1]) * DAY_SECONDS <= MAX_INT64
    ensures days > 0 && PeriodSeconds(raw) == days * DAY_SECONDS
  {
    var s := Trim(raw);
    if s != "" && s[|s| - 1] == 'd' && Digits(s[..|s| - 1]) && Value(s[..|s| - 1]) > 0 {
      days := Value(s[..|s| - 1]);
      AccumulateExact(s[..|s| - 1]);
    } else {
      days := 7;
      OtherwiseAWeek(raw);
    }
  }

  lemma DaysInBuckets(days: nat)
    requires days > 0
    ensures days * DAY_SECONDS > 0 && days * DAY_SECONDS % BucketSize(days * DAY_SECONDS) == 0
  {
    assert days * DAY_SECONDS == (days * 24) * 3600;
  }

  lemma WrappedMaximum()
    ensures Wrap(MAX_INT64 * DAY_SECONDS) == -DAY_SECONDS
  {
  }

  /** A numeral that fits in 64 bits whose seconds do not: the window comes out negative. */
  lemma OverflowIsNegative(numeral: string)
    requires numeral != "" && Digits(numeral) && Value(numeral) == MAX_INT64
    ensures PeriodSeconds(numeral + "d") == -DAY_SECONDS
  {
    var s := numeral + "d";
    TrimmedFixed(s);
    assert s[..|s| - 1] == numeral;
    AccumulateExact(numeral);
    WrappedMaximum();
  }
}
