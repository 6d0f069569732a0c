/**
 * The `date` field of the attendance payload: `<year>-<MM>-<DD>`, with the
 * month and day zero-padded to two digits (`padStart(2, "0")`) and the year
 * written as `Number.prototype.toString` writes it, unpadded. A parser is the
 * partner that shows the string carries the date, and `IsFullDate` is the
 * `full-date` production of section 5.6 of RFC 3339.
 */
module DateFormat {
  import opened Wrappers
  import opened Calendar

  predicate IsDigit(ch: char)
  {
    '0' <= ch <= '9'
  }

  predicate AllDigits(s: string)
  {
    forall i | 0 <= i < |s| :: IsDigit(s[i])
  }

  function DigitChar(n: int): (ch: char)
    requires 0 <= n < 10
    ensures IsDigit(ch) && ch as int - '0' as int == n
  {
    ('0' as int + n) as char
  }

  /** Decimal digits of `n`, most significant first, no leading zeros. */
  function Digits(n: nat): (s: string)
    ensures 1 <= |s| && AllDigits(s)
  {
    if n < 10 then [DigitChar(n)] else Digits(n / 10) + [DigitChar(n % 10)]
  }

  /** The integer written in decimal as `s` (all digits). */
  function DecimalValue(s: string): (n: nat)
    requires AllDigits(s)
  {
    if s == [] then 0
    else DecimalValue(s[..|s| - 1]) * 10 + (s[|s| - 1] as int - '0' as int)
  }

  /** `String(n)` for an integer: a minus sign before the digits of a negative number. */
  function IntText(n: int): string
  {
    if n < 0 then "-" + Digits(-n) else Digits(n)
  }

  /** `s.padStart(2, "0")`. */
  function PadStart2(s: string): (p: string)
    ensures |p| == if |s| < 2 then 2 else |s|
    ensures p[|p| - |s|..] == s
    ensures forall i | 0 <= i < |p| - |s| :: p[i] == '0'
    ensures |s| >= 2 ==> p == s
  {
    if |s| == 0 then "00" else if |s| == 1 then "0" + s else s
  }

  /**
   * The payload's date for day `day` of zero-based month `month`: `YYYY-MM-DD`
   * with MM = month + 1. For any day of at most two digits it reads back as
   * the year, the one-based month and the day.
   */
  function FormatDate(year: int, month: Month, day: nat): (s: string)
    ensures day <= 99 ==> ParseDate(s) == Some((year, month + 1, day))
  {
    var ys, ms, ds := IntText(year), PadStart2(Digits(month + 1)), PadStart2(Digits(day));
    if day <= 99 then
      TwoDigits(month + 1);
      DigitsLength(day, 2);
      PadStart2Value(month + 1);
      PadStart2Value(day);
      IntTextRoundTrip(year);
      ParseDateFields(ys, ms, ds);
      ys + "-" + ms + "-" + ds
    else
      ys + "-" + ms + "-" + ds
  }

  /** Reads an optionally signed decimal integer. */
  function ParseInt(s: string): Option<int>
  {
    if |s| > 0 && AllDigits(s) then Some(DecimalValue(s))
    else if |s| > 1 && s[0] == '-' && AllDigits(s[1..]) then Some(-(DecimalValue(s[1..]) as int))
    else None
  }

  /** Reads `<year>-MM-DD` back as (year, one-based month, day). */
  function ParseDate(s: string): Option<(int, int, int)>
  {
    if |s| < 7 || s[|s| - 6] != '-' || s[|s| - 3] != '-' then None
    else
      var mm, dd := s[|s| - 5..|s| - 3], s[|s| - 2..];
      if !AllDigits(mm) || !AllDigits(dd) then None
      else
        match ParseInt(s[..|s| - 6])
        case None => None
        case Some(y) => Some((y, DecimalValue(mm), DecimalValue(dd)))
  }

  /** RFC 3339, section 5.6: full-date = date-fullyear "-" date-month "-" date-mday. */
  predicate IsFullDate(s: string)
  {
    |s| == 10 && s[4] == '-' && s[7] == '-' &&
    AllDigits(s[..4]) && AllDigits(s[5..7]) && AllDigits(s[8..]) &&
    1 <= DecimalValue(s[5..7]) <= 12 && 1 <= DecimalValue(s[8..]) <= 31
  }

  function Pow10(k: nat): (p: nat)
    ensures p >= 1
  {
    if k == 0 then 1 else 10 * Pow10(k - 1)
  }

  // ---------------------------------------------------------------------

  lemma {:induction false} DecimalRoundTrip(n: nat)
    ensures DecimalValue(Digits(n)) == n
  {
    if n >= 10 {
      DecimalRoundTrip(n / 10);
      var s := Digits(n);
      assert s[..|s| - 1] == Digits(n / 10);
    }
  }

  /** A leading zero does not change a decimal value. */
  lemma {:induction false} LeadingZero(s: string)
    requires AllDigits(s)
    ensures AllDigits("0" + s) && DecimalValue("0" + s) == DecimalValue(s)
  {
    if s != [] {
      LeadingZero(s[..|s| - 1]);
      assert ("0" + s)[..|s|] == "0" + s[..|s| - 1];
    }
  }

  lemma PadStart2Value(n: nat)
    ensures AllDigits(PadStart2(Digits(n))) && DecimalValue(PadStart2(Digits(n))) == n
  {
    DecimalRoundTrip(n);
    LeadingZero(Digits(n));
  }

  /** Digits(n) has more than k digits exactly when n >= 10^k (k >= 1). */
  lemma {:induction false} DigitsLength(n: nat, k: nat)
    requires k >= 1
    ensures |Digits(n)| > k <==> n >= Pow10(k)
  {
    if n >= 10 && k > 1 {
      DigitsLength(n / 10, k - 1);
    }
  }

  lemma TwoDigits(n: nat)
    requires 1 <= n <= 99
    ensures |PadStart2(Digits(n))| == 2
  {
    DigitsLength(n, 2);
  }

  /** The text of an integer reads back as that integer. */
  lemma IntTextRoundTrip(n: int)
    ensures ParseInt(IntText(n)) == Some(n)
  {
    var t := IntText(n);
    if n < 0 {
      DecimalRoundTrip(-n);
      assert t[1..] == Digits(-n);
      assert !IsDigit(t[0]);
    } else {
      DecimalRoundTrip(n);
    }
  }

  /** Splitting `<year>-MM-DD` at the last two dashes recovers its three fields. */
  lemma ParseDateFields(ys: string, ms: string, ds: string)
    requires |ms| == 2 && |ds| == 2 && AllDigits(ms) && AllDigits(ds)
    ensures ParseDate(ys + "-" + ms + "-" + ds) ==
      match ParseInt(ys)
      case None => None
      case Some(y) => Some((y, DecimalValue(ms), DecimalValue(ds)))
  {
    var s := ys + "-" + ms + "-" + ds;
    assert s[..|s| - 6] == ys;
    assert s[|s| - 5..|s| - 3] == ms;
    assert s[|s| - 2..] == ds;
  }

  /**
   * The payload date has the RFC 3339 `full-date` shape exactly for the
   * years 1000 to 9999: shorter years are not padded to four digits and
   * negative years start with a sign.
   */
  lemma FormatDateIsFullDate(year: int, month: Month, day: nat)
    requires 1 <= day <= 31
    ensures IsFullDate(FormatDate(year, month, day)) <==> 1000 <= year <= 9999
  {
    PaddedField(month + 1);
    PaddedField(day);
    FullDateFields(IntText(year), PadStart2(Digits(month + 1)), PadStart2(Digits(day)));
    YearTextIsFourDigits(year);
  }

  /** A one- or two-digit number padded to two digits reads back as itself. */
  lemma PaddedField(n: nat)
    requires 1 <= n <= 99
    ensures |PadStart2(Digits(n))| == 2 && AllDigits(PadStart2(Digits(n)))
    ensures DecimalValue(PadStart2(Digits(n))) == n
  {
    TwoDigits(n);
    PadStart2Value(n);
  }

  /** Which `<year>-MM-DD` strings with two-digit fields are RFC 3339 full-dates. */
  lemma FullDateFields(ys: string, ms: string, ds: string)
    requires |ms| == 2 && |ds| == 2 && AllDigits(ms) && AllDigits(ds)
    ensures IsFullDate(ys + "-" + ms + "-" + ds) <==>
      |ys| == 4 && AllDigits(ys) && 1 <= DecimalValue(ms) <= 12 && 1 <= DecimalValue(ds) <= 31
  {
    var s := ys + "-" + ms + "-" + ds;
    if |ys| == 4 {
      assert s[..4] == ys && s[5..7] == ms && s[8..] == ds;
    }
  }

  /** The year text is four digits exactly for the years 1000 to 9999. */
  lemma YearTextIsFourDigits(year: int)
    ensures |IntText(year)| == 4 && AllDigits(IntText(year)) <==> 1000 <= year <= 9999
  {
    if 0 <= year {
      DigitsLength(year, 3);
      DigitsLength(year, 4);
      assert Pow10(3) == 1000 && Pow10(4) == 10000;
    } else {
      assert !IsDigit(IntText(year)[0]);
    }
  }
}
