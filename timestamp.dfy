/**
  Calendar timestamps and the two `strftime` layouts the report uses:
  `%Y-%m-%d_%H-%M-%S` in the report's file name and `%Y-%m-%d %H:%M:%S` on
  its date line. A timestamp is a local date and time at second precision,
  as the clock reading of the system supplies it.
 */
module Timestamp {
  import opened Wrappers

  datatype DateTime = DateTime(year: int, month: int, day: int, hour: int, minute: int, second: int)

  predicate IsLeapYear(y: int)
  {
    y % 4 == 0 && (y % 100 != 0 || y % 400 == 0)
  }

  function DaysInMonth(y: int, m: int): int
    requires 1 <= m <= 12
  {
    if m == 2 then (if IsLeapYear(y) then 29 else 28)
    else if m in {4, 6, 9, 11} then 30
    else 31
  }

  /** The date-times a clock reading can produce: years 1 to 9999, real calendar days. */
  predicate Valid(t: DateTime)
  {
    && 1 <= t.year <= 9999
    && 1 <= t.month <= 12
    && 1 <= t.day <= DaysInMonth(t.year, t.month)
    && 0 <= t.hour < 24
    && 0 <= t.minute < 60
    && 0 <= t.second < 60
  }

  function Pow10(n: nat): (p: nat)
    ensures p > 0
  {
    if n == 0 then 1 else 10 * Pow10(n - 1)
  }

  predicate IsDigit(c: char)
  {
    '0' <= c <= '9'
  }

  predicate AllDigits(s: string)
  {
    forall i :: 0 <= i < |s| ==> IsDigit(s[i])
  }

  function DigitChar(d: int): (c: char)
    requires 0 <= d < 10
    ensures IsDigit(c) && (c as int) - ('0' as int) == d
  {
    ('0' as int + d) as char
  }

  /** `n` in decimal, zero-padded on the left to exactly `width` digits. */
  function Digits(n: nat, width: nat): (s: string)
    requires n < Pow10(width)
    ensures |s| == width && AllDigits(s)
  {
    if width == 0 then ""
    else Digits(n / 10, width - 1) + [DigitChar(n % 10)]
  }

  /** The number a string of decimal digits denotes. */
  function Value(s: string): (n: nat)
    requires AllDigits(s)
    ensures n < Pow10(|s|)
  {
    if s == [] then 0
    else
      assert AllDigits(s[..|s| - 1]);
      Value(s[..|s| - 1]) * 10 + ((s[|s| - 1] as int) - ('0' as int))
  }

  lemma {:induction false} ValueOfDigits(n: nat, width: nat)
    requires n < Pow10(width)
    ensures Value(Digits(n, width)) == n
  {
    if width > 0 {
      var s := Digits(n, width);
      assert s[..|s| - 1] == Digits(n / 10, width - 1);
      ValueOfDigits(n / 10, width - 1);
    }
  }

  lemma {:induction false} DigitsOfValue(s: string)
    requires AllDigits(s)
    ensures Digits(Value(s), |s|) == s
  {
    if s != [] {
      var init := s[..|s| - 1];
      var d := (s[|s| - 1] as int) - ('0' as int);
      assert AllDigits(init);
      var v := Value(init);
      assert (v * 10 + d) / 10 == v && (v * 10 + d) % 10 == d;
      DigitsOfValue(init);
      assert s == init + [s[|s| - 1]];
    }
  }

  /**
    The nineteen-character layout year-month-day, separator, hour-minute-second,
    with `dateSep` inside the date, `midSep` between date and time and
    `timeSep` inside the time; every field is zero-padded.
   */
  function Format(t: DateTime, dateSep: char, midSep: char, timeSep: char): (s: string)
    requires Valid(t)
    ensures |s| == 19
    ensures s[4] == dateSep && s[7] == dateSep && s[10] == midSep && s[13] == timeSep && s[16] == timeSep
    ensures forall i :: 0 <= i < 19 && i !in {4, 7, 10, 13, 16} ==> IsDigit(s[i])
  {
    Digits(t.year, 4) + [dateSep] + Digits(t.month, 2) + [dateSep] + Digits(t.day, 2)
    + [midSep] + Digits(t.hour, 2) + [timeSep] + Digits(t.minute, 2) + [timeSep] + Digits(t.second, 2)
  }

  /** `%Y-%m-%d_%H-%M-%S`, the stamp in the report's file name. */
  function FileStamp(t: DateTime): (s: string)
    requires Valid(t)
    ensures Parse(s, '-', '_', '-') == Some(t)
  {
    ParseFormat(t, '-', '_', '-');
    Format(t, '-', '_', '-')
  }

  /** `%Y-%m-%d %H:%M:%S`, the stamp on the report's date line. */
  function DateStamp(t: DateTime): (s: string)
    requires Valid(t)
    ensures Parse(s, '-', ' ', ':') == Some(t)
  {
    ParseFormat(t, '-', ' ', ':');
    Format(t, '-', ' ', ':')
  }

  /** Reads back a string in the layout of `Format`; `None` when it is not one. */
  function Parse(s: string, dateSep: char, midSep: char, timeSep: char): Option<DateTime>
  {
    if && |s| == 19
       && s[4] == dateSep && s[7] == dateSep && s[10] == midSep && s[13] == timeSep && s[16] == timeSep
       && AllDigits(s[0..4]) && AllDigits(s[5..7]) && AllDigits(s[8..10])
       && AllDigits(s[11..13]) && AllDigits(s[14..16]) && AllDigits(s[17..19])
    then
      var t := DateTime(Value(s[0..4]), Value(s[5..7]), Value(s[8..10]),
                        Value(s[11..13]), Value(s[14..16]), Value(s[17..19]));
      if Valid(t) then Some(t) else None
    else None
  }

  /** Formatting then parsing gives back the date-time. */
  lemma ParseFormat(t: DateTime, dateSep: char, midSep: char, timeSep: char)
    requires Valid(t)
    requires !IsDigit(dateSep) && !IsDigit(midSep) && !IsDigit(timeSep)
    ensures Parse(Format(t, dateSep, midSep, timeSep), dateSep, midSep, timeSep) == Some(t)
  {
    var s := Format(t, dateSep, midSep, timeSep);
    assert s[0..4] == Digits(t.year, 4);
    assert s[5..7] == Digits(t.month, 2);
    assert s[8..10] == Digits(t.day, 2);
    assert s[11..13] == Digits(t.hour, 2);
    assert s[14..16] == Digits(t.minute, 2);
    assert s[17..19] == Digits(t.second, 2);
    ValueOfDigits(t.year, 4);
    ValueOfDigits(t.month, 2);
    ValueOfDigits(t.day, 2);
    ValueOfDigits(t.hour, 2);
    ValueOfDigits(t.minute, 2);
    ValueOfDigits(t.second, 2);
  }

  /** Whatever parses is a valid date-time that formats back to the same string. */
  lemma FormatParse(s: string, dateSep: char, midSep: char, timeSep: char, t: DateTime)
    requires Parse(s, dateSep, midSep, timeSep) == Some(t)
    ensures Valid(t) && Format(t, dateSep, midSep, timeSep) == s
  {
    DigitsOfValue(s[0..4]);
    DigitsOfValue(s[5..7]);
    DigitsOfValue(s[8..10]);
    DigitsOfValue(s[11..13]);
    DigitsOfValue(s[14..16]);
    DigitsOfValue(s[17..19]);
    assert s == s[0..4] + [s[4]] + s[5..7] + [s[7]] + s[8..10] + [s[10]]
              + s[11..13] + [s[13]] + s[14..16] + [s[16]] + s[17..19];
  }
}
