/** Publication-date keys. The permissive date parser the program calls
    (dateutil's `parser.parse`) is not modelled: it is an oracle that either
    yields a calendar date or raises. What the program itself decides is
    modelled: the `"%Y%m%d"` rendering of that date, which is the only key
    date queries ever compare against. */
module Dates {
  import opened Text
  import opened Wrappers

  datatype Date = Date(year: int, month: int, day: int)

  predicate IsLeap(y: int) {
    (y % 4 == 0 && y % 100 != 0) || y % 400 == 0
  }

  function DaysInMonth(y: int, m: int): int {
    if m == 2 then (if IsLeap(y) then 29 else 28)
    else if m == 4 || m == 6 || m == 9 || m == 11 then 30
    else 31
  }

  /** The dates Python's `datetime` can represent. */
  predicate ValidDate(d: Date) {
    1 <= d.year <= 9999 && 1 <= d.month <= 12 && 1 <= d.day <= DaysInMonth(d.year, d.month)
  }

  type CalendarDate = d: Date | ValidDate(d) witness Date(2000, 1, 1)

  /** The exceptions the date parser can raise: a `TypeError`, which the
      sqlite insert catches, or anything else (`ParserError`, `OverflowError`),
      which nobody in the core catches. */
  datatype DateError = DateTypeError | DateValueError

  datatype DateParse = Parsed(date: CalendarDate) | Unparsable(error: DateError)

  /** dateutil's `parser.parse`, as an uninterpreted oracle. */
  type DateParser = string -> DateParse

  // ---------------------------------------------------------------- YYYYMMDD

  /** `n` as exactly `width` zero-padded decimal digits. */
  function Padded(n: nat, width: nat): (r: string)
    ensures |r| == width && AllDigits(r)
  {
    if width == 0 then [] else Padded(n / 10, width - 1) + [DigitChar(n % 10)]
  }

  function Power10(k: nat): nat {
    if k == 0 then 1 else 10 * Power10(k - 1)
  }

  lemma {:induction false} PaddedValue(n: nat, width: nat)
    requires n < Power10(width)
    ensures DigitsValue(Padded(n, width)) == n
  {
    if width > 0 {
      var r := Padded(n, width);
      assert r[..|r| - 1] == Padded(n / 10, width - 1);
      PaddedValue(n / 10, width - 1);
    }
  }

  /** `datetime.strftime("%Y%m%d")`, with the year always written with four
      digits. */
  function FormatYmd(d: CalendarDate): (r: string)
    ensures |r| == 8 && AllDigits(r)
  {
    Padded(d.year, 4) + Padded(d.month, 2) + Padded(d.day, 2)
  }

  /** Reads an eight-digit key back into a date. */
  function ParseYmd(s: string): (r: Option<Date>)
    ensures r.Some? <==> |s| == 8 && AllDigits(s)
  {
    if |s| == 8 && AllDigits(s) then
      Some(Date(DigitsValue(s[..4]), DigitsValue(s[4..6]), DigitsValue(s[6..])))
    else None
  }

  /** A key names the same calendar day it was made from. */
  lemma FormatYmdRoundTrip(d: CalendarDate)
    ensures ParseYmd(FormatYmd(d)) == Some(d)
  {
    var s := FormatYmd(d);
    assert s[..4] == Padded(d.year, 4);
    assert s[4..6] == Padded(d.month, 2);
    assert s[6..] == Padded(d.day, 2);
    assert Power10(2) == 100 && Power10(4) == 10000;
    PaddedValue(d.year, 4);
    PaddedValue(d.month, 2);
    PaddedValue(d.day, 2);
  }

  /** Distinct days get distinct keys, so an equality filter on the key is
      an equality filter on the day. */
  lemma FormatYmdInjective(d1: CalendarDate, d2: CalendarDate)
    requires d1 != d2
    ensures FormatYmd(d1) != FormatYmd(d2)
  {
    FormatYmdRoundTrip(d1);
    FormatYmdRoundTrip(d2);
  }
}
