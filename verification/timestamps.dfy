/** The session's three timestamp formats, `'%Y-%m-%d'`, `'%H:%M:%S'` and
    their combination `'%Y-%m-%d %H:%M:%S'`, with a strict parser: six
    zero-padded fields and the ranges Python's `datetime` accepts. */
module Timestamps {
  import opened Options
  import opened Text

  datatype DateTime = DateTime(year: int, month: int, day: int, hour: int, minute: int, second: int)

  predicate IsLeapYear(y: int) {
    y % 4 == 0 && (y % 100 != 0 || y % 400 == 0)
  }

  function DaysInMonth(y: int, m: int): int
    requires 1 <= m <= 12
  {
    if m == 2 then (if IsLeapYear(y) then 29 else 28)
    else if m == 4 || m == 6 || m == 9 || m == 11 then 30
    else 31
  }

  /** The values `datetime(year, month, day, hour, minute, second)` accepts. */
  predicate Valid(d: DateTime) {
    && 1 <= d.year <= 9999
    && 1 <= d.month <= 12
    && 1 <= d.day <= DaysInMonth(d.year, d.month)
    && 0 <= d.hour <= 23
    && 0 <= d.minute <= 59
    && 0 <= d.second <= 59
  }

  /** `strftime('%Y-%m-%d')` */
  function FormatDate(d: DateTime): string
    requires Valid(d)
  {
    PadDigits(d.year, 4) + "-" + PadDigits(d.month, 2) + "-" + PadDigits(d.day, 2)
  }

  /** `strftime('%H:%M:%S')` */
  function FormatTime(d: DateTime): string
    requires Valid(d)
  {
    PadDigits(d.hour, 2) + ":" + PadDigits(d.minute, 2) + ":" + PadDigits(d.second, 2)
  }

  /** `strftime('%Y-%m-%d %H:%M:%S')`: the date and the time joined by one space. */
  function Format(d: DateTime): string
    requires Valid(d)
  {
    FormatDate(d) + " " + FormatTime(d)
  }

  /** The field positions of the combined format: start and width of each
      digit run, and the positions of the five separators. */
  predicate Shaped(s: string) {
    && |s| == 19
    && s[4] == '-' && s[7] == '-' && s[10] == ' ' && s[13] == ':' && s[16] == ':'
    && AllDigits(s[0..4]) && AllDigits(s[5..7]) && AllDigits(s[8..10])
    && AllDigits(s[11..13]) && AllDigits(s[14..16]) && AllDigits(s[17..19])
  }

  function Fields(s: string): DateTime
    requires Shaped(s)
  {
    DateTime(DigitValue(s[0..4]), DigitValue(s[5..7]), DigitValue(s[8..10]),
             DigitValue(s[11..13]), DigitValue(s[14..16]), DigitValue(s[17..19]))
  }

  /** `strptime(s, '%Y-%m-%d %H:%M:%S')`; `None` where it raises ValueError. */
  function Parse(s: string): (r: Option<DateTime>)
    ensures r.Some? ==> Valid(r.value) && Format(r.value) == s
  {
    if Shaped(s) && Valid(Fields(s)) then
      FormatOfFields(s);
      Some(Fields(s))
    else None
  }

  lemma FormatOfFields(s: string)
    requires Shaped(s) && Valid(Fields(s))
    ensures Format(Fields(s)) == s
  {
    PadOfDigitValue(s[0..4]);
    PadOfDigitValue(s[5..7]);
    PadOfDigitValue(s[8..10]);
    PadOfDigitValue(s[11..13]);
    PadOfDigitValue(s[14..16]);
    PadOfDigitValue(s[17..19]);
    assert s == s[0..4] + "-" + s[5..7] + "-" + s[8..10] + " " + s[11..13] + ":" + s[14..16] + ":" + s[17..19];
  }

  lemma FieldsOfFormat(d: DateTime)
    requires Valid(d)
    ensures Shaped(Format(d)) && Fields(Format(d)) == d
  {
    var s := Format(d);
    assert s[0..4] == PadDigits(d.year, 4);
    assert s[5..7] == PadDigits(d.month, 2);
    assert s[8..10] == PadDigits(d.day, 2);
    assert s[11..13] == PadDigits(d.hour, 2);
    assert s[14..16] == PadDigits(d.minute, 2);
    assert s[17..19] == PadDigits(d.second, 2);
    DigitValueOfPad(d.year, 4);
    DigitValueOfPad(d.month, 2);
    DigitValueOfPad(d.day, 2);
    DigitValueOfPad(d.hour, 2);
    DigitValueOfPad(d.minute, 2);
    DigitValueOfPad(d.second, 2);
  }

  /** Formatting a valid date-time and parsing the text gives it back. */
  lemma ParseOfFormat(d: DateTime)
    requires Valid(d)
    ensures Parse(Format(d)) == Some(d)
  {
    FieldsOfFormat(d);
  }

  /** The parser accepts exactly the formatted texts of valid date-times:
      a string parses to `d` if and only if it is `d` formatted. */
  lemma ParseFormat(s: string, d: DateTime)
    ensures Parse(s) == Some(d) <==> Valid(d) && Format(d) == s
  {
    if Valid(d) && Format(d) == s {
      ParseOfFormat(d);
    }
  }
}
