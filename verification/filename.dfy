/** `generateUniqueFilename`, shared by both scripts: the name of the CSV file,
    stamped with the local date and time of the run. The clock reading is a
    parameter. */
module Filename {
  import opened Wrappers
  import opened Text

  /** What the `Date` getters return: `getFullYear()`, `getMonth()` (0-based),
      `getDate()`, `getHours()` and `getMinutes()`. */
  datatype Clock = Clock(fullYear: int, monthIndex: nat, day: nat, hours: nat, minutes: nat)

  /** A reading the `Date` getters can produce, with a year of at least two
      digits. */
  predicate Plausible(c: Clock) {
    && 10 <= c.fullYear
    && c.monthIndex <= 11 && 1 <= c.day <= 31
    && c.hours <= 23 && c.minutes <= 59
  }

  /** The fields the name records: day, month, two-digit year, hours, minutes. */
  datatype Stamp = Stamp(day: nat, month: nat, year: nat, hours: nat, minutes: nat)

  const Prefix: string := "ryanair_results_"
  const Extension: string := ".csv"

  /** `String(n).padStart(2, '0')`. */
  function Pad2(n: nat): string {
    PadStart(NatToString(n), 2, '0')
  }

  /** `String(year).slice(-2)`. */
  function YearSuffix(y: int): string {
    LastChars(IntToString(y), 2)
  }

  /** `generateUniqueFilename`: whatever the clock reads, the name keeps the
      fixed prefix and the `.csv` extension. */
  function UniqueFilename(c: Clock): (name: string)
    ensures |name| >= |Prefix| + |Extension| && name[..|Prefix|] == Prefix
    ensures name[|name| - |Extension|..] == Extension
  {
    Framed(Prefix, Pad2(c.day), Pad2(c.monthIndex + 1), YearSuffix(c.fullYear),
           "_", Pad2(c.hours), Pad2(c.minutes), Extension);
    Prefix + Pad2(c.day) + Pad2(c.monthIndex + 1) + YearSuffix(c.fullYear)
    + "_" + Pad2(c.hours) + Pad2(c.minutes) + Extension
  }

  /** Text assembled from a head, five fields with a separator between the
      third and the fourth, and a tail starts with the head and ends with the
      tail. */
  lemma Framed(head: string, f1: string, f2: string, f3: string, sep: string,
               f4: string, f5: string, tail: string)
    ensures var s := head + f1 + f2 + f3 + sep + f4 + f5 + tail;
            |s| >= |head| + |tail| && s[..|head|] == head && s[|s| - |tail|..] == tail
  {
    var middle := f1 + f2 + f3 + sep + f4 + f5;
    assert head + f1 + f2 + f3 + sep + f4 + f5 + tail == head + middle + tail;
  }

  /** Reads a name of the shape `ryanair_results_DDMMYY_HHMM.csv`. */
  function ParseFilename(s: string): Option<Stamp> {
    if |s| == 31 && s[..16] == Prefix && s[22] == '_' && s[27..] == Extension
       && AllDigits(s[16..18]) && AllDigits(s[18..20]) && AllDigits(s[20..22])
       && AllDigits(s[23..25]) && AllDigits(s[25..27])
    then Some(Stamp(ParseDigits(s[16..18]), ParseDigits(s[18..20]), ParseDigits(s[20..22]),
                    ParseDigits(s[23..25]), ParseDigits(s[25..27])))
    else None
  }

  /** Where the five two-character fields sit in an assembled name. */
  lemma NameLayout(dd: string, mm: string, yy: string, hh: string, mi: string)
    requires |dd| == 2 && |mm| == 2 && |yy| == 2 && |hh| == 2 && |mi| == 2
    ensures var s := Prefix + dd + mm + yy + "_" + hh + mi + Extension;
            && |s| == 31
            && s[..16] == Prefix && s[16..18] == dd && s[18..20] == mm && s[20..22] == yy
            && s[22] == '_' && s[23..25] == hh && s[25..27] == mi && s[27..] == Extension
  {
  }

  /** The year field holds the last two digits of the year. */
  lemma YearSuffixDigits(y: int)
    requires y >= 10
    ensures |YearSuffix(y)| == 2 && AllDigits(YearSuffix(y))
    ensures ParseDigits(YearSuffix(y)) == y % 100
  {
    LastTwoDigits(y);
  }

  /** A plausible clock gives a 31-character name whose fields read back as
      the day, the 1-based month, the year modulo 100, the hours and the
      minutes. */
  lemma ParseUniqueFilename(c: Clock)
    requires Plausible(c)
    ensures |UniqueFilename(c)| == 31
    ensures ParseFilename(UniqueFilename(c))
            == Some(Stamp(c.day, c.monthIndex + 1, c.fullYear % 100, c.hours, c.minutes))
  {
    PadTwo(c.day);
    PadTwo(c.monthIndex + 1);
    YearSuffixDigits(c.fullYear);
    PadTwo(c.hours);
    PadTwo(c.minutes);
    NameLayout(Pad2(c.day), Pad2(c.monthIndex + 1), YearSuffix(c.fullYear), Pad2(c.hours), Pad2(c.minutes));
  }

  /** Two runs get the same name exactly when their readings agree on the
      day, month, year modulo 100, hour and minute. */
  lemma SameNameSameMinute(c: Clock, c': Clock)
    requires Plausible(c) && Plausible(c')
    ensures UniqueFilename(c) == UniqueFilename(c') <==>
            && c.day == c'.day && c.monthIndex == c'.monthIndex
            && c.fullYear % 100 == c'.fullYear % 100
            && c.hours == c'.hours && c.minutes == c'.minutes
  {
    if UniqueFilename(c) == UniqueFilename(c') {
      ParseUniqueFilename(c);
      ParseUniqueFilename(c');
    }
    if c.day == c'.day && c.monthIndex == c'.monthIndex && c.fullYear % 100 == c'.fullYear % 100
       && c.hours == c'.hours && c.minutes == c'.minutes {
      SameYearSuffix(c.fullYear, c'.fullYear);
    }
  }

  lemma SameYearSuffix(y: int, y': int)
    requires y >= 10 && y' >= 10 && y % 100 == y' % 100
    ensures YearSuffix(y) == YearSuffix(y')
  {
    YearSuffixDigits(y);
    YearSuffixDigits(y');
    SameTwoDigits(YearSuffix(y), YearSuffix(y'));
  }

  /** Two-digit strings are determined by the number they denote. */
  lemma SameTwoDigits(a: string, b: string)
    requires |a| == 2 && |b| == 2 && AllDigits(a) && AllDigits(b)
    requires ParseDigits(a) == ParseDigits(b)
    ensures a == b
  {
    TwoDigitValue(a[0], a[1]);
    TwoDigitValue(b[0], b[1]);
    assert a == [a[0], a[1]];
    assert b == [b[0], b[1]];
  }
}
