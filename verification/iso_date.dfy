/** The `YYYY-MM-DD` text a script takes from `toISOString().split('T')[0]`,
    read as a pure calendar date, and a parser that reads it back. */
module IsoDate {
  import opened Wrappers
  import opened Text
  import opened Calendar

  /** Years 0..9999 print as four digits; others as a sign and six digits. */
  function YearText(y: int): string {
    if 0 <= y <= 9999 then PadStart(NatToString(y), 4, '0')
    else if y < 0 then "-" + PadStart(NatToString(-y), 6, '0')
    else "+" + PadStart(NatToString(y), 6, '0')
  }

  /** `toISOString().split('T')[0]` of a date: the text of every valid date
      reads back as that date. */
  function Format(d: Date): (s: string)
    ensures ValidDate(d) ==> Parse(s) == Some(d)
  {
    TextReadsBack(d);
    YearText(d.year) + MonthDayText(d.month, d.day)
  }

  /** The `-MM-DD` part of the text. */
  function MonthDayText(m: nat, d: nat): string {
    "-" + PadStart(NatToString(m), 2, '0') + "-" + PadStart(NatToString(d), 2, '0')
  }

  function ParseYear(t: string): Option<int> {
    if |t| >= 2 && t[0] == '-' && AllDigits(t[1..]) then Some(0 - ParseDigits(t[1..]) as int)
    else if |t| >= 2 && t[0] == '+' && AllDigits(t[1..]) then Some(ParseDigits(t[1..]))
    else if |t| >= 1 && AllDigits(t) then Some(ParseDigits(t))
    else None
  }

  /** Reads `<year>-MM-DD` back into a date; `None` for anything else. */
  function Parse(s: string): (r: Option<Date>)
    ensures r.Some? ==> ValidDate(r.value)
  {
    if |s| < 7 then None
    else
      var n := |s|;
      var mm, dd := s[n - 5..n - 3], s[n - 2..];
      if s[n - 6] != '-' || s[n - 3] != '-' || !AllDigits(mm) || !AllDigits(dd) then None
      else
        match ParseYear(s[..n - 6])
        case None => None
        case Some(y) =>
          var d := Date(y, ParseDigits(mm), ParseDigits(dd));
          if ValidDate(d) then Some(d) else None
  }

  /** A signed year reads back through the sign branch of `ParseYear`. */
  lemma ParseSignedYear(sign: char, m: nat)
    requires sign == '-' || sign == '+'
    ensures var v: int := if sign == '-' then -(m as int) else m;
            ParseYear([sign] + PadStart(NatToString(m), 6, '0')) == Some(v)
  {
    var p := PadStart(NatToString(m), 6, '0');
    ParsePadded(NatToString(m), 6);
    var t := [sign] + p;
    assert t[1..] == p;
    assert AllDigits(t[1..]) && ParseDigits(t[1..]) == m;
    if sign == '-' {
      assert ParseYear(t) == Some(-(m as int));
    } else {
      assert ParseYear(t) == Some(m as int);
    }
  }

  /** The year text has the two `toISOString` forms: four digits for years
      0..9999, otherwise a sign and at least six digits (exactly six for the
      years within a million of year 0); either reads back as the year. */
  lemma ParseYearText(y: int)
    ensures |YearText(y)| >= 4
    ensures ParseYear(YearText(y)) == Some(y)
    ensures 0 <= y <= 9999 ==> |YearText(y)| == 4 && AllDigits(YearText(y))
    ensures !(0 <= y <= 9999) ==>
              && |YearText(y)| >= 7 && AllDigits(YearText(y)[1..])
              && YearText(y)[0] == (if y < 0 then '-' else '+')
    ensures !(0 <= y <= 9999) && -999999 <= y <= 999999 ==> |YearText(y)| == 7
  {
    if 0 <= y <= 9999 {
      var t := PadStart(NatToString(y), 4, '0');
      ParsePadded(NatToString(y), 4);
      assert Pow10(4) == 10000;
      NatToStringFits(y, 4);
      assert IsDigit(t[0]);
    } else {
      var m: nat := if y < 0 then -y else y;
      var p := PadStart(NatToString(m), 6, '0');
      ParsePadded(NatToString(m), 6);
      if m <= 999999 {
        assert Pow10(6) == 1000000;
        NatToStringFits(m, 6);
      }
      if y < 0 {
        ParseSignedYear('-', m);
        assert YearText(y) == "-" + p && YearText(y)[1..] == p;
      } else {
        ParseSignedYear('+', m);
        assert YearText(y) == "+" + p && YearText(y)[1..] == p;
      }
    }
  }

  /** Every valid date is read back from its text. */
  lemma ParseFormat(d: Date)
    requires ValidDate(d)
    ensures Parse(Format(d)) == Some(d)
  {
  }

  lemma TextReadsBack(d: Date)
    ensures ValidDate(d) ==> Parse(YearText(d.year) + MonthDayText(d.month, d.day)) == Some(d)
  {
    if ValidDate(d) {
      PadTwo(d.month);
      PadTwo(d.day);
      ParseYearText(d.year);
      ParseParts(YearText(d.year), PadStart(NatToString(d.month), 2, '0'),
                 PadStart(NatToString(d.day), 2, '0'), d);
    }
  }

  /** Text built from a readable year and two two-digit fields reads back as
      the date they spell. */
  lemma ParseParts(yt: string, mm: string, dd: string, d: Date)
    requires |yt| >= 1 && ParseYear(yt) == Some(d.year)
    requires |mm| == 2 && AllDigits(mm) && ParseDigits(mm) == d.month
    requires |dd| == 2 && AllDigits(dd) && ParseDigits(dd) == d.day
    requires ValidDate(d)
    ensures Parse(yt + ("-" + mm + "-" + dd)) == Some(d)
  {
    var tail := "-" + mm + "-" + dd;
    TailParts(mm, dd);
    var s := yt + tail;
    SplitTail(yt, tail);
    var n := |s|;
    assert s[..n - 6] == yt;
    assert s[n - 6..] == tail;
    assert s[n - 6] == '-' && s[n - 3] == '-';
    assert s[n - 5..n - 3] == mm;
    assert s[n - 2..] == dd;
  }

  lemma SplitTail(a: string, b: string)
    ensures (a + b)[..|a|] == a && (a + b)[|a|..] == b
  {
  }

  lemma TailParts(mm: string, dd: string)
    requires |mm| == 2 && |dd| == 2
    ensures var t := "-" + mm + "-" + dd;
            |t| == 6 && t[0] == '-' && t[3] == '-' && t[1..3] == mm && t[4..] == dd
  {
  }
}
