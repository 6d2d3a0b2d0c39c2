/** Character and string helpers shared by the CSV, file-name and URL builders:
    decimal rendering as JavaScript's `String(n)` produces it, `padStart`,
    `slice(-k)`, and `Array.prototype.join` with its inverse `split`. */
module Text {
  import opened Wrappers

  predicate IsDigit(c: char) {
    '0' <= c <= '9'
  }

  predicate AllDigits(s: string) {
    forall i :: 0 <= i < |s| ==> IsDigit(s[i])
  }

  function DigitValue(c: char): int {
    c as int - '0' as int
  }

  function DigitChar(d: nat): (c: char)
    requires d < 10
    ensures IsDigit(c) && DigitValue(c) == d
  {
    ('0' as int + d) as char
  }

  /** The number a string of decimal digits denotes (leading zeros allowed). */
  function ParseDigits(s: string): (n: nat)
    requires AllDigits(s)
  {
    if s == [] then 0
    else ParseDigits(s[..|s| - 1]) * 10 + DigitValue(s[|s| - 1])
  }

  /** `String(n)` for a non-negative integer: the shortest decimal rendering. */
  function NatToString(n: nat): (s: string)
    ensures AllDigits(s)
    ensures ParseDigits(s) == n
    ensures 1 <= |s|
    ensures |s| == 1 <==> n < 10
    ensures n < 100 ==> |s| <= 2
    ensures |s| > 1 ==> s[0] != '0'
  {
    if n < 10 then [DigitChar(n)]
    else
      var s := NatToString(n / 10) + [DigitChar(n % 10)];
      assert s[..|s| - 1] == NatToString(n / 10);
      s
  }

  function Pow10(k: nat): nat {
    if k == 0 then 1 else 10 * Pow10(k - 1)
  }

  /** A number below `10^k` prints in at most `k` digits. */
  lemma {:induction false} NatToStringFits(n: nat, k: nat)
    requires 1 <= k && n < Pow10(k)
    ensures |NatToString(n)| <= k
    decreases k
  {
    if n >= 10 {
      assert k >= 2;
      NatToStringFits(n / 10, k - 1);
      assert NatToString(n) == NatToString(n / 10) + [DigitChar(n % 10)];
    }
  }

  /** `String(i)` for any integer: a minus sign before the magnitude. */
  function IntToString(i: int): (s: string)
    ensures i >= 0 ==> AllDigits(s) && ParseDigits(s) == i
    ensures i < 0 ==> |s| >= 2 && s[0] == '-' && AllDigits(s[1..]) && ParseDigits(s[1..]) == -i
  {
    if i < 0 then "-" + NatToString(-i) else NatToString(i)
  }

  /** `s.padStart(width, fill)`: fill characters prepended up to `width`. */
  function PadStart(s: string, width: nat, fill: char): (r: string)
    ensures |r| == if |s| >= width then |s| else width
    decreases width - |s|
  {
    if |s| >= width then s else PadStart([fill] + s, width, fill)
  }

  /** Leading zeros do not change the number a digit string denotes. */
  lemma {:induction false} ParseDigitsLeadingZero(s: string)
    requires AllDigits(s)
    ensures AllDigits("0" + s) && ParseDigits("0" + s) == ParseDigits(s)
  {
    if s != [] {
      var t := "0" + s;
      assert t[..|t| - 1] == "0" + s[..|s| - 1];
      ParseDigitsLeadingZero(s[..|s| - 1]);
    }
  }

  /** Zero-padding a decimal rendering keeps its value: `padStart(2, '0')`
      can be read back. */
  lemma {:induction false} ParsePadded(s: string, width: nat)
    requires AllDigits(s)
    ensures AllDigits(PadStart(s, width, '0'))
    ensures ParseDigits(PadStart(s, width, '0')) == ParseDigits(s)
    decreases width - |s|
  {
    if |s| < width {
      ParseDigitsLeadingZero(s);
      ParsePadded("0" + s, width);
    }
  }

  /** `s.slice(-k)`: the last `k` characters, or all of `s` when it is shorter. */
  function LastChars(s: string, k: nat): (r: string)
    ensures |r| == if |s| <= k then |s| else k
    ensures s == s[..|s| - |r|] + r
  {
    if |s| <= k then s else s[|s| - k..]
  }

  /** The last two digits of `String(n)` denote `n % 100` once `n >= 10`. */
  lemma LastTwoDigits(n: nat)
    requires n >= 10
    ensures |LastChars(NatToString(n), 2)| == 2
    ensures AllDigits(LastChars(NatToString(n), 2))
    ensures ParseDigits(LastChars(NatToString(n), 2)) == n % 100
  {
    var s := NatToString(n);
    var p := NatToString(n / 10);
    var hi := DigitChar(n / 10 % 10);
    var lo := DigitChar(n % 10);
    assert s == p + [lo];
    LastDigit(n / 10);
    assert p[|p| - 1] == hi;
    var t := LastChars(s, 2);
    assert t == s[|s| - 2..];
    assert t == [hi, lo];
    TwoDigitValue(hi, lo);
    TensAndUnits(n);
  }

  lemma TwoDigitValue(hi: char, lo: char)
    requires IsDigit(hi) && IsDigit(lo)
    ensures AllDigits([hi, lo])
    ensures ParseDigits([hi, lo]) == DigitValue(hi) * 10 + DigitValue(lo)
  {
    assert [hi, lo][..1] == [hi];
    assert [hi][..0] == [];
    assert ParseDigits([hi]) == ParseDigits([]) * 10 + DigitValue(hi);
    assert ParseDigits([hi, lo]) == ParseDigits([hi]) * 10 + DigitValue(lo);
  }

  lemma TensAndUnits(n: nat)
    ensures n / 10 % 10 * 10 + n % 10 == n % 100
  {
    var a, b, c := n / 100, n / 10 % 10, n % 10;
    assert n / 10 == 10 * a + b;
    assert n == 100 * a + (10 * b + c);
  }

  /** The final character of `String(n)` is the digit `n % 10`. */
  lemma LastDigit(n: nat)
    ensures NatToString(n)[|NatToString(n)| - 1] == DigitChar(n % 10)
  {
  }

  /** `parts.join(sep)`. An empty array joins to the empty string. */
  function Join(parts: seq<string>, sep: char): (r: string)
    ensures |parts| == 1 ==> r == parts[0]
  {
    if parts == [] then ""
    else if |parts| == 1 then parts[0]
    else parts[0] + [sep] + Join(parts[1..], sep)
  }

  /** `s.split(sep)` for a one-character separator: the pieces between the
      separators, always at least one. */
  function Split(s: string, sep: char): (r: seq<string>)
    ensures |r| >= 1
    ensures forall i :: 0 <= i < |r| ==> sep !in r[i]
  {
    if s == [] then [""]
    else
      var rest := Split(s[1..], sep);
      if s[0] == sep then [""] + rest
      else [[s[0]] + rest[0]] + rest[1..]
  }

  /** A string without the separator splits into itself. */
  lemma {:induction false} SplitNoSeparator(a: string, sep: char)
    requires sep !in a
    ensures Split(a, sep) == [a]
  {
    if a != [] {
      SplitNoSeparator(a[1..], sep);
      assert a[0] != sep;
      assert [a[0]] + a[1..] == a;
    }
  }

  /** Splitting at the first separator peels off the text before it. */
  lemma {:induction false} SplitFirst(a: string, sep: char, b: string)
    requires sep !in a
    ensures Split(a + [sep] + b, sep) == [a] + Split(b, sep)
  {
    if a == [] {
      assert a + [sep] + b == [sep] + b;
      assert ([sep] + b)[1..] == b;
    } else {
      SplitFirst(a[1..], sep, b);
      assert (a + [sep] + b)[1..] == a[1..] + [sep] + b;
      assert [a[0]] + a[1..] == a;
    }
  }

  /** `join` followed by `split` gives back the parts, as long as no part
      contains the separator. */
  lemma {:induction false} SplitJoin(parts: seq<string>, sep: char)
    requires |parts| >= 1
    requires forall i :: 0 <= i < |parts| ==> sep !in parts[i]
    ensures Split(Join(parts, sep), sep) == parts
  {
    if |parts| == 1 {
      SplitNoSeparator(parts[0], sep);
    } else {
      SplitJoin(parts[1..], sep);
      SplitFirst(parts[0], sep, Join(parts[1..], sep));
      assert parts == [parts[0]] + parts[1..];
    }
  }

  /** A joined string contains the separator only where `join` put it. */
  lemma {:induction false} JoinAvoids(parts: seq<string>, sep: char, c: char)
    requires c != sep
    requires forall i :: 0 <= i < |parts| ==> c !in parts[i]
    ensures c !in Join(parts, sep)
  {
    if |parts| > 1 {
      JoinAvoids(parts[1..], sep, c);
    }
  }

  /** `rows.map(row => row.join(fieldSep)).join(lineSep)`: a table as text. */
  function JoinRows(rows: seq<seq<string>>, fieldSep: char, lineSep: char): string {
    Join(seq(|rows|, i requires 0 <= i < |rows| => Join(rows[i], fieldSep)), lineSep)
  }

  /** A table with a header row opens with the header line, followed by a
      line separator exactly when there are more rows. */
  lemma JoinRowsHead(header: seq<string>, body: seq<seq<string>>, fieldSep: char, lineSep: char)
    ensures var t, h := JoinRows([header] + body, fieldSep, lineSep), Join(header, fieldSep);
            && |t| >= |h| && t[..|h|] == h
            && (body == [] ==> t == h)
            && (body != [] ==> |t| > |h| && t[|h|] == lineSep)
  {
    var rows := [header] + body;
    var lines := seq(|rows|, i requires 0 <= i < |rows| => Join(rows[i], fieldSep));
    assert lines[0] == Join(header, fieldSep);
  }

  /** Row `i` of a header followed by a body. */
  lemma TableRow<T>(header: T, body: seq<T>, i: int)
    requires 0 <= i <= |body|
    ensures ([header] + body)[i] == if i == 0 then header else body[i - 1]
  {
  }

  /** Text that cannot break a CSV layout: no comma and no newline. */
  predicate Plain(s: string) {
    ',' !in s && '\n' !in s
  }

  /** No cell of the table contains either separator. */
  predicate CellsAvoid(rows: seq<seq<string>>, fieldSep: char, lineSep: char) {
    forall i, j :: 0 <= i < |rows| && 0 <= j < |rows[i]| ==>
      fieldSep !in rows[i][j] && lineSep !in rows[i][j]
  }

  /** The header's and the body's cells avoiding both separators, so do the
      table's. */
  lemma TableAvoids(header: seq<string>, body: seq<seq<string>>, fieldSep: char, lineSep: char)
    requires forall j :: 0 <= j < |header| ==> fieldSep !in header[j] && lineSep !in header[j]
    requires forall i, j :: 0 <= i < |body| && 0 <= j < |body[i]| ==>
               fieldSep !in body[i][j] && lineSep !in body[i][j]
    ensures CellsAvoid([header] + body, fieldSep, lineSep)
  {
    var rows := [header] + body;
    forall i, j | 0 <= i < |rows| && 0 <= j < |rows[i]|
      ensures fieldSep !in rows[i][j] && lineSep !in rows[i][j]
    {
      TableRow(header, body, i);
    }
  }

  /** A table whose cells contain neither separator splits back into its
      lines, and every line into its cells. */
  lemma SplitJoinRows(rows: seq<seq<string>>, fieldSep: char, lineSep: char)
    requires fieldSep != lineSep && |rows| >= 1
    requires forall i :: 0 <= i < |rows| ==> |rows[i]| >= 1
    requires CellsAvoid(rows, fieldSep, lineSep)
    ensures var lines := Split(JoinRows(rows, fieldSep, lineSep), lineSep);
            && |lines| == |rows|
            && forall i :: 0 <= i < |rows| ==> Split(lines[i], fieldSep) == rows[i]
  {
    var lines := seq(|rows|, i requires 0 <= i < |rows| => Join(rows[i], fieldSep));
    forall i | 0 <= i < |rows|
      ensures lineSep !in lines[i]
      ensures Split(lines[i], fieldSep) == rows[i]
    {
      JoinAvoids(rows[i], fieldSep, lineSep);
      SplitJoin(rows[i], fieldSep);
    }
    SplitJoin(lines, lineSep);
  }

  /** A header row followed by body rows, written out as a table, splits
      back into one line per row: the header first, then each body row. */
  lemma TableLayout(header: seq<string>, body: seq<seq<string>>, fieldSep: char, lineSep: char)
    requires fieldSep != lineSep && |header| >= 1
    requires forall i :: 0 <= i < |body| ==> |body[i]| >= 1
    requires CellsAvoid([header] + body, fieldSep, lineSep)
    ensures var lines := Split(JoinRows([header] + body, fieldSep, lineSep), lineSep);
            && |lines| == 1 + |body|
            && Split(lines[0], fieldSep) == header
            && forall i :: 0 <= i < |body| ==> Split(lines[i + 1], fieldSep) == body[i]
  {
    var rows := [header] + body;
    forall i | 0 <= i < |rows| ensures |rows[i]| >= 1 {
      TableRow(header, body, i);
    }
    SplitJoinRows(rows, fieldSep, lineSep);
    forall i | 0 <= i < |body| ensures rows[i + 1] == body[i] {
      TableRow(header, body, i + 1);
    }
  }

  /** Reads an optionally negative decimal integer. */
  function ParseInt(s: string): Option<int> {
    if |s| >= 2 && s[0] == '-' && AllDigits(s[1..]) then Some(0 - ParseDigits(s[1..]))
    else if |s| >= 1 && AllDigits(s) then Some(ParseDigits(s))
    else None
  }

  /** `String(i)` reads back as `i`. */
  lemma ParseIntToString(i: int)
    ensures ParseInt(IntToString(i)) == Some(i)
  {
    var s := IntToString(i);
    if i >= 0 {
      assert IsDigit(s[0]);
    }
  }

  /** `String(n).padStart(2, '0')` for `n < 100`: exactly two digits that
      read back as `n`. */
  lemma PadTwo(n: nat)
    requires n < 100
    ensures |PadStart(NatToString(n), 2, '0')| == 2
    ensures AllDigits(PadStart(NatToString(n), 2, '0'))
    ensures ParseDigits(PadStart(NatToString(n), 2, '0')) == n
  {
    ParsePadded(NatToString(n), 2);
  }
}
