/** Prices are whole cents here. This module renders them the way the scripts
    print JavaScript numbers, reads such text back, and models the digit filter
    applied to a fare card's price text before it is parsed. */
module Money {
  import opened Wrappers
  import opened Text

  function Abs(c: int): nat {
    if c < 0 then -c else c
  }

  function Sign(c: int): string {
    if c < 0 then "-" else ""
  }

  /** `x.toFixed(2)` for `x = c / 100`: whole part, a point, two decimals. */
  function ToFixed2(c: int): (r: string)
    ensures |r| >= 4 && r[|r| - 3] == '.' && IsDigit(r[|r| - 2]) && IsDigit(r[|r| - 1])
    ensures IsDigit(r[0]) <==> c >= 0
    ensures c < 0 ==> r[0] == '-'
  {
    Sign(c) + (NatToString(Abs(c) / 100) + ['.', DigitChar(Abs(c) / 10 % 10), DigitChar(Abs(c) % 10)])
  }

  /** `String(x)` for `x = c / 100`: like `toFixed(2)` but without trailing
      zeros in the decimals, and without the point when none remain. */
  function NumberText(c: int): (r: string)
    ensures |r| >= 1
    ensures '.' in r <==> c % 100 != 0
    ensures IsDigit(r[0]) <==> c >= 0
    ensures c < 0 ==> r[0] == '-'
  {
    Sign(c) + (NatToString(Abs(c) / 100) + Decimals(Abs(c)))
  }

  /** The decimals of `String(x)`: none, one or two digits after a point. */
  function Decimals(a: nat): string {
    if a % 100 == 0 then ""
    else if a % 10 == 0 then ['.', DigitChar(a / 10 % 10)]
    else ['.', DigitChar(a / 10 % 10), DigitChar(a % 10)]
  }

  /** Reads `[-]digits[.d[d]]` as a number of cents. */
  function ParseDecimal(s: string): Option<int> {
    if |s| >= 1 && s[0] == '-' then
      match ParseUnsigned(s[1..])
      case Some(v) => Some(-v)
      case None => None
    else ParseUnsigned(s)
  }

  function ParseUnsigned(s: string): Option<int> {
    var n := |s|;
    if n >= 1 && AllDigits(s) then Some(ParseDigits(s) * 100)
    else if n >= 3 && s[n - 2] == '.' && AllDigits(s[..n - 2]) && IsDigit(s[n - 1]) then
      Some(ParseDigits(s[..n - 2]) * 100 + DigitValue(s[n - 1]) * 10)
    else if n >= 4 && s[n - 3] == '.' && AllDigits(s[..n - 3]) && IsDigit(s[n - 2]) && IsDigit(s[n - 1]) then
      Some(ParseDigits(s[..n - 3]) * 100 + DigitValue(s[n - 2]) * 10 + DigitValue(s[n - 1]))
    else None
  }

  lemma CentsDigits(a: nat)
    ensures a == a / 100 * 100 + a / 10 % 10 * 10 + a % 10
  {
    var q, t, u := a / 100, a / 10 % 10, a % 10;
    assert a / 10 == 10 * q + t;
  }

  /** Text with a point before the last two characters reads as whole part
      and two decimals. */
  lemma ParseAtTwoPlaces(s: string)
    requires |s| >= 4 && s[|s| - 3] == '.' && AllDigits(s[..|s| - 3])
    requires IsDigit(s[|s| - 2]) && IsDigit(s[|s| - 1])
    ensures ParseUnsigned(s) == Some(ParseDigits(s[..|s| - 3]) * 100
                                     + DigitValue(s[|s| - 2]) * 10 + DigitValue(s[|s| - 1]))
  {
    assert !IsDigit(s[|s| - 3]);
  }

  /** Text with a point before the last character reads as whole part and one
      decimal. */
  lemma ParseAtOnePlace(s: string)
    requires |s| >= 3 && s[|s| - 2] == '.' && AllDigits(s[..|s| - 2]) && IsDigit(s[|s| - 1])
    ensures ParseUnsigned(s) == Some(ParseDigits(s[..|s| - 2]) * 100 + DigitValue(s[|s| - 1]) * 10)
  {
    assert !IsDigit(s[|s| - 2]);
  }

  lemma ParseTwoDecimals(w: string, d1: char, d2: char)
    requires 1 <= |w| && AllDigits(w) && IsDigit(d1) && IsDigit(d2)
    ensures ParseUnsigned(w + ['.', d1, d2]) == Some(ParseDigits(w) * 100 + DigitValue(d1) * 10 + DigitValue(d2))
  {
    var n := |w| + 3;
    assert |w + ['.', d1, d2]| == n;
    assert (w + ['.', d1, d2])[..n - 3] == w;
    assert (w + ['.', d1, d2])[n - 3] == '.';
    assert (w + ['.', d1, d2])[n - 2] == d1;
    assert (w + ['.', d1, d2])[n - 1] == d2;
    ParseAtTwoPlaces(w + ['.', d1, d2]);
  }

  lemma ParseOneDecimal(w: string, d1: char)
    requires 1 <= |w| && AllDigits(w) && IsDigit(d1)
    ensures ParseUnsigned(w + ['.', d1]) == Some(ParseDigits(w) * 100 + DigitValue(d1) * 10)
  {
    var n := |w| + 2;
    assert |w + ['.', d1]| == n;
    assert (w + ['.', d1])[..n - 2] == w;
    assert (w + ['.', d1])[n - 2] == '.';
    assert (w + ['.', d1])[n - 1] == d1;
    ParseAtOnePlace(w + ['.', d1]);
  }

  lemma ParseSigned(c: int, body: string)
    requires ParseUnsigned(body) == Some(Abs(c))
    requires |body| >= 1 && IsDigit(body[0])
    ensures ParseDecimal(Sign(c) + body) == Some(c)
  {
    if c < 0 {
      var t := "-" + body;
      assert t[0] == '-' && t[1..] == body;
      assert Sign(c) + body == t;
    } else {
      assert Sign(c) + body == body;
      assert body[0] != '-';
    }
  }

  /** `toFixed(2)` text reads back as the same amount. */
  lemma ParseToFixed2(c: int)
    ensures ParseDecimal(ToFixed2(c)) == Some(c)
  {
    var a := Abs(c);
    var w := NatToString(a / 100);
    ParseTwoDecimals(w, DigitChar(a / 10 % 10), DigitChar(a % 10));
    CentsDigits(a);
    ParseSigned(c, w + ['.', DigitChar(a / 10 % 10), DigitChar(a % 10)]);
  }

  lemma ParseNumberBody(a: nat)
    ensures var b := NatToString(a / 100) + Decimals(a);
            ParseUnsigned(b) == Some(a) && IsDigit(b[0])
  {
    var w := NatToString(a / 100);
    CentsDigits(a);
    if a % 100 == 0 {
      WholeBody(a, w);
    } else if a % 10 == 0 {
      OneDecimalBody(a, w);
    } else {
      TwoDecimalBody(a, w);
    }
  }

  lemma WholeBody(a: nat, w: string)
    requires w == NatToString(a / 100) && a % 100 == 0
    ensures ParseUnsigned(w + Decimals(a)) == Some(a) && IsDigit((w + Decimals(a))[0])
  {
    assert w + Decimals(a) == w;
    assert a == a / 100 * 100;
  }

  lemma OneDecimalBody(a: nat, w: string)
    requires w == NatToString(a / 100) && a % 100 != 0 && a % 10 == 0
    ensures ParseUnsigned(w + Decimals(a)) == Some(a) && IsDigit((w + Decimals(a))[0])
  {
    var d1 := DigitChar(a / 10 % 10);
    assert w + Decimals(a) == w + ['.', d1];
    ParseOneDecimal(w, d1);
    CentsDigits(a);
  }

  lemma TwoDecimalBody(a: nat, w: string)
    requires w == NatToString(a / 100) && a % 10 != 0
    ensures ParseUnsigned(w + Decimals(a)) == Some(a) && IsDigit((w + Decimals(a))[0])
  {
    var d1, d2 := DigitChar(a / 10 % 10), DigitChar(a % 10);
    assert w + Decimals(a) == w + ['.', d1, d2];
    ParseTwoDecimals(w, d1, d2);
    CentsDigits(a);
  }

  /** Number text reads back as the same amount, and never ends in a zero
      decimal. */
  lemma ParseNumberText(c: int)
    ensures ParseDecimal(NumberText(c)) == Some(c)
    ensures '.' in NumberText(c) ==> NumberText(c)[|NumberText(c)| - 1] != '0'
  {
    ParseNumberBody(Abs(c));
    ParseSigned(c, NatToString(Abs(c) / 100) + Decimals(Abs(c)));
    DecimalsEndNonZero(Abs(c));
  }

  lemma DecimalsEndNonZero(a: nat)
    ensures var t := NatToString(a / 100) + Decimals(a);
            '.' in t ==> Decimals(a) != "" && t[|t| - 1] != '0'
  {
    var w := NatToString(a / 100);
    assert '.' !in w by {
      assert AllDigits(w);
    }
    if a % 100 != 0 && a % 10 == 0 {
      assert a / 10 % 10 != 0;
    }
  }

  predicate KeptInPrice(ch: char) {
    IsDigit(ch) || ch == ','
  }

  /** `text.replace(/[^\\d,]/g, '')`: only digits and commas survive. */
  function KeepDigitsAndCommas(s: string): (r: string)
    ensures forall i :: 0 <= i < |r| ==> KeptInPrice(r[i])
    ensures |r| <= |s|
    ensures (forall i :: 0 <= i < |s| ==> KeptInPrice(s[i])) ==> r == s
  {
    if s == [] then []
    else (if KeptInPrice(s[0]) then [s[0]] else []) + KeepDigitsAndCommas(s[1..])
  }

  /** A single character survives exactly when it is a digit or a comma. */
  lemma KeepOne(c: char)
    ensures KeepDigitsAndCommas([c]) == if KeptInPrice(c) then [c] else []
  {
    assert [c][1..] == [];
  }

  /** The filter works character by character: filtering two texts one after
      the other gives the filtered texts one after the other, so every digit
      and comma of the input survives, in order. */
  lemma {:induction false} KeepAppend(a: string, b: string)
    ensures KeepDigitsAndCommas(a + b) == KeepDigitsAndCommas(a) + KeepDigitsAndCommas(b)
    decreases |a|
  {
    if a != [] {
      assert (a + b)[1..] == a[1..] + b;
      KeepAppend(a[1..], b);
    } else {
      assert a + b == b;
    }
  }

  /** `.replace(',', '.')`: the first comma, if any, becomes a decimal point. */
  function ReplaceFirstComma(s: string): (r: string)
    ensures |r| == |s|
    ensures ',' !in s ==> r == s
  {
    if s == [] then []
    else if s[0] == ',' then "." + s[1..]
    else [s[0]] + ReplaceFirstComma(s[1..])
  }

  /** Where the first comma of a text sits. */
  function FirstComma(s: string): (i: nat)
    requires ',' in s
    ensures i < |s| && s[i] == ',' && ',' !in s[..i]
    decreases |s|
  {
    if s[0] == ',' then 0
    else
      assert s == [s[0]] + s[1..];
      var j := FirstComma(s[1..]);
      assert s[..j + 1] == [s[0]] + s[1..][..j];
      j + 1
  }

  /** The comma at `i` is the one replaced when none comes before it. */
  lemma {:induction false} ReplaceAt(s: string, i: nat)
    requires i < |s| && s[i] == ',' && ',' !in s[..i]
    ensures ReplaceFirstComma(s) == s[..i] + "." + s[i + 1..]
    decreases i
  {
    if i > 0 {
      var t := s[1..];
      assert s[0] == s[..i][0];
      assert t[..i - 1] == s[1..i];
      assert ',' !in t[..i - 1];
      ReplaceAt(t, i - 1);
      assert s[..i] == [s[0]] + t[..i - 1];
      assert t[i..] == s[i + 1..];
    }
  }

  /** A text with a comma has its first comma, and only that one, turned into
      a point. */
  lemma ReplacesFirstComma(s: string)
    ensures ',' in s ==> exists i :: 0 <= i < |s| && s[i] == ',' && ',' !in s[..i]
                                     && ReplaceFirstComma(s) == s[..i] + "." + s[i + 1..]
  {
    if ',' in s {
      var i := FirstComma(s);
      ReplaceAt(s, i);
    }
  }

  /** The text handed to `parseFloat` on a fare card's price. */
  function CleanPriceText(s: string): string {
    ReplaceFirstComma(KeepDigitsAndCommas(s))
  }

  /** Turning every decimal point back into a comma. */
  function PointsToCommas(s: string): string {
    if s == [] then [] else [if s[0] == '.' then ',' else s[0]] + PointsToCommas(s[1..])
  }

  function CountChar(s: string, c: char): nat {
    if s == [] then 0 else (if s[0] == c then 1 else 0) + CountChar(s[1..], c)
  }

  lemma {:induction false} ReplaceFirstCommaShape(s: string)
    requires '.' !in s
    ensures PointsToCommas(ReplaceFirstComma(s)) == s
    ensures CountChar(ReplaceFirstComma(s), '.') == (if ',' in s then 1 else 0)
    ensures CountChar(ReplaceFirstComma(s), ',') == (if ',' in s then CountChar(s, ',') - 1 else 0)
  {
    if s != [] {
      if s[0] == ',' {
        CommasStay(s[1..]);
        NoPointsCount(s[1..]);
        assert ("." + s[1..])[1..] == s[1..];
      } else {
        ReplaceFirstCommaShape(s[1..]);
        assert ([s[0]] + ReplaceFirstComma(s[1..]))[1..] == ReplaceFirstComma(s[1..]);
      }
    }
  }

  lemma {:induction false} CommasStay(s: string)
    requires '.' !in s
    ensures PointsToCommas(s) == s
  {
    if s != [] {
      CommasStay(s[1..]);
    }
  }

  lemma {:induction false} NoPointsCount(s: string)
    requires '.' !in s
    ensures CountChar(s, '.') == 0
  {
    if s != [] {
      NoPointsCount(s[1..]);
    }
  }

  /** The cleaned price text has digits and commas only, except that the
      first comma (if any) became the one decimal point; turning that point
      back into a comma restores the filtered text. */
  lemma CleanPriceTextShape(s: string)
    ensures var t := CleanPriceText(s);
            && PointsToCommas(t) == KeepDigitsAndCommas(s)
            && CountChar(t, '.') == (if ',' in KeepDigitsAndCommas(s) then 1 else 0)
    ensures var k, t := KeepDigitsAndCommas(s), CleanPriceText(s);
            && (',' !in k ==> t == k)
            && (',' in k ==> exists i :: 0 <= i < |k| && k[i] == ',' && ',' !in k[..i]
                                         && t == k[..i] + "." + k[i + 1..])
  {
    var k := KeepDigitsAndCommas(s);
    assert '.' !in k;
    ReplaceFirstCommaShape(k);
    ReplacesFirstComma(k);
  }
}
