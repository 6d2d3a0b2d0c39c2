/** The CSV text `writeCSV` builds in the browser-driven script: a header row
    and one row per priced round trip, fields joined by commas and rows by
    newlines. Field values are not quoted or escaped. */
module ItineraryCsv {
  import opened Wrappers
  import opened Text
  import opened Money
  import opened Calendar
  import IsoDate
  import opened RouteProcessor

  const Header: seq<string> := ["From", "To", "Depart", "Return", "Price To", "Price Back", "Total"]

  function Fields(r: Itinerary): (f: seq<string>)
    ensures |f| == 7
  {
    [ r.from, r.to, IsoDate.Format(r.depart), IsoDate.Format(r.ret),
      ToFixed2(r.priceTo), ToFixed2(r.priceBack), ToFixed2(r.total) ]
  }

  /** The header row followed by one row per record. */
  function Rows(rs: seq<Itinerary>): seq<seq<string>> {
    [Header] + Body(rs)
  }

  function Body(rs: seq<Itinerary>): seq<seq<string>> {
    seq(|rs|, i requires 0 <= i < |rs| => Fields(rs[i]))
  }

  /** The file text: the header line first, then a newline and one line per
      record; no records leave the header line alone, without a newline. */
  function CsvText(rs: seq<Itinerary>): (t: string)
    ensures var h := Join(Header, ',');
            && |t| >= |h| && t[..|h|] == h
            && (rs == [] ==> t == h)
            && (rs != [] ==> |t| > |h| && t[|h|] == '\n')
  {
    JoinRowsHead(Header, Body(rs), ',', '\n');
    JoinRows(Rows(rs), ',', '\n')
  }

  lemma DigitsArePlain(s: string)
    requires AllDigits(s)
    ensures Plain(s)
  {
  }

  lemma PaddedIsPlain(n: nat, width: nat)
    ensures Plain(PadStart(NatToString(n), width, '0'))
  {
    ParsePadded(NatToString(n), width);
    DigitsArePlain(PadStart(NatToString(n), width, '0'));
  }

  lemma DateTextIsPlain(d: Date)
    ensures Plain(IsoDate.Format(d))
  {
    PaddedIsPlain(d.month, 2);
    PaddedIsPlain(d.day, 2);
    PaddedIsPlain(if d.year < 0 then -d.year else d.year, 4);
    PaddedIsPlain(if d.year < 0 then -d.year else d.year, 6);
  }

  lemma AmountTextIsPlain(c: int)
    ensures Plain(ToFixed2(c))
  {
    DigitsArePlain(NatToString(Abs(c) / 100));
  }

  /** The generated fields never contain a delimiter; only the airport codes
      could. */
  lemma FieldsArePlain(r: Itinerary)
    requires Plain(r.from) && Plain(r.to)
    ensures |Fields(r)| == 7
    ensures forall i :: 0 <= i < 7 ==> Plain(Fields(r)[i])
  {
    forall i | 0 <= i < 7 ensures Plain(Fields(r)[i]) {
      FieldIsPlain(r, i);
    }
  }

  lemma FieldIsPlain(r: Itinerary, i: int)
    requires Plain(r.from) && Plain(r.to)
    requires 0 <= i < 7
    ensures Plain(Fields(r)[i])
  {
    var f := Fields(r);
    if i == 2 {
      assert f[2] == IsoDate.Format(r.depart);
      DateTextIsPlain(r.depart);
    } else if i == 3 {
      assert f[3] == IsoDate.Format(r.ret);
      DateTextIsPlain(r.ret);
    } else if i == 4 {
      assert f[4] == ToFixed2(r.priceTo);
      AmountTextIsPlain(r.priceTo);
    } else if i == 5 {
      assert f[5] == ToFixed2(r.priceBack);
      AmountTextIsPlain(r.priceBack);
    } else if i == 6 {
      assert f[6] == ToFixed2(r.total);
      AmountTextIsPlain(r.total);
    }
  }


  /** One row splits back into its seven fields: the airport codes, the two
      dates and the three amounts, each of which reads back as the value it
      renders. */
  lemma RowReadsBack(r: Itinerary)
    requires Plain(r.from) && Plain(r.to)
    requires ValidDate(r.depart) && ValidDate(r.ret)
    ensures var f := Split(Join(Fields(r), ','), ',');
            && |f| == 7
            && f[0] == r.from && f[1] == r.to
            && IsoDate.Parse(f[2]) == Some(r.depart) && IsoDate.Parse(f[3]) == Some(r.ret)
            && ParseDecimal(f[4]) == Some(r.priceTo) && ParseDecimal(f[5]) == Some(r.priceBack)
            && ParseDecimal(f[6]) == Some(r.total)
  {
    FieldsArePlain(r);
    SplitJoin(Fields(r), ',');
    IsoDate.ParseFormat(r.depart);
    IsoDate.ParseFormat(r.ret);
    ParseToFixed2(r.priceTo);
    ParseToFixed2(r.priceBack);
    ParseToFixed2(r.total);
  }

  /** The file has one line per record after the header, and every line
      splits into exactly the seven header or record fields. */
  lemma CsvLayout(rs: seq<Itinerary>)
    requires forall i :: 0 <= i < |rs| ==> Plain(rs[i].from) && Plain(rs[i].to)
    ensures var lines := Split(CsvText(rs), '\n');
            && |lines| == 1 + |rs|
            && Split(lines[0], ',') == Header
            && forall i :: 0 <= i < |rs| ==> Split(lines[i + 1], ',') == Fields(rs[i])
  {
    RowsArePlain(rs);
    forall i | 0 <= i < |rs| ensures Body(rs)[i] == Fields(rs[i]) && |Body(rs)[i]| >= 1 {
      BodyRow(rs, i);
    }
    TableLayout(Header, Body(rs), ',', '\n');
  }

  /** Row `k` of the body is the fields of record `k`. */
  lemma BodyRow(rs: seq<Itinerary>, k: int)
    requires 0 <= k < |rs|
    ensures Body(rs)[k] == Fields(rs[k])
  {
  }

  lemma RowsArePlain(rs: seq<Itinerary>)
    requires forall i :: 0 <= i < |rs| ==> Plain(rs[i].from) && Plain(rs[i].to)
    ensures CellsAvoid([Header] + Body(rs), ',', '\n')
  {
    HeaderWidth();
    forall j | 0 <= j < |Header| ensures Plain(Header[j]) {
      HeaderCellIsPlain(j);
    }
    var body := Body(rs);
    forall i, j | 0 <= i < |body| && 0 <= j < |body[i]| ensures Plain(body[i][j]) {
      BodyRow(rs, i);
      FieldsArePlain(rs[i]);
    }
    TableAvoids(Header, body, ',', '\n');
  }

  lemma HeaderWidth()
    ensures |Header| == 7
  {
  }

  lemma HeaderCellIsPlain(j: int)
    requires 0 <= j < 7
    ensures Plain(Header[j])
  {
  }
}
