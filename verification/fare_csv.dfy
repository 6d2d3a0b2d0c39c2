/** The CSV text `writeCSV` builds in the fare-API script: a header row and
    one row per round-trip fare, with the two flights described in words and
    the three prices printed with their currency. Cells are not quoted or
    escaped. */
module FareCsv {
  import opened Wrappers
  import opened Text
  import opened Money

  /** A price as the fare API reports it; the amount is in cents. */
  datatype Price = Price(value: int, currencyCode: string)

  /** One flight of a fare. Dates are the API's text, copied unchanged. */
  datatype Flight = Flight(
    departureDate: string, arrivalDate: string,
    departureAirport: string, arrivalAirport: string,
    price: Price)

  /** A round-trip fare; `summary` is the API's total price. */
  datatype Fare = Fare(outbound: Flight, inbound: Flight, summary: Price)

  const FareHeader: seq<string> :=
    ["Outbound Flight", "Return Flight", "Outbound Price", "Return Price", "Total Price"]

  /** `departure - arrival (from -> to)`. */
  function FlightText(f: Flight): string {
    f.departureDate + " - " + f.arrivalDate + " (" + f.departureAirport + " -> " + f.arrivalAirport + ")"
  }

  /** The amount as JavaScript prints the number, a space, the currency. */
  function PriceText(p: Price): string {
    NumberText(p.value) + [' '] + p.currencyCode
  }

  function FareFields(f: Fare): (cells: seq<string>)
    ensures |cells| == 5
  {
    [ FlightText(f.outbound), FlightText(f.inbound),
      PriceText(f.outbound.price), PriceText(f.inbound.price), PriceText(f.summary) ]
  }

  function FareBody(fares: seq<Fare>): seq<seq<string>> {
    seq(|fares|, i requires 0 <= i < |fares| => FareFields(fares[i]))
  }

  /** The file text: the header line first, then a newline and one line per
      fare; no fares leave the header line alone, without a newline. */
  function FareCsvText(fares: seq<Fare>): (t: string)
    ensures var h := Join(FareHeader, ',');
            && |t| >= |h| && t[..|h|] == h
            && (fares == [] ==> t == h)
            && (fares != [] ==> |t| > |h| && t[|h|] == '\n')
  {
    JoinRowsHead(FareHeader, FareBody(fares), ',', '\n');
    JoinRows([FareHeader] + FareBody(fares), ',', '\n')
  }

  /** The text fields of a flight that end up inside a cell. */
  predicate PlainFlight(f: Flight) {
    && Plain(f.departureDate) && Plain(f.arrivalDate)
    && Plain(f.departureAirport) && Plain(f.arrivalAirport)
    && Plain(f.price.currencyCode)
  }

  predicate PlainFare(f: Fare) {
    PlainFlight(f.outbound) && PlainFlight(f.inbound) && Plain(f.summary.currencyCode)
  }

  /** Printed numbers consist of digits, a point and a minus sign only. */
  lemma NumberTextChars(c: int)
    ensures forall ch :: ch in NumberText(c) ==> IsDigit(ch) || ch == '.' || ch == '-'
  {
    var w := NatToString(Abs(c) / 100);
    var d := Decimals(Abs(c));
    assert AllDigits(w);
    assert forall ch :: ch in d ==> IsDigit(ch) || ch == '.';
    assert NumberText(c) == Sign(c) + (w + d);
  }

  lemma FlightTextIsPlain(f: Flight)
    requires PlainFlight(f)
    ensures Plain(FlightText(f))
  {
  }

  lemma PriceTextIsPlain(p: Price)
    requires Plain(p.currencyCode)
    ensures Plain(PriceText(p))
  {
    NumberTextChars(p.value);
  }

  /** A price cell splits at its space into the printed number, which reads
      back as the amount, and the currency code. */
  lemma PriceTextReadsBack(p: Price)
    requires ' ' !in p.currencyCode
    ensures var parts := Split(PriceText(p), ' ');
            && |parts| == 2
            && ParseDecimal(parts[0]) == Some(p.value)
            && parts[1] == p.currencyCode
  {
    NumberTextChars(p.value);
    SplitFirst(NumberText(p.value), ' ', p.currencyCode);
    SplitNoSeparator(p.currencyCode, ' ');
    ParseNumberText(p.value);
  }

  /** A flight cell opens with the departure date, a dash and the arrival
      date, when neither date holds a space, and closes with a bracket. */
  lemma FlightTextReadsBack(f: Flight)
    requires ' ' !in f.departureDate && ' ' !in f.arrivalDate
    ensures var words := Split(FlightText(f), ' ');
            && |words| >= 4
            && words[0] == f.departureDate && words[1] == "-" && words[2] == f.arrivalDate
    ensures FlightText(f)[|FlightText(f)| - 1] == ')'
  {
    var tail := "(" + f.departureAirport + " -> " + f.arrivalAirport + ")";
    var afterArrival := [' '] + tail;
    assert FlightText(f) == f.departureDate + [' '] + ("-" + [' '] + (f.arrivalDate + afterArrival));
    SplitFirst(f.departureDate, ' ', "-" + [' '] + (f.arrivalDate + afterArrival));
    SplitFirst("-", ' ', f.arrivalDate + afterArrival);
    assert f.arrivalDate + afterArrival == f.arrivalDate + [' '] + tail;
    SplitFirst(f.arrivalDate, ' ', tail);
  }

  lemma FareFieldsArePlain(f: Fare)
    requires PlainFare(f)
    ensures forall j :: 0 <= j < 5 ==> Plain(FareFields(f)[j])
  {
    FlightTextIsPlain(f.outbound);
    FlightTextIsPlain(f.inbound);
    PriceTextIsPlain(f.outbound.price);
    PriceTextIsPlain(f.inbound.price);
    PriceTextIsPlain(f.summary);
  }

  /** Row `k` of the body is the cells of fare `k`. */
  lemma FareBodyRow(fares: seq<Fare>, k: int)
    requires 0 <= k < |fares|
    ensures FareBody(fares)[k] == FareFields(fares[k])
  {
  }

  lemma FareHeaderCellIsPlain(j: int)
    requires 0 <= j < 5
    ensures Plain(FareHeader[j])
  {
  }

  lemma FareRowsArePlain(fares: seq<Fare>)
    requires forall i :: 0 <= i < |fares| ==> PlainFare(fares[i])
    ensures CellsAvoid([FareHeader] + FareBody(fares), ',', '\n')
  {
    FareHeaderWidth();
    forall j | 0 <= j < |FareHeader| ensures Plain(FareHeader[j]) {
      FareHeaderCellIsPlain(j);
    }
    var body := FareBody(fares);
    forall i, j | 0 <= i < |body| && 0 <= j < |body[i]| ensures Plain(body[i][j]) {
      FareBodyRow(fares, i);
      FareFieldsArePlain(fares[i]);
    }
    TableAvoids(FareHeader, body, ',', '\n');
  }

  lemma FareHeaderWidth()
    ensures |FareHeader| == 5
  {
  }

  /** The file has one line per fare after the header, and every line splits
      into exactly the five header or fare cells. */
  lemma FareCsvLayout(fares: seq<Fare>)
    requires forall i :: 0 <= i < |fares| ==> PlainFare(fares[i])
    ensures var lines := Split(FareCsvText(fares), '\n');
            && |lines| == 1 + |fares|
            && Split(lines[0], ',') == FareHeader
            && forall i :: 0 <= i < |fares| ==> Split(lines[i + 1], ',') == FareFields(fares[i])
  {
    FareRowsArePlain(fares);
    forall i | 0 <= i < |fares| ensures FareBody(fares)[i] == FareFields(fares[i]) && |FareBody(fares)[i]| >= 1 {
      FareBodyRow(fares, i);
    }
    TableLayout(FareHeader, FareBody(fares), ',', '\n');
  }
}
