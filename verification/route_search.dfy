/** The main block of the browser-driven script: the date pairs of the
    configured month, every route processed in turn, the results sorted by
    total price, the three cheapest picked out, and the export branch. */
module RouteSearch {
  import opened Wrappers
  import opened Text
  import opened Calendar
  import opened DatePairs
  import opened RouteProcessor
  import opened Ranking
  import ItineraryCsv

  /** The export branch a selector chooses: the CSV text for `csv`, the
      records the spreadsheet branch would write for `google`, and nothing for
      any other selector. */
  datatype Export = NoExport | CsvFile(text: string) | SheetRows(rows: seq<Itinerary>)

  /** The three cheapest records, all records in the order they end up in,
      and the export. */
  datatype Outcome = Outcome(top3: seq<Itinerary>, all: seq<Itinerary>, exported: Export)

  function Total(r: Itinerary): int {
    r.total
  }

  function ExportFor(output: string, results: seq<Itinerary>): (e: Export)
    ensures e.NoExport? <==> output != "google" && output != "csv"
  {
    if output == "google" then SheetRows(results)
    else if output == "csv" then CsvFile(ItineraryCsv.CsvText(results))
    else NoExport
  }

  /** One run. The sort reorders the collected results in place, so the
      export receives every record in ascending order of total, not only the
      three shown. */
  method Search(year: int, mon: int, tripLength: int, routes: seq<Route>, output: string,
                lookup: PriceLookup)
    returns (outcome: Outcome)
    ensures var found := AllResults(routes, MonthPairs(TargetMonth(year, mon), tripLength), lookup);
            && outcome.all == SortBy(found, Total)
            && outcome.top3 == Cheapest(found, Total, 3)
            && outcome.exported == ExportFor(output, outcome.all)
  {
    var pairs := GenerateDatePairs(year, mon, tripLength);
    ghost var parts := seq(|routes|, i requires 0 <= i < |routes| => RouteResults(routes[i], pairs, lookup));
    var all: seq<Itinerary> := [];
    for i := 0 to |routes|
      invariant all == Flatten(parts[..i])
    {
      var routeResults, _ := ProcessRoute(routes[i], pairs, lookup);
      FlattenStep(parts, i);
      all := all + routeResults;
    }
    assert parts[..|routes|] == parts;
    var sorted := SortBy(all, Total);
    var top3 := sorted[..Min(3, |sorted|)];
    outcome := Outcome(top3, sorted, ExportFor(output, sorted));
  }

  /** Results are route-major: adding a route appends its records after
      those of the routes before it. */
  lemma AllResultsAppend(routes: seq<Route>, route: Route, pairs: seq<DatePair>, lookup: PriceLookup)
    ensures AllResults(routes + [route], pairs, lookup)
            == AllResults(routes, pairs, lookup) + RouteResults(route, pairs, lookup)
  {
    var parts := seq(|routes| + 1, i requires 0 <= i < |routes| + 1 => RouteResults((routes + [route])[i], pairs, lookup));
    var init := seq(|routes|, i requires 0 <= i < |routes| => RouteResults(routes[i], pairs, lookup));
    assert parts[..|routes|] == init;
  }

  /** The run keeps every collected record exactly once, in ascending order
      of total, and shows the `min(3, n)` cheapest ones. */
  lemma SearchKeepsEverything(found: seq<Itinerary>, outcome: Outcome)
    requires outcome.all == SortBy(found, Total)
    requires outcome.top3 == Cheapest(found, Total, 3)
    ensures multiset(outcome.all) == multiset(found)
    ensures SortedBy(outcome.all, Total) && SortedBy(outcome.top3, Total)
    ensures |outcome.top3| == Min(3, |found|)
    ensures outcome.top3 == outcome.all[..|outcome.top3|]
  {
    CheapestAreCheapest(found, Total, 3);
  }

  /** With the `csv` selector the file holds a header line and one line per
      record, all of them, each splitting into that record's seven fields. */
  lemma CsvExportHoldsAll(results: seq<Itinerary>)
    requires forall i :: 0 <= i < |results| ==> Plain(results[i].from) && Plain(results[i].to)
    ensures var e := ExportFor("csv", results);
            && e.CsvFile?
            && var lines := Split(e.text, '\n');
               && |lines| == 1 + |results|
               && Split(lines[0], ',') == ItineraryCsv.Header
               && forall i :: 0 <= i < |results| ==> Split(lines[i + 1], ',') == ItineraryCsv.Fields(results[i])
  {
    ItineraryCsv.CsvLayout(results);
  }
}
