/** The main block of the fare-API script: one fare-finder address per
    route, the fares each page's API response reports appended in route
    order, the collection sorted by total price, the three cheapest picked
    out, and a CSV of every fare when the selector is `csv`. */
module FareSearch {
  import opened Wrappers
  import opened Text
  import opened RouteProcessor
  import opened Ranking
  import opened FareFinder
  import opened FareCsv

  datatype FareConfig = FareConfig(
    tripLength: int, month: string, routes: seq<Route>, output: string,
    adults: Option<int>, children: Option<int>)

  /** `fetchFlightData` seen from outside: the fares reported for a page
      address, or `None` when no matching response arrives in time, which
      ends the whole run. */
  type FareFetch = string -> Option<seq<Fare>>

  /** The three cheapest fares, all fares in the order they end up in, and
      the CSV text if one is written. */
  datatype FareRun = FareRun(top3: seq<Fare>, all: seq<Fare>, csv: Option<string>)

  function RouteUrl(cfg: FareConfig, route: Route): string {
    GenerateUrl(route.from, route.to, cfg.tripLength, cfg.adults, cfg.children, cfg.month)
  }

  function SummaryValue(f: Fare): int {
    f.summary.value
  }

  /** The addresses the run opens, one per route in order. */
  function Urls(cfg: FareConfig): (urls: seq<string>)
    ensures |urls| == |cfg.routes|
  {
    seq(|cfg.routes|, i requires 0 <= i < |cfg.routes| => RouteUrl(cfg, cfg.routes[i]))
  }

  /** The fares of the pages at `urls` appended in order, or `None` if any
      fetch fails: collection succeeds exactly when every page's fetch does. */
  function Collect(urls: seq<string>, fetch: FareFetch): (r: Option<seq<Fare>>)
    ensures r.Some? <==> forall i :: 0 <= i < |urls| ==> fetch(urls[i]).Some?
    decreases |urls|
  {
    if urls == [] then Some([])
    else
      var init := urls[..|urls| - 1];
      assert forall i :: 0 <= i < |init| ==> init[i] == urls[i];
      match Collect(init, fetch)
      case None => None
      case Some(prev) =>
        match fetch(urls[|urls| - 1])
        case None => None
        case Some(fares) => Some(prev + fares)
  }

  /** The fares of page `i`, for a fetch that succeeds on every page. */
  function Fetched(urls: seq<string>, fetch: FareFetch): seq<seq<Fare>>
    requires forall i :: 0 <= i < |urls| ==> fetch(urls[i]).Some?
  {
    seq(|urls|, i requires 0 <= i < |urls| => fetch(urls[i]).value)
  }

  function CsvExport(output: string, fares: seq<Fare>): (csv: Option<string>)
    ensures csv.Some? <==> output == "csv"
  {
    if output == "csv" then Some(FareCsvText(fares)) else None
  }

  /** A successful collection is the page-by-page concatenation of the
      fares, as long as all of them together. */
  lemma {:induction false} CollectConcatenates(urls: seq<string>, fetch: FareFetch)
    requires forall i :: 0 <= i < |urls| ==> fetch(urls[i]).Some?
    ensures Collect(urls, fetch) == Some(Flatten(Fetched(urls, fetch)))
    ensures |Flatten(Fetched(urls, fetch))| == SumLengths(Fetched(urls, fetch))
    decreases |urls|
  {
    if urls != [] {
      var n := |urls|;
      var init := urls[..n - 1];
      assert forall i :: 0 <= i < |init| ==> init[i] == urls[i];
      CollectConcatenates(init, fetch);
      var parts := Fetched(urls, fetch);
      assert parts[..n - 1] == Fetched(init, fetch);
      FlattenStep(parts, n - 1);
      assert parts[..n] == parts;
    }
  }

  /** The loop over the addresses: each page is fetched in turn and its
      fares appended; the first failure ends the loop. `visited` lists the
      addresses opened. */
  method FetchAll(urls: seq<string>, fetch: FareFetch) returns (found: Option<seq<Fare>>, visited: seq<string>)
    ensures found == Collect(urls, fetch)
    ensures |visited| <= |urls| && visited == urls[..|visited|]
    ensures found.Some? ==> |visited| == |urls|
    ensures found.None? ==> |visited| >= 1 && fetch(visited[|visited| - 1]).None?
                            && forall i :: 0 <= i < |visited| - 1 ==> fetch(visited[i]).Some?
  {
    var all: seq<Fare> := [];
    visited := [];
    for i := 0 to |urls|
      invariant Collect(urls[..i], fetch) == Some(all)
      invariant visited == urls[..i]
      invariant forall j :: 0 <= j < i ==> fetch(visited[j]).Some?
    {
      var url := urls[i];
      visited := visited + [url];
      var data := fetch(url);
      if data.None? {
        assert visited == urls[..i + 1];
        return None, visited;
      }
      assert urls[..i + 1][..i] == urls[..i];
      all := all + data.value;
    }
    assert urls[..|urls|] == urls;
    found := Some(all);
  }

  /** One run: a failed fetch ends it with nothing shown or written;
      otherwise the sort reorders the collection in place, so the CSV
      receives every fare in ascending order of total, not only the three
      shown. */
  method RunFares(cfg: FareConfig, fetch: FareFetch) returns (run: Option<FareRun>, visited: seq<string>)
    ensures run.Some? <==> Collect(Urls(cfg), fetch).Some?
    ensures run.Some? ==>
            var found := Collect(Urls(cfg), fetch).value;
            && run.value.all == SortBy(found, SummaryValue)
            && run.value.top3 == Cheapest(found, SummaryValue, 3)
            && run.value.csv == CsvExport(cfg.output, run.value.all)
    ensures |visited| <= |cfg.routes| && visited == Urls(cfg)[..|visited|]
  {
    var urls := Urls(cfg);
    var found;
    found, visited := FetchAll(urls, fetch);
    if found.None? {
      return None, visited;
    }
    var sorted := SortBy(found.value, SummaryValue);
    var top3 := sorted[..Min(3, |sorted|)];
    run := Some(FareRun(top3, sorted, CsvExport(cfg.output, sorted)));
  }

  /** The run keeps every collected fare exactly once, in ascending order of
      total, and shows the `min(3, n)` cheapest ones. */
  lemma RunKeepsEverything(found: seq<Fare>, run: FareRun)
    requires run.all == SortBy(found, SummaryValue)
    requires run.top3 == Cheapest(found, SummaryValue, 3)
    ensures multiset(run.all) == multiset(found)
    ensures SortedBy(run.all, SummaryValue) && SortedBy(run.top3, SummaryValue)
    ensures |run.top3| == Min(3, |found|)
    ensures run.top3 == run.all[..|run.top3|]
  {
    CheapestAreCheapest(found, SummaryValue, 3);
  }

  /** With the `csv` selector the file holds a header line and one line per
      fare, all of them, each splitting into that fare's five cells. */
  lemma CsvExportHoldsAllFares(fares: seq<Fare>)
    requires forall i :: 0 <= i < |fares| ==> PlainFare(fares[i])
    ensures var csv := CsvExport("csv", fares);
            && csv.Some?
            && var lines := Split(csv.value, '\n');
               && |lines| == 1 + |fares|
               && Split(lines[0], ',') == FareHeader
               && forall i :: 0 <= i < |fares| ==> Split(lines[i + 1], ',') == FareFields(fares[i])
  {
    FareCsvLayout(fares);
  }
}
