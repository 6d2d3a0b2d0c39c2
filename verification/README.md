# Ryanair round-trip search, modelled in Dafny

The repository has two scripts that look for cheap Ryanair round trips:

- **`domparcing.js`** drives the airline's search form in a browser.
  - For a configured month and trip length it generates every (departure, return) date pair that fits in the month.
  - For each configured route and each pair, it looks up the outbound price and, only if that succeeded, the inbound price. A record is kept when both prices are truthy.
  - It sorts all records by total price and prints the three cheapest.
  - It exports the records to a timestamped CSV file, or takes the Google-sheet branch, or reports an unknown selector. The Google-sheet branch fails before writing anything (see Notes).
- **`main.js`** drives the fare-finder page instead.
  - It builds one fare-finder address per route and collects the fares the page's API response reports, route after route.
  - It sorts the fares by total price and prints the three cheapest.
  - It writes every fare to a timestamped CSV file when the selector is `csv`.

This project models the sequential logic of both scripts as pure Dafny functions and methods over immutable datatypes:

- the Gregorian calendar arithmetic behind `new Date(...)` and `setDate`;
- the date-pair generator;
- the per-route loop, with the price lookup as an oracle;
- the stable sort and top-3 slice;
- the CSV text of both scripts;
- the file name;
- the fare-finder address.

It proves:

- the pairs' count, order and bounds;
- the skip rule of the route loop;
- that sorting keeps every record;
- that the CSV text, file name and address all read back to the values they were built from.

Amounts are whole cents. The price lookup (`RouteProcessor.PriceLookup`), the API fetch (`FareSearch.FareFetch`) and the clock reading (`Filename.Clock`) are parameters.

Modules, one per file:

- **Foundations:**
  - `Wrappers`: `Option`, `Flatten`, `Somes`.
  - `Text`: digits, padding, join and split, integer text.
  - `Calendar`: dates, month lengths, day shifts, the `Date` constructor's normalisation.
  - `IsoDate`: `YYYY-MM-DD` text and its parser.
  - `Money`: `toFixed(2)`, number printing, the price-text filter.
  - `Ranking`: stable insertion sort and the cheapest-n slice.
- **Browser-driven script:**
  - `DatePairs`: `generateDatePairs`.
  - `RouteProcessor`: `processRoute`.
  - `ItineraryCsv`: its `writeCSV` text.
  - `RouteSearch`: its main block.
- **Fare-API script:**
  - `FareFinder`: `generateRyanairUrl`, with a parser for the address.
  - `FareCsv`: its `writeCSV` text.
  - `FareSearch`: its main block.
- **Both scripts:**
  - `Filename`: `generateUniqueFilename`.

## Model

| member | source | states |
|---|---|---|
| Calendar.DaysInMonth | domparcing.js:25 | the last day of a month, `new Date(year, mon, 0)`, is day 28 to 31 |
| Calendar.YearLength | domparcing.js:25 | the month lengths sum to 366 in Gregorian leap years (divisible by 4, and by 400 for centuries) and 365 otherwise |
| Calendar.NextDayIsImmediate | domparcing.js:28 | stepping `d.setDate(d.getDate() + 1)` reaches the very next date: nothing lies strictly between a date and its successor |
| Calendar.PrevDayIsImmediate | domparcing.js:29-30 | nothing lies strictly between a date and its predecessor: a date is before d exactly when it is not after `PrevDay(d)` |
| Calendar.NextPrevInverse | domparcing.js:28 | stepping forward one day and back one day are inverse |
| Calendar.AddDays | domparcing.js:29-30 | `setDate(getDate() + n)` gives a valid date, later for positive n, earlier for negative n, the same for 0 |
| Calendar.AddDaysWithinMonth | domparcing.js:29-30 | a shift that stays inside the month only changes the day number |
| Calendar.AddDaysForward | domparcing.js:28-30 | two forward shifts, by a ≥ 0 and then b ≥ 0 days, equal one shift by a + b |
| Calendar.AddDaysCompose | domparcing.js:28-30 | shifting by a then by b days equals shifting by a + b, for integers a and b of any sign |
| Calendar.AddDaysInverse | domparcing.js:29-30 | shifting by n and then by -n gives back the date |
| Calendar.TwoDigitYears | domparcing.js:24 | `new Date(y, monthIndex, 1)` with a month index 0..11 is the 1st of month monthIndex + 1 of year 1900 + y when y is 0..99, and of year y otherwise |
| Calendar.NormalizeMonth | domparcing.js:24-25 | a month index outside 0..11 rolls into another year, keeping the absolute month count |
| Calendar.MakeDate | domparcing.js:24-25 | within the `Date` range, `new Date(y, monthIndex, day)` is a valid date: a day inside the normalised month is taken as it stands, day 0 is the day before the 1st, any day below 1 falls before the month, and a day past the month's end (by up to the next month's length) carries into the next month as `day` minus the month length |
| Calendar.MonthBounds | domparcing.js:24-25 | `new Date(year, mon - 1, 1)` is the 1st of the target month and `new Date(year, mon, 0)` is its Gregorian last day |
| DatePairs.ReturnPastEnd | domparcing.js:29-31 | the return of the trip from day k passes the month's end exactly when k + tripLength exceeds the month length |
| DatePairs.PairsFromShape | domparcing.js:28-35 | from day k the kept pairs are days k up to `PairCount(month length, trip)` (the month length minus a positive trip length, the whole month for a trip of 0 or less), in order, each departing on its day |
| DatePairs.MonthPairsShape | domparcing.js:22-37 | max(0, days − tripLength) pairs (all days for a non-positive trip); departures on consecutive days from the 1st; return = departure + tripLength days; no return after the last day |
| DatePairs.MonthPairsIncreasing | domparcing.js:28-34 | each departure is the day after the previous one, so departures strictly increase |
| DatePairs.GenerateDatePairs | domparcing.js:22-37 | within the `Date` range, the loop that stops at the first overrunning return produces exactly the reference pairs, their count and bounds |
| DatePairs.ThirtyDayMonthExample | domparcing.js:25-35 | a 30-day month with a 7-day trip gives 23 pairs, from 1→8 to 23→30 |
| DatePairs.LeapFebruaryExample | domparcing.js:25 | February of a leap year (2024, 2000) gives 22 week-long trips |
| DatePairs.CommonFebruaryExample | domparcing.js:25 | February of a common year (2023, 1900) gives 21 week-long trips |
| DatePairs.TooLongTripIsEmpty | domparcing.js:29-31 | within the `Date` range, a trip as long as the month or longer gives no pairs |
| IsoDate.Format | domparcing.js:32-33 | the `YYYY-MM-DD` text of every valid date reads back as that date |
| IsoDate.ParseYearText | domparcing.js:32-33 | the year part of `toISOString` is four digits for years 0..9999, and otherwise `-` or `+` followed by at least six digits (exactly six for years within a million of year 0); either form reads back as the year |
| RouteProcessor.ProcessPair | domparcing.js:90-104 | one pair looks up the outbound leg and, only if that price is truthy, the inbound leg; it yields a record exactly when both prices are truthy, and the record copies route and dates and totals the two prices |
| RouteProcessor.PricedByUnique | domparcing.js:96-104 | the priced record of a pair is unique |
| RouteProcessor.ProcessRoute | domparcing.js:84-108 | the loop with its two `continue`s yields the reference records and legs; it makes one lookup per pair plus one per usable outbound price |
| RouteProcessor.LegCount | domparcing.js:90-94 | the number of lookups is the number of pairs plus the number of usable outbound prices |
| RouteProcessor.RouteResultsSound | domparcing.js:96-104 | every record belongs to one of the pairs and carries that pair's looked-up prices |
| RouteProcessor.RouteResultsComplete | domparcing.js:87-104 | every pair whose two prices are truthy yields its record |
| RouteProcessor.RouteResultsOrdered | domparcing.js:87-107 | when the pairs' departures strictly increase (which `DatePairs.MonthPairsIncreasing` gives for generated pairs), the records' departures strictly increase too, so they come in date-pair order, at most one per pair |
| RouteProcessor.AllResultsSound | domparcing.js:143-146 | every collected record belongs to a configured route and a generated pair, and totals its two prices |
| Ranking.Insert | domparcing.js:153 | inserting into a sorted list keeps it sorted and adds exactly the one element |
| Ranking.SortBy | domparcing.js:153 | the sort is ascending by key and a permutation of its input |
| Ranking.SortIsStable | domparcing.js:153 | entries with equal keys keep their relative order |
| Ranking.CheapestAreCheapest | main.js:105 | the top-n slice is sorted, drawn from the input, and no kept entry costs more than any entry left out |
| Money.ToFixed2 | domparcing.js:119-121 | `toFixed(2)` text ends in a point and exactly two digits, and opens with a digit exactly when the amount is not negative (a minus sign otherwise) |
| Money.ParseToFixed2 | domparcing.js:119-121 | `toFixed(2)` text of an amount reads back as that amount |
| Money.NumberText | main.js:60-62 | the printed number is non-empty, has a decimal point exactly when the amount is not whole, and opens with a digit exactly when the amount is not negative |
| Money.ParseNumberText | main.js:60-62 | the printed number of an amount reads back as that amount and never ends in a zero decimal |
| Money.KeepDigitsAndCommas | domparcing.js:73 | the filter keeps only digits and commas, never lengthens the text, and leaves a text of digits and commas unchanged |
| Money.KeepOne | domparcing.js:73 | one character survives the filter exactly when it is a digit or a comma |
| Money.KeepAppend | domparcing.js:73 | the filter of a concatenation is the concatenation of the filters, so every digit and comma survives in order |
| Money.ReplaceFirstComma | domparcing.js:73 | the replacement keeps the length and changes nothing in a text without a comma |
| Money.ReplacesFirstComma | domparcing.js:73 | in a text with a comma, the first comma becomes `.` and every other character, later commas included, stays |
| Money.CleanPriceTextShape | domparcing.js:73 | the cleaned price text is the filtered text with its first comma, and only that one, turned into `.`; it is the filtered text itself when that has no comma; it has one point exactly when the filtered text had a comma |
| ItineraryCsv.Fields | domparcing.js:114-122 | a record becomes seven cells |
| ItineraryCsv.FieldsArePlain | domparcing.js:114-122 | dates and amounts never contain a comma or newline; only the airport codes could |
| ItineraryCsv.RowReadsBack | domparcing.js:114-123 | a joined row splits back into the airport codes, the two dates and the three amounts |
| ItineraryCsv.CsvText | domparcing.js:112-123 | the file opens with the header line; with no records it is that line alone, otherwise a newline follows it |
| ItineraryCsv.CsvLayout | domparcing.js:112-123 | the text has 1 + n lines; the first splits into the seven header names; line i + 1 splits into the cells of record i |
| RouteSearch.ExportFor | domparcing.js:160-177 | exactly the selectors `google` and `csv` choose an export branch; any other selector reaches the error message |
| RouteSearch.Search | domparcing.js:132-177 | the run collects every route's records in route order, keeps them sorted by total (the in-place sort), shows the three cheapest, and exports the sorted collection |
| RouteSearch.AllResultsAppend | domparcing.js:143-146 | results are route-major: another route appends its records at the end |
| RouteSearch.SearchKeepsEverything | domparcing.js:153 | the sorted collection is a permutation of the collected records, the top three are sorted and the first min(3, n) of it |
| RouteSearch.CsvExportHoldsAll | domparcing.js:173-174 | the CSV export writes all n records, not only the top three, one per line after the header |
| Filename.ParseUniqueFilename | main.js:7-16 | the name is 31 characters and its fields read back as the day, 1-based month, year modulo 100, hours and minutes |
| Filename.UniqueFilename | main.js:7-16 | whatever the clock reads, the name starts with `ryanair_results_` and ends with `.csv` |
| Filename.SameNameSameMinute | domparcing.js:7-16 | two runs get the same name exactly when they agree on day, month, two-digit year, hour and minute |
| Filename.YearSuffixDigits | main.js:11 | the year field is the last two digits of the year |
| Text.PadTwo | main.js:9-13 | `String(n).padStart(2, '0')` of a number below 100 is exactly two digits that read back as the number |
| Text.ParseIntToString | main.js:33 | `String(i)` of any integer reads back as i |
| Text.SplitJoin | domparcing.js:123 | joining and splitting on a separator that no part contains gives the parts back |
| Text.TableLayout | main.js:64 | a table joined by commas and newlines splits back into its rows and cells |
| FareFinder.Params | main.js:33 | the address carries 22 parameters |
| FareFinder.ReadParamText | main.js:33 | a `key=value` text reads back as its key and value |
| FareFinder.ReadQuery | main.js:33 | a readable parameter list survives the trip through the address text |
| FareFinder.ParamsReadable | main.js:31-33 | with `&`-free route codes and month, every parameter of the template is readable: keys free of `=` and `&`, values free of `&` |
| FareFinder.ReadGeneratedUrl | main.js:23-34 | the address reads back as the template's parameter list, in its fixed order |
| FareFinder.TripWindow | main.js:24-33 | the address carries from and to verbatim, `dateOut` = month + `-01`, `dateIn` = month + `-30`, `daysTrip` = tripLength, `nightsFrom` = tripLength − 1, `nightsTo` = tripLength + 1, and `currency=PLN` |
| FareFinder.GenerateUrl | main.js:23-34 | whatever the settings, the address starts with the fare-finder page and `?`, so it is one the page's reader accepts |
| FareCsv.FareFields | main.js:57-63 | a fare becomes five cells |
| FareCsv.PriceTextReadsBack | main.js:60-62 | a price cell splits at its space into a number that reads back as the amount, and the currency code |
| FareCsv.FlightTextReadsBack | main.js:58-59 | a flight cell opens with the departure date, a dash and the arrival date, and closes with `)` |
| FareCsv.FareFieldsArePlain | main.js:57-63 | the cells contain no comma or newline when the API's texts do not |
| FareCsv.FareCsvText | main.js:55-64 | the file opens with the header line; with no fares it is that line alone, otherwise a newline follows it |
| FareCsv.FareCsvLayout | main.js:55-64 | the text has 1 + n lines; the first splits into the five header names; line i + 1 splits into the cells of fare i |
| FareSearch.CsvExport | main.js:121-123 | a CSV is written exactly when the selector is `csv` |
| FareSearch.Collect | main.js:91-100 | collection succeeds exactly when every route's fetch does |
| FareSearch.CollectConcatenates | main.js:91-97 | the collected fares are the routes' fares concatenated in route order, as many as all of them together |
| FareSearch.FetchAll | main.js:91-100 | the loop opens the routes' addresses in order and stops at the first failed fetch |
| FareSearch.RunFares | main.js:81-123 | a run fails exactly when a fetch fails; otherwise it keeps the fares sorted by total (the in-place sort), shows the three cheapest, and writes the sorted collection when the selector is `csv` |
| FareSearch.RunKeepsEverything | main.js:105 | the sorted fares are a permutation of the collected ones; the top three are sorted and are the first min(3, n) |
| FareSearch.CsvExportHoldsAllFares | main.js:121-122 | the CSV holds all n fares, not only the top three, one per line after the header |

## Left out

- Browser driving: `findFlightPrice` and `fetchFlightData` are oracles.
  - A lookup returns a price or nothing; a fetch returns a fare list or nothing.
  - Page navigation, selectors, timeouts and response interception are not modelled.
- `parseFloat` on the cleaned price text is not modelled: the filter is, and a NaN result counts as a missing price.
- The Google Sheets export: `RouteSearch.ExportFor` models only the choice of branch; `SheetRows` names the records the branch would write. Authentication, sheet lookup and row writing are external, and the branch fails before any of them (see Notes).
- File writes, path resolution, reading and parsing `routes.json`, and all console output are not modelled. This includes the printed top-3 summary; its list is modelled.
- The wall clock: `Filename.Clock` is the reading of the `Date` getters.
- Filename.ParseUniqueFilename: requires a year of at least 10; earlier years print fewer than two digits and the name is shorter.
- Filename.SameNameSameMinute: the same year-of-at-least-10 requirement, for the same reason.
- Filename.YearSuffixDigits: the same year-of-at-least-10 requirement, for the same reason.
- Calendar.MakeDate: dates are unbounded here. A JavaScript `Date` holds at most 8.64e15 ms either side of 1970, about years -271821 to 275760; past that, `new Date(...)` and `setDate` give an Invalid Date, which the model does not represent.
- DatePairs.GenerateDatePairs: equals the reference pairs only within the `Date` range. For a month past the range, `start` and `end` are Invalid, `d <= end` is false and the script returns no pairs. For a trip length that pushes `ret` past the range, `ret > end` is false, the loop does not stop, and `toISOString` at domparcing.js:33 throws a RangeError.
- DatePairs.TooLongTripIsEmpty: holds only within the `Date` range; a trip past the range reaches the RangeError of domparcing.js:33 instead of an empty list.
- Time zones: dates are calendar values. The one-day shift `toISOString` can cause for a local-midnight `Date` east of UTC is not modelled.
- `month.split('-').map(Number)` is not modelled: `RouteSearch.Search` takes the year and month as integers. NaN inputs are left out.
- `Money.ToFixed2`: works on exact cents. Binary floating-point rounding of `toFixed` is not modelled.
- `Money.NumberText`: models `String(x)` for amounts with at most two decimals. The exponent form for very large or very small numbers is not modelled.
- `FareFinder.ConfigText`: covers integer passenger counts and a missing setting, which prints `undefined`. Other JSON values are not modelled.
- Non-numeric `tripLength`: arithmetic on a string `tripLength`, where `+ 1` would concatenate, is not modelled.
- The internal shape of the API's fare JSON is not modelled. A fare is the fields `writeCSV` prints, with the amounts in cents.
- A response without a `fares` list is folded into a failed fetch.
- `FareCsv.FlightTextReadsBack`: reads back only the two dates of a flight cell. Airport names may contain spaces and arrows, so the rest of the cell is not split.
- FareFinder.ReadGeneratedUrl: requires that from, to and month contain no `&`. `generateRyanairUrl` does no URL encoding, so such a setting would split into extra parameters.
- FareFinder.TripWindow: the same `&`-free requirement, for the same reason.
- CSV quoting: neither script escapes cells. The layout lemmas require that the copied texts contain no comma or newline.

## Notes

- Sorting reorders the collected results in place in both scripts (`allResults.sort(...)`). So the export receives every record in ascending order of total, not the collection order.
- `dateIn` is always the month followed by `-30`, whatever the month's length, even though the comment next to it calls it the month's last day. The model keeps the code's behaviour.
- The `google` branch of domparcing.js passes `creds` to `useServiceAccountAuth` (line 162), but `creds` is declared nowhere in the file. In this ES module that throws a ReferenceError before any sheet call, so the branch writes nothing and the run ends with an unhandled rejection. `RouteSearch.ExportFor` models only the branch choice.
