/** `generateRyanairUrl` of the fare-finder script: the fare-finder page
    address for one route, with the query parameters in a fixed order. The
    template is written here as the list of parameters it spells out, joined
    by `&` after the base address and a `?`. */
module FareFinder {
  import opened Wrappers
  import opened Text

  /** One `key=value` query parameter. */
  datatype Param = Param(key: string, value: string)

  const BaseUrl: string := "https://www.ryanair.com/us/en/fare-finder"

  /** A configuration value interpolated into the template: a number, or
      `undefined` when the field is missing from the configuration. */
  function ConfigText(v: Option<int>): string {
    match v
    case Some(n) => IntToString(n)
    case None => "undefined"
  }

  /** The parameters of the address, in template order: the route, the
      passengers, the trip window and the time and price filters. */
  function Params(from: string, to: string, tripLength: int, adults: Option<int>,
                  children: Option<int>, month: string): (ps: seq<Param>)
    ensures |ps| == 22
  {
    RouteParams(from, to) + PassengerParams(adults, children)
    + WindowParams(tripLength, month) + FilterParams()
  }

  function RouteParams(from: string, to: string): (ps: seq<Param>)
    ensures |ps| == 5
  {
    [ Param("originIata", from),
      Param("destinationIata", to),
      Param("isReturn", "true"),
      Param("isMacDestination", "false"),
      Param("promoCode", "") ]
  }

  function PassengerParams(adults: Option<int>, children: Option<int>): (ps: seq<Param>)
    ensures |ps| == 4
  {
    [ Param("adults", ConfigText(adults)),
      Param("teens", "0"),
      Param("children", ConfigText(children)),
      Param("infants", "0") ]
  }

  /** `nightsFrom` and `nightsTo` are one night either side of the trip
      length; `dateOut` and `dateIn` append the fixed days `-01` and `-30` to
      the month, whatever its length. */
  function WindowParams(tripLength: int, month: string): (ps: seq<Param>)
    ensures |ps| == 7
  {
    DateParams(month) + StayParams(tripLength)
  }

  function DateParams(month: string): (ps: seq<Param>)
    ensures |ps| == 2
  {
    [ Param("dateOut", month + "-01"),
      Param("dateIn", month + "-30") ]
  }

  function StayParams(tripLength: int): (ps: seq<Param>)
    ensures |ps| == 5
  {
    [ Param("daysTrip", IntToString(tripLength)),
      Param("nightsFrom", IntToString(tripLength - 1)),
      Param("nightsTo", IntToString(tripLength + 1)),
      Param("dayOfWeek", ""),
      Param("isExactDate", "false") ]
  }

  function FilterParams(): (ps: seq<Param>)
    ensures |ps| == 6
  {
    [ Param("outboundFromHour", "00:00"),
      Param("outboundToHour", "23:59"),
      Param("inboundFromHour", "00:00"),
      Param("inboundToHour", "23:59"),
      Param("priceValueTo", ""),
      Param("currency", "PLN") ]
  }

  function ParamText(p: Param): string {
    p.key + "=" + p.value
  }

  function QueryText(ps: seq<Param>): string {
    Join(seq(|ps|, i requires 0 <= i < |ps| => ParamText(ps[i])), '&')
  }

  /** `generateRyanairUrl`: the fare-finder page with the template's
      parameters; whatever the settings, the address is one on that page. */
  function GenerateUrl(from: string, to: string, tripLength: int, adults: Option<int>,
                       children: Option<int>, month: string): (url: string)
    ensures |url| > |BaseUrl| && url[..|BaseUrl| + 1] == BaseUrl + "?"
    ensures ReadUrl(url).Some?
  {
    BaseUrl + "?" + QueryText(Params(from, to, tripLength, adults, children, month))
  }

  /** Reads one `key=value` parameter: the key runs up to the first `=`, the
      value is the rest (empty when there is no `=`). */
  function ReadParam(s: string): (p: Param)
    ensures |p.key| <= |s|
  {
    if s == [] then Param("", "")
    else if s[0] == '=' then Param("", s[1..])
    else
      var p := ReadParam(s[1..]);
      Param([s[0]] + p.key, p.value)
  }

  /** Reads the parameters of an address on the fare-finder page; `None` for
      any other address. */
  function ReadUrl(url: string): Option<seq<Param>> {
    var head := BaseUrl + "?";
    if |url| >= |head| && url[..|head|] == head then
      var parts := Split(url[|head|..], '&');
      Some(seq(|parts|, i requires 0 <= i < |parts| => ReadParam(parts[i])))
    else None
  }

  /** A parameter whose key has no `=` is read back as itself. */
  lemma {:induction false} ReadParamText(p: Param)
    requires '=' !in p.key
    ensures ReadParam(ParamText(p)) == p
    decreases |p.key|
  {
    if p.key == [] {
      assert ParamText(p) == ['='] + p.value;
    } else {
      var rest := Param(p.key[1..], p.value);
      ReadParamText(rest);
      assert ParamText(p) == [p.key[0]] + ParamText(rest);
      assert [p.key[0]] + p.key[1..] == p.key;
    }
  }

  /** Keys free of `=` and `&`, values free of `&`: what makes the query
      readable. */
  predicate Readable(ps: seq<Param>) {
    forall i :: 0 <= i < |ps| ==> ReadableParam(ps[i])
  }

  predicate ReadableParam(p: Param) {
    '=' !in p.key && '&' !in p.key && '&' !in p.value
  }

  /** Any non-empty readable parameter list survives a trip through the
      address text. */
  lemma ReadQuery(ps: seq<Param>)
    requires |ps| >= 1 && Readable(ps)
    ensures ReadUrl(BaseUrl + "?" + QueryText(ps)) == Some(ps)
  {
    var head := BaseUrl + "?";
    var url := head + QueryText(ps);
    var texts := seq(|ps|, i requires 0 <= i < |ps| => ParamText(ps[i]));
    forall i | 0 <= i < |ps| ensures '&' !in texts[i] && ReadParam(texts[i]) == ps[i] {
      ReadParamText(ps[i]);
    }
    SplitJoin(texts, '&');
    assert url[..|head|] == head;
    assert url[|head|..] == QueryText(ps);
    var parts := Split(url[|head|..], '&');
    assert parts == texts;
    var read := seq(|parts|, i requires 0 <= i < |parts| => ReadParam(parts[i]));
    assert read == ps;
  }

  /** Text free of `&`, so it cannot end a parameter early. */
  predicate NoAmpersand(s: string) {
    '&' !in s
  }

  lemma IntTextIsReadable(i: int)
    ensures NoAmpersand(IntToString(i))
  {
    if i >= 0 {
      assert AllDigits(IntToString(i));
    } else {
      assert AllDigits(IntToString(i)[1..]);
      assert IntToString(i) == [IntToString(i)[0]] + IntToString(i)[1..];
    }
  }

  lemma ConfigTextIsReadable(v: Option<int>)
    ensures NoAmpersand(ConfigText(v))
  {
    if v.Some? {
      IntTextIsReadable(v.value);
    }
  }

  /** A short parameter list is readable once each of its entries is. */
  lemma ReadableUpTo(ps: seq<Param>)
    requires |ps| <= 7
    requires |ps| > 0 ==> ReadableParam(ps[0])
    requires |ps| > 1 ==> ReadableParam(ps[1])
    requires |ps| > 2 ==> ReadableParam(ps[2])
    requires |ps| > 3 ==> ReadableParam(ps[3])
    requires |ps| > 4 ==> ReadableParam(ps[4])
    requires |ps| > 5 ==> ReadableParam(ps[5])
    requires |ps| > 6 ==> ReadableParam(ps[6])
    ensures Readable(ps)
  {
  }

  lemma ReadableAppend(a: seq<Param>, b: seq<Param>)
    requires Readable(a) && Readable(b)
    ensures Readable(a + b)
  {
    forall i | 0 <= i < |a + b|
      ensures ReadableParam((a + b)[i])
    {
      if i >= |a| {
        assert (a + b)[i] == b[i - |a|];
      }
    }
  }

  /** Only fixes the template literals of this group: keys free of `=`
      and `&`, fixed values free of `&`. */
  lemma AirportTexts()
    ensures '=' !in "originIata" && '&' !in "originIata"
    ensures '=' !in "destinationIata" && '&' !in "destinationIata"
  {
  }

  /** Only fixes the template literals of this group: keys free of `=`
      and `&`, fixed values free of `&`. */
  lemma RouteTexts()
    ensures '=' !in "isReturn" && '&' !in "isReturn" && '&' !in "true"
    ensures '=' !in "isMacDestination" && '&' !in "isMacDestination" && '&' !in "false"
    ensures '=' !in "promoCode" && '&' !in "promoCode" && '&' !in ""
  {
  }

  lemma RouteParamsReadable(from: string, to: string)
    requires NoAmpersand(from) && NoAmpersand(to)
    ensures Readable(RouteParams(from, to))
  {
    AirportTexts();
    RouteTexts();
    var ps := RouteParams(from, to);
    ReadableUpTo(ps);
  }

  /** Only fixes the template literals of this group: keys free of `=`
      and `&`, fixed values free of `&`. */
  lemma PassengerTexts()
    ensures '=' !in "adults" && '&' !in "adults"
    ensures '=' !in "teens" && '&' !in "teens" && '&' !in "0"
    ensures '=' !in "children" && '&' !in "children"
    ensures '=' !in "infants" && '&' !in "infants"
    ensures '&' !in "undefined"
  {
  }

  lemma PassengerParamsReadable(adults: Option<int>, children: Option<int>)
    ensures Readable(PassengerParams(adults, children))
  {
    PassengerTexts();
    ConfigTextIsReadable(adults);
    ConfigTextIsReadable(children);
    var ps := PassengerParams(adults, children);
    ReadableUpTo(ps);
  }

  /** Only fixes the template literals of this group: keys free of `=`
      and `&`, fixed values free of `&`. */
  lemma DateTexts()
    ensures '=' !in "dateOut" && '&' !in "dateOut" && '&' !in "-01"
    ensures '=' !in "dateIn" && '&' !in "dateIn" && '&' !in "-30"
  {
  }

  /** Only fixes the template literals of this group: keys free of `=`
      and `&`, fixed values free of `&`. */
  lemma WindowTexts()
    ensures '=' !in "daysTrip" && '&' !in "daysTrip"
    ensures '=' !in "nightsFrom" && '&' !in "nightsFrom"
    ensures '=' !in "nightsTo" && '&' !in "nightsTo"
    ensures '=' !in "dayOfWeek" && '&' !in "dayOfWeek" && '&' !in ""
    ensures '=' !in "isExactDate" && '&' !in "isExactDate" && '&' !in "false"
  {
  }

  lemma WindowParamsReadable(tripLength: int, month: string)
    requires NoAmpersand(month)
    ensures Readable(WindowParams(tripLength, month))
  {
    DateParamsReadable(month);
    StayParamsReadable(tripLength);
    ReadableAppend(DateParams(month), StayParams(tripLength));
  }

  lemma DateParamsReadable(month: string)
    requires NoAmpersand(month)
    ensures Readable(DateParams(month))
  {
    DateTexts();
    NoAmpersandAppend(month, "-01");
    NoAmpersandAppend(month, "-30");
    ReadableUpTo(DateParams(month));
  }

  lemma StayParamsReadable(tripLength: int)
    ensures Readable(StayParams(tripLength))
  {
    WindowTexts();
    IntTextIsReadable(tripLength);
    IntTextIsReadable(tripLength - 1);
    IntTextIsReadable(tripLength + 1);
    ReadableUpTo(StayParams(tripLength));
  }

  lemma NoAmpersandAppend(a: string, b: string)
    requires NoAmpersand(a) && NoAmpersand(b)
    ensures NoAmpersand(a + b)
  {
    assert forall c :: c in a + b ==> c in a || c in b;
  }

  /** Only fixes the template literals of this group: keys free of `=`
      and `&`, fixed values free of `&`. */
  lemma HourTexts()
    ensures '=' !in "outboundFromHour" && '&' !in "outboundFromHour" && '&' !in "00:00"
    ensures '=' !in "outboundToHour" && '&' !in "outboundToHour" && '&' !in "23:59"
  {
  }

  /** Only fixes the template literals of this group: keys free of `=`
      and `&`, fixed values free of `&`. */
  lemma InboundHourTexts()
    ensures '=' !in "inboundFromHour" && '&' !in "inboundFromHour"
    ensures '=' !in "inboundToHour" && '&' !in "inboundToHour"
  {
  }

  /** Only fixes the template literals of this group: keys free of `=`
      and `&`, fixed values free of `&`. */
  lemma PriceFilterTexts()
    ensures '=' !in "priceValueTo" && '&' !in "priceValueTo" && '&' !in ""
    ensures '=' !in "currency" && '&' !in "currency" && '&' !in "PLN"
  {
  }

  lemma FilterParamsReadable()
    ensures Readable(FilterParams())
  {
    HourTexts();
    InboundHourTexts();
    PriceFilterTexts();
    var ps := FilterParams();
    ReadableUpTo(ps);
  }

  /** The template's own keys and fixed values are readable, so only the
      route codes and the month can spoil the query. */
  lemma ParamsReadable(from: string, to: string, tripLength: int, adults: Option<int>,
                       children: Option<int>, month: string)
    requires NoAmpersand(from) && NoAmpersand(to) && NoAmpersand(month)
    ensures Readable(Params(from, to, tripLength, adults, children, month))
  {
    var r, p, w, f := RouteParams(from, to), PassengerParams(adults, children),
                      WindowParams(tripLength, month), FilterParams();
    RouteParamsReadable(from, to);
    PassengerParamsReadable(adults, children);
    WindowParamsReadable(tripLength, month);
    FilterParamsReadable();
    ReadableAppend(r, p);
    ReadableAppend(r + p, w);
    ReadableAppend(r + p + w, f);
  }

  /** The address reads back as the template's parameters: the route codes,
      passenger counts and trip length verbatim, one night either side of
      the trip length, the month with the fixed days `-01` and `-30`, and the
      constant flags and currency. */
  lemma ReadGeneratedUrl(from: string, to: string, tripLength: int, adults: Option<int>,
                         children: Option<int>, month: string)
    requires NoAmpersand(from) && NoAmpersand(to) && NoAmpersand(month)
    ensures var ps := Params(from, to, tripLength, adults, children, month);
            ReadUrl(GenerateUrl(from, to, tripLength, adults, children, month)) == Some(ps)
  {
    ParamsReadable(from, to, tripLength, adults, children, month);
    ReadQuery(Params(from, to, tripLength, adults, children, month));
  }

  /** Reading the trip window back out of the address: `daysTrip`,
      `nightsFrom` and `nightsTo` parse to the trip length and one night less
      and more, and the two dates are the month with `-01` and `-30`. */
  lemma TripWindow(from: string, to: string, tripLength: int, adults: Option<int>,
                   children: Option<int>, month: string)
    requires NoAmpersand(from) && NoAmpersand(to) && NoAmpersand(month)
    ensures var r := ReadUrl(GenerateUrl(from, to, tripLength, adults, children, month));
            && r.Some? && |r.value| == 22
            && r.value[0] == Param("originIata", from)
            && r.value[1] == Param("destinationIata", to)
            && r.value[9] == Param("dateOut", month + "-01")
            && r.value[10] == Param("dateIn", month + "-30")
            && r.value[11].key == "daysTrip" && ParseInt(r.value[11].value) == Some(tripLength)
            && r.value[12].key == "nightsFrom" && ParseInt(r.value[12].value) == Some(tripLength - 1)
            && r.value[13].key == "nightsTo" && ParseInt(r.value[13].value) == Some(tripLength + 1)
            && r.value[21] == Param("currency", "PLN")
  {
    ReadGeneratedUrl(from, to, tripLength, adults, children, month);
    ParamsAt(from, to, tripLength, adults, children, month);
    ParseIntToString(tripLength);
    ParseIntToString(tripLength - 1);
    ParseIntToString(tripLength + 1);
  }

  /** Where the groups sit in the full parameter list. */
  lemma ParamsAt(from: string, to: string, tripLength: int, adults: Option<int>,
                 children: Option<int>, month: string)
    ensures var ps := Params(from, to, tripLength, adults, children, month);
            var w := WindowParams(tripLength, month);
            && ps[0] == Param("originIata", from) && ps[1] == Param("destinationIata", to)
            && ps[9] == w[0] && ps[10] == w[1] && ps[11] == w[2] && ps[12] == w[3] && ps[13] == w[4]
            && ps[21] == Param("currency", "PLN")
  {
    var r, p, w, f := RouteParams(from, to), PassengerParams(adults, children),
                      WindowParams(tripLength, month), FilterParams();
    GroupsAt(r, p, w, f);
  }

  /** Where the four groups of parameters sit once they are put together. */
  lemma GroupsAt(r: seq<Param>, p: seq<Param>, w: seq<Param>, f: seq<Param>)
    requires |r| == 5 && |p| == 4 && |w| == 7 && |f| == 6
    ensures var ps := r + p + w + f;
            && |ps| == 22 && ps[0] == r[0] && ps[1] == r[1]
            && ps[9] == w[0] && ps[10] == w[1] && ps[11] == w[2] && ps[12] == w[3] && ps[13] == w[4]
            && ps[21] == f[5]
  {
  }
}
