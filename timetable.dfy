/** `getTimetableRows`: the departures from one aggregated stop, across every
    feed that has a member stop in it, sorted by departure time as
    `parseTimeToSeconds` reads it. */
module Timetable {
  import opened Builtins
  import opened Gtfs
  import opened Aggregation

  datatype Operator = Hiroden | Other

  datatype TimetableRow = TimetableRow(operator: Operator, agencyName: string, route: string,
                                       headsign: string, departureTime: string)

  /** The label of a trip whose route has no name, or no route at all. */
  const UnknownRoute: string := "系統不明"

  /** The name shown for a trip whose agency is unknown or unnamed. */
  const UnknownAgency: string := "事業者不明"

  /** `Number.MAX_SAFE_INTEGER`, the key of a departure time that does not read. */
  const MaxSafeInteger: real := 9007199254740991.0

  const Colon: char := ':'

  // ---------------------------------------------------------------------
  // Departure times.

  /** `const [h, m, s] = parts.map((v) => Number(v))`: a missing element is
      `undefined`. */
  function Element(parts: seq<string>, i: nat): Option<JsNumber> {
    if i < |parts| then Some(ToNumber(parts[i])) else None
  }

  /** `Number.isNaN(x)`, which is false for `undefined`. */
  predicate IsNaN(x: Option<JsNumber>) {
    x == Some(NaN)
  }

  /** The body of `parseTimeToSeconds` once `h`, `m` and `s` are read. */
  function Seconds(h: Option<JsNumber>, m: Option<JsNumber>, s: Option<JsNumber>): JsNumber {
    if IsNaN(h) || IsNaN(m) || IsNaN(s) then Num(MaxSafeInteger)
    else if h.None? || m.None? || s.None? then NaN
    else Num(h.value.value * 3600.0 + m.value.value * 60.0 + s.value.value)
  }

  /** `parseTimeToSeconds`: the parts of `time` split at `:` read as
      numbers; a part that is NaN gives `MAX_SAFE_INTEGER`, a missing minute
      or second leaves `undefined` in the sum, which is NaN. */
  function ParseTimeToSeconds(time: string): (r: JsNumber)
    ensures r == NaN ==> |SplitOn(time, Colon)| < 3
  {
    var parts := SplitOn(time, Colon);
    SecondsNaN(Element(parts, 0), Element(parts, 1), Element(parts, 2));
    ElementsPresent(parts);
    Seconds(Element(parts, 0), Element(parts, 1), Element(parts, 2))
  }

  /** The sum is NaN only when a part is `undefined`. */
  lemma SecondsNaN(h: Option<JsNumber>, m: Option<JsNumber>, s: Option<JsNumber>)
    ensures Seconds(h, m, s) == NaN ==> h.None? || m.None? || s.None?
  {
  }

  /** With three parts, none of the first three is `undefined`. */
  lemma ElementsPresent(parts: seq<string>)
    ensures |parts| >= 3 ==> Element(parts, 0).Some? && Element(parts, 1).Some? && Element(parts, 2).Some?
  {
  }

  lemma PartsRead(time: string, parts: seq<string>)
    requires SplitOn(time, Colon) == parts
    ensures ParseTimeToSeconds(time) == Seconds(Element(parts, 0), Element(parts, 1), Element(parts, 2))
  {
  }

  lemma NoColon(d: string)
    requires AllDigits(d)
    ensures Colon !in d
  {
    forall i | 0 <= i < |d| ensures d[i] != Colon {
      assert IsAsciiDigit(d[i]);
    }
  }

  lemma ClockParts(h: string, m: string, s: string)
    requires AllDigits(h) && AllDigits(m) && AllDigits(s)
    ensures SplitOn(h + [Colon] + (m + [Colon] + s), Colon) == [h, m, s]
  {
    NoColon(h);
    NoColon(m);
    NoColon(s);
    SplitOnCons(h, Colon, m + [Colon] + s);
    SplitOnCons(m, Colon, s);
    assert SplitOn(s, Colon) == [s];
  }

  /** A time whose three parts read as the whole numbers `a`, `b` and `c`
      is `a` hours, `b` minutes and `c` seconds. */
  lemma ThreeNumbers(time: string, a: nat, b: nat, c: nat)
    requires |SplitOn(time, Colon)| == 3
    requires ToNumber(SplitOn(time, Colon)[0]) == Num(a as real)
    requires ToNumber(SplitOn(time, Colon)[1]) == Num(b as real)
    requires ToNumber(SplitOn(time, Colon)[2]) == Num(c as real)
    ensures ParseTimeToSeconds(time) == Num((a * 3600 + b * 60 + c) as real)
  {
    Cast(a, b, c);
  }

  /** `n` written with two digits, as GTFS writes hours, minutes and seconds. */
  function TwoDigits(n: nat): (d: string)
    requires n < 100
    ensures |d| == 2 && AllDigits(d)
  {
    [DigitChar(n / 10), DigitChar(n % 10)]
  }

  /** The time `hh:mm:ss`. */
  function ClockText(hh: nat, mm: nat, ss: nat): string
    requires hh < 100 && mm < 100 && ss < 100
  {
    TwoDigits(hh) + [Colon] + (TwoDigits(mm) + [Colon] + TwoDigits(ss))
  }

  lemma TwoDigitsValue(n: nat)
    requires n < 100
    ensures DigitsValue(TwoDigits(n)) == n
  {
    var d := TwoDigits(n);
    assert d[..1][..0] == [];
    assert DigitsValue(d[..1]) == n / 10;
  }

  lemma TwoDigitsRead(n: nat)
    requires n < 100
    ensures ToNumber(TwoDigits(n)) == Num(n as real)
  {
    ToNumberDigits(TwoDigits(n));
    TwoDigitsValue(n);
  }

  lemma ClockSplit(hh: nat, mm: nat, ss: nat)
    requires hh < 100 && mm < 100 && ss < 100
    ensures SplitOn(ClockText(hh, mm, ss), Colon) == [TwoDigits(hh), TwoDigits(mm), TwoDigits(ss)]
  {
    ClockParts(TwoDigits(hh), TwoDigits(mm), TwoDigits(ss));
  }

  /** A time whose hours, minutes or seconds part reads as NaN is
      `MAX_SAFE_INTEGER`, whatever the other parts are. */
  lemma UnreadablePart(time: string, i: nat)
    requires i < 3 && i < |SplitOn(time, Colon)| && ToNumber(SplitOn(time, Colon)[i]) == NaN
    ensures ParseTimeToSeconds(time) == Num(MaxSafeInteger)
  {
    var parts := SplitOn(time, Colon);
    PartsRead(time, parts);
    assert Element(parts, i) == Some(NaN);
    SecondsUnreadable(Element(parts, 0), Element(parts, 1), Element(parts, 2), i);
  }

  lemma SecondsUnreadable(h: Option<JsNumber>, m: Option<JsNumber>, s: Option<JsNumber>, i: nat)
    requires i < 3 && [h, m, s][i] == Some(NaN)
    ensures Seconds(h, m, s) == Num(MaxSafeInteger)
  {
  }

  /** A time of fewer than three parts that all read as numbers is NaN: the
      missing parts are `undefined`, which `Number.isNaN` does not catch. */
  lemma MissingPart(time: string)
    requires |SplitOn(time, Colon)| < 3
    requires forall i :: 0 <= i < |SplitOn(time, Colon)| ==> ToNumber(SplitOn(time, Colon)[i]).Num?
    ensures ParseTimeToSeconds(time) == NaN
  {
    PartsRead(time, SplitOn(time, Colon));
  }

  /** An empty departure time, as a missing column reads, is NaN: its one
      part is `Number("")`, which is 0, and the rest are `undefined`. */
  lemma EmptyTimeIsNaN()
    ensures ParseTimeToSeconds("") == NaN
  {
    assert Colon !in "";
    assert Trim("") == [];
    MissingPart("");
  }

  /** `hh:mm` without seconds is NaN. */
  lemma HoursMinutesOnly(hh: nat, mm: nat)
    requires hh < 100 && mm < 100
    ensures ParseTimeToSeconds(TwoDigits(hh) + [Colon] + TwoDigits(mm)) == NaN
  {
    var h, m := TwoDigits(hh), TwoDigits(mm);
    var parts := SplitOn(h + [Colon] + m, Colon);
    HourMinuteSplit(h, m);
    TwoDigitsRead(hh);
    TwoDigitsRead(mm);
    BothRead(parts, h, m);
    MissingPart(h + [Colon] + m);
  }

  lemma BothRead(parts: seq<string>, h: string, m: string)
    requires parts == [h, m] && ToNumber(h).Num? && ToNumber(m).Num?
    ensures forall i :: 0 <= i < |parts| ==> ToNumber(parts[i]).Num?
  {
    forall i | 0 <= i < |parts| ensures ToNumber(parts[i]).Num? {
      if i == 0 { assert parts[i] == h; } else { assert parts[i] == m; }
    }
  }

  lemma HourMinuteSplit(h: string, m: string)
    requires AllDigits(h) && AllDigits(m)
    ensures SplitOn(h + [Colon] + m, Colon) == [h, m]
  {
    NoColon(h);
    NoColon(m);
    SplitOnCons(h, Colon, m);
    assert SplitOn(m, Colon) == [m];
  }

  /** A time whose hour part has no digit, such as `--:--:--`, is
      `MAX_SAFE_INTEGER`. */
  lemma UnreadableHour(h: string, rest: string)
    requires Colon !in h && Trim(h) != [] && NoDigits(h)
    ensures ParseTimeToSeconds(h + [Colon] + rest) == Num(MaxSafeInteger)
  {
    SplitOnCons(h, Colon, rest);
    assert ToNumber(h) == NaN;
    UnreadablePart(h + [Colon] + rest, 0);
  }

  /** A clock time `hh:mm:ss` reads as its number of seconds, which is less
      than `MAX_SAFE_INTEGER`: every clock time sorts before every time that
      does not read. */
  lemma ClockTime(hh: nat, mm: nat, ss: nat)
    requires hh < 100 && mm < 100 && ss < 100
    ensures ParseTimeToSeconds(ClockText(hh, mm, ss)) == Num((hh * 3600 + mm * 60 + ss) as real)
    ensures (hh * 3600 + mm * 60 + ss) as real < MaxSafeInteger
  {
    ClockSplit(hh, mm, ss);
    TwoDigitsRead(hh);
    TwoDigitsRead(mm);
    TwoDigitsRead(ss);
    ThreeNumbers(ClockText(hh, mm, ss), hh, mm, ss);
  }

  lemma Cast(a: nat, b: nat, c: nat)
    ensures (a * 3600 + b * 60 + c) as real == a as real * 3600.0 + b as real * 60.0 + c as real
  {
  }

  /** `05:29:00`, `05:30:00` and `24:10:00` read in ascending order, and
      `--:--:--` after all three. */
  lemma DepartureOrderExample()
    ensures ParseTimeToSeconds("05:29:00") == Num(19740.0)
    ensures ParseTimeToSeconds("05:30:00") == Num(19800.0)
    ensures ParseTimeToSeconds("24:10:00") == Num(87000.0)
    ensures ParseTimeToSeconds("--:--:--") == Num(MaxSafeInteger)
  {
    FirstDeparture();
    SecondDeparture();
    LateDeparture();
    DashesExample();
  }

  lemma FirstDeparture()
    ensures ParseTimeToSeconds("05:29:00") == Num(19740.0)
  {
    ClockExample(5, 29, 0, "05:29:00");
  }

  lemma SecondDeparture()
    ensures ParseTimeToSeconds("05:30:00") == Num(19800.0)
  {
    ClockExample(5, 30, 0, "05:30:00");
  }

  /** GTFS writes a departure after midnight of the service day as 24:00:00 or later. */
  lemma LateDeparture()
    ensures ParseTimeToSeconds("24:10:00") == Num(87000.0)
  {
    ClockExample(24, 10, 0, "24:10:00");
  }

  lemma ClockExample(hh: nat, mm: nat, ss: nat, text: string)
    requires hh < 100 && mm < 100 && ss < 100 && text == ClockText(hh, mm, ss)
    ensures ParseTimeToSeconds(text) == Num((hh * 3600 + mm * 60 + ss) as real)
  {
    ClockTime(hh, mm, ss);
  }

  lemma DashesExample()
    ensures ParseTimeToSeconds("--:--:--") == Num(MaxSafeInteger)
  {
    assert "--:--:--" == "--" + [Colon] + "--:--";
    assert NoDigits("--") && Trim("--") == "--";
    UnreadableHour("--", "--:--");
  }

  /** The sort key of a row. */
  function DepartureKey(r: TimetableRow): JsNumber {
    ParseTimeToSeconds(r.departureTime)
  }

  // ---------------------------------------------------------------------
  // The lookup tables of one feed.

  /** `map.get(k)`. */
  function Get<V>(m: map<string, V>, k: string): Option<V> {
    if k in m then Some(m[k]) else None
  }

  function TripPairs(trips: seq<Trip>): (ps: seq<(string, Trip)>)
    ensures |ps| == |trips|
  {
    seq(|trips|, i requires 0 <= i < |trips| => (trips[i].tripId, trips[i]))
  }

  function RoutePairs(routes: seq<Route>): (ps: seq<(string, Route)>)
    ensures |ps| == |routes|
  {
    seq(|routes|, i requires 0 <= i < |routes| => (routes[i].routeId, routes[i]))
  }

  function AgencyPairs(agencies: seq<Agency>): (ps: seq<(string, Agency)>)
    ensures |ps| == |agencies|
  {
    seq(|agencies|, i requires 0 <= i < |agencies| => (agencies[i].agencyId, agencies[i]))
  }

  /** `tripById`, `routeById` and `agencyById`. */
  datatype Tables = Tables(tripById: map<string, Trip>, routeById: map<string, Route>,
                           agencyById: map<string, Agency>)

  function TablesOf(ds: Dataset): Tables {
    Tables(Assoc(TripPairs(ds.trips)), Assoc(RoutePairs(ds.routes)), Assoc(AgencyPairs(ds.agencies)))
  }

  /** The trip table finds exactly the ids some trip has; a repeated id
      finds its last trip. */
  lemma TripTable(ds: Dataset, id: string)
    ensures id in TablesOf(ds).tripById <==> exists i :: 0 <= i < |ds.trips| && ds.trips[i].tripId == id
    ensures forall i :: (0 <= i < |ds.trips| && ds.trips[i].tripId == id
                         && forall j :: i < j < |ds.trips| ==> ds.trips[j].tripId != id) ==>
      TablesOf(ds).tripById[id] == ds.trips[i]
  {
    var ps := TripPairs(ds.trips);
    assert forall i :: 0 <= i < |ds.trips| ==> ps[i].0 == ds.trips[i].tripId;
    forall i | 0 <= i < |ds.trips| && ds.trips[i].tripId == id
               && (forall j :: i < j < |ds.trips| ==> ds.trips[j].tripId != id)
      ensures TablesOf(ds).tripById[id] == ds.trips[i]
    {
      AssocLast(ps, i);
    }
  }

  lemma RouteTable(ds: Dataset, id: string)
    ensures id in TablesOf(ds).routeById <==> exists i :: 0 <= i < |ds.routes| && ds.routes[i].routeId == id
    ensures forall i :: (0 <= i < |ds.routes| && ds.routes[i].routeId == id
                         && forall j :: i < j < |ds.routes| ==> ds.routes[j].routeId != id) ==>
      TablesOf(ds).routeById[id] == ds.routes[i]
  {
    var ps := RoutePairs(ds.routes);
    assert forall i :: 0 <= i < |ds.routes| ==> ps[i].0 == ds.routes[i].routeId;
    forall i | 0 <= i < |ds.routes| && ds.routes[i].routeId == id
               && (forall j :: i < j < |ds.routes| ==> ds.routes[j].routeId != id)
      ensures TablesOf(ds).routeById[id] == ds.routes[i]
    {
      AssocLast(ps, i);
    }
  }

  lemma AgencyTable(ds: Dataset, id: string)
    ensures id in TablesOf(ds).agencyById <==> exists i :: 0 <= i < |ds.agencies| && ds.agencies[i].agencyId == id
    ensures forall i :: (0 <= i < |ds.agencies| && ds.agencies[i].agencyId == id
                         && forall j :: i < j < |ds.agencies| ==> ds.agencies[j].agencyId != id) ==>
      TablesOf(ds).agencyById[id] == ds.agencies[i]
  {
    var ps := AgencyPairs(ds.agencies);
    assert forall i :: 0 <= i < |ds.agencies| ==> ps[i].0 == ds.agencies[i].agencyId;
    forall i | 0 <= i < |ds.agencies| && ds.agencies[i].agencyId == id
               && (forall j :: i < j < |ds.agencies| ==> ds.agencies[j].agencyId != id)
      ensures TablesOf(ds).agencyById[id] == ds.agencies[i]
    {
      AssocLast(ps, i);
    }
  }

  // ---------------------------------------------------------------------
  // One row.

  /** `route?.route_short_name?.trim() || route?.route_long_name?.trim() || "系統不明"`. */
  function RouteLabel(route: Option<Route>): string {
    if route.Some? && Trim(route.value.shortName) != [] then Trim(route.value.shortName)
    else if route.Some? && Trim(route.value.longName) != [] then Trim(route.value.longName)
    else UnknownRoute
  }

  /** The label is never blank, and is the short name when that has any
      non-space character, else the long name when that has one. */
  lemma RouteLabelRules(route: Option<Route>)
    ensures RouteLabel(route) != []
    ensures route.Some? && (exists i :: 0 <= i < |route.value.shortName| && !IsSpace(route.value.shortName[i])) ==>
      RouteLabel(route) == Trim(route.value.shortName)
    ensures route.Some? && (forall i :: 0 <= i < |route.value.shortName| ==> IsSpace(route.value.shortName[i]))
                        && (exists i :: 0 <= i < |route.value.longName| && !IsSpace(route.value.longName[i])) ==>
      RouteLabel(route) == Trim(route.value.longName)
    ensures (route.None? || ((forall i :: 0 <= i < |route.value.shortName| ==> IsSpace(route.value.shortName[i]))
                          && (forall i :: 0 <= i < |route.value.longName| ==> IsSpace(route.value.longName[i])))) ==>
      RouteLabel(route) == UnknownRoute
  {
    if route.Some? {
      TrimEmptyIff(route.value.shortName);
      TrimEmptyIff(route.value.longName);
    }
  }

  /** `agency?.agency_name || "事業者不明"`. */
  function AgencyLabel(agency: Option<Agency>): (name: string)
    ensures name != []
    ensures agency.Some? && agency.value.agencyName != [] ==> name == agency.value.agencyName
  {
    if agency.Some? && agency.value.agencyName != [] then agency.value.agencyName else UnknownAgency
  }

  /** `route ? agencyById.get(route.agency_id) : ds.agencies[0]`. */
  function ResolveAgency(ds: Dataset, t: Tables, route: Option<Route>): Option<Agency> {
    if route.Some? then Get(t.agencyById, route.value.agencyId)
    else if |ds.agencies| > 0 then Some(ds.agencies[0])
    else None
  }

  function OperatorOf(ds: Dataset): Operator {
    if ds.isHiroden then Hiroden else Other
  }

  /** The row a stop time gives, or none when its trip is unknown. */
  function RowFor(ds: Dataset, t: Tables, st: StopTime): (r: Option<TimetableRow>)
    ensures r.Some? <==> st.tripId in t.tripById
    ensures r.Some? ==> r.value.departureTime == st.departureTime && r.value.headsign == t.tripById[st.tripId].headsign
    ensures r.Some? ==> r.value.route != [] && r.value.agencyName != []
  {
    match Get(t.tripById, st.tripId)
    case None => None
    case Some(trip) =>
      var route := Get(t.routeById, trip.routeId);
      Some(TimetableRow(OperatorOf(ds), AgencyLabel(ResolveAgency(ds, t, route)), RouteLabel(route),
                        trip.headsign, st.departureTime))
  }

  /** A stop time gives a row exactly when some trip of the feed has its
      trip id; the row carries the departure time, the headsign of the last
      such trip, the feed's operator and a route label that is not blank and an
      agency label that is not empty. */
  lemma RowForTrip(ds: Dataset, st: StopTime, i: nat)
    requires i < |ds.trips| && ds.trips[i].tripId == st.tripId
    requires forall j :: i < j < |ds.trips| ==> ds.trips[j].tripId != st.tripId
    ensures RowFor(ds, TablesOf(ds), st).Some?
    ensures var r := RowFor(ds, TablesOf(ds), st).value;
      && r.departureTime == st.departureTime
      && r.headsign == ds.trips[i].headsign
      && (r.operator == Hiroden <==> ds.isHiroden)
      && r.route != [] && r.agencyName != []
  {
    TripTable(ds, st.tripId);
    RouteLabelRules(Get(TablesOf(ds).routeById, ds.trips[i].routeId));
  }

  /** In the ordinary case the row joins the trip to its route, the last
      route with the trip's route id, and that route to its agency, the last
      agency with the route's agency id. */
  lemma RowJoins(ds: Dataset, st: StopTime, i: nat, k: nat, a: nat)
    requires i < |ds.trips| && ds.trips[i].tripId == st.tripId
    requires forall j :: i < j < |ds.trips| ==> ds.trips[j].tripId != st.tripId
    requires k < |ds.routes| && ds.routes[k].routeId == ds.trips[i].routeId
    requires forall j :: k < j < |ds.routes| ==> ds.routes[j].routeId != ds.trips[i].routeId
    requires a < |ds.agencies| && ds.agencies[a].agencyId == ds.routes[k].agencyId
    requires forall j :: a < j < |ds.agencies| ==> ds.agencies[j].agencyId != ds.routes[k].agencyId
    ensures RowFor(ds, TablesOf(ds), st).Some?
    ensures RowFor(ds, TablesOf(ds), st).value.route == RouteLabel(Some(ds.routes[k]))
    ensures RowFor(ds, TablesOf(ds), st).value.agencyName == AgencyLabel(Some(ds.agencies[a]))
  {
    TripTable(ds, st.tripId);
    RouteTable(ds, ds.trips[i].routeId);
    AgencyTable(ds, ds.routes[k].agencyId);
  }

  lemma NoTripNoRow(ds: Dataset, st: StopTime)
    requires forall i :: 0 <= i < |ds.trips| ==> ds.trips[i].tripId != st.tripId
    ensures RowFor(ds, TablesOf(ds), st) == None
  {
    TripTable(ds, st.tripId);
  }

  /** A trip whose route id no route has gets the route label 系統不明 and
      the first agency of the feed, or 事業者不明 when the feed has none. */
  lemma UnknownRouteFallback(ds: Dataset, st: StopTime, trip: Trip)
    requires Get(TablesOf(ds).tripById, st.tripId) == Some(trip)
    requires forall k :: 0 <= k < |ds.routes| ==> ds.routes[k].routeId != trip.routeId
    ensures RowFor(ds, TablesOf(ds), st).Some?
    ensures RowFor(ds, TablesOf(ds), st).value.route == UnknownRoute
    ensures RowFor(ds, TablesOf(ds), st).value.agencyName ==
      (if |ds.agencies| > 0 && ds.agencies[0].agencyName != [] then ds.agencies[0].agencyName else UnknownAgency)
  {
    RouteTable(ds, trip.routeId);
  }

  /** A trip whose route names an agency id no agency has is run by 事業者不明,
      even when the feed has agencies. */
  lemma UnknownAgencyOfRoute(ds: Dataset, st: StopTime, trip: Trip, route: Route)
    requires Get(TablesOf(ds).tripById, st.tripId) == Some(trip)
    requires Get(TablesOf(ds).routeById, trip.routeId) == Some(route)
    requires forall k :: 0 <= k < |ds.agencies| ==> ds.agencies[k].agencyId != route.agencyId
    ensures RowFor(ds, TablesOf(ds), st).Some?
    ensures RowFor(ds, TablesOf(ds), st).value.agencyName == UnknownAgency
  {
    AgencyTable(ds, route.agencyId);
  }

  /** In a dataset assembled from a feed, a row is 広電's exactly when some
      agency name of the feed contains 広島電鉄. */
  lemma HirodenRows(id: string, agencyTxt: Option<string>, stopsTxt: Option<string>,
                    routesTxt: Option<string>, tripsTxt: Option<string>, stopTimesTxt: Option<string>,
                    st: StopTime)
    requires var ds := AssembleDataset(id, agencyTxt, stopsTxt, routesTxt, tripsTxt, stopTimesTxt);
      RowFor(ds, TablesOf(ds), st).Some?
    ensures var ds := AssembleDataset(id, agencyTxt, stopsTxt, routesTxt, tripsTxt, stopTimesTxt);
      RowFor(ds, TablesOf(ds), st).value.operator == Hiroden <==>
      exists i :: 0 <= i < |ReadAgencies(agencyTxt)| && Includes(ReadAgencies(agencyTxt)[i].agencyName, HirodenName)
  {
    IsHirodenIff(id, agencyTxt, stopsTxt, routesTxt, tripsTxt, stopTimesTxt);
  }

  // ---------------------------------------------------------------------
  // The rows of one feed.

  predicate InDataset(id: string, m: Member) {
    m.datasetId == id
  }

  /** `members.filter((m) => m.datasetId === ds.id).map((m) => m.stopId)`. */
  function MemberStopIds(members: seq<Member>, id: string): seq<string> {
    var ms := Filter(members, (m: Member) => InDataset(id, m));
    seq(|ms|, i requires 0 <= i < |ms| => ms[i].stopId)
  }

  /** The ids are exactly the stop ids of the members from feed `id`. */
  lemma MemberStopIdsIff(members: seq<Member>, id: string, x: string)
    ensures x in MemberStopIds(members, id) <==>
      exists k :: 0 <= k < |members| && members[k].datasetId == id && members[k].stopId == x
  {
    var p := (m: Member) => InDataset(id, m);
    var ms := Filter(members, p);
    FilterMembers(members, p);
    var ids := MemberStopIds(members, id);
    if x in ids {
      var i :| 0 <= i < |ids| && ids[i] == x;
      assert ms[i] in members && p(ms[i]);
      var k :| 0 <= k < |members| && members[k] == ms[i];
    }
    if exists k :: 0 <= k < |members| && members[k].datasetId == id && members[k].stopId == x {
      var k :| 0 <= k < |members| && members[k].datasetId == id && members[k].stopId == x;
      assert p(members[k]);
      assert members[k] in ms;
      var i :| 0 <= i < |ms| && ms[i] == members[k];
      assert ids[i] == x;
    }
  }

  /** `st => memberStopIds.includes(st.stop_id)`. */
  function AtStops(ids: seq<string>): StopTime -> bool {
    (st: StopTime) => st.stopId in ids
  }

  /** The rows of the given stop times, in their order. */
  function Rows(ds: Dataset, t: Tables, sts: seq<StopTime>): (rows: seq<TimetableRow>)
    ensures |rows| <= |sts|
    decreases |sts|
  {
    if sts == [] then []
    else
      var n := |sts| - 1;
      Rows(ds, t, sts[..n]) + (match RowFor(ds, t, sts[n]) case Some(r) => [r] case None => [])
  }

  /** Some stop time among `sts` gives the row `r`. */
  predicate GivesRow(ds: Dataset, t: Tables, sts: seq<StopTime>, r: TimetableRow) {
    exists j :: 0 <= j < |sts| && RowFor(ds, t, sts[j]) == Some(r)
  }

  lemma GivesRowSnoc(ds: Dataset, t: Tables, sts: seq<StopTime>, r: TimetableRow)
    requires sts != []
    ensures GivesRow(ds, t, sts, r) <==>
      GivesRow(ds, t, sts[..|sts| - 1], r) || RowFor(ds, t, sts[|sts| - 1]) == Some(r)
  {
    var n := |sts| - 1;
    if GivesRow(ds, t, sts, r) {
      var j :| 0 <= j < |sts| && RowFor(ds, t, sts[j]) == Some(r);
      if j < n {
        assert sts[..n][j] == sts[j];
      }
    }
    if GivesRow(ds, t, sts[..n], r) {
      var j :| 0 <= j < n && RowFor(ds, t, sts[..n][j]) == Some(r);
      assert sts[..n][j] == sts[j];
    }
  }

  /** One row per stop time whose trip is known, and no other. */
  lemma {:induction false} RowsIff(ds: Dataset, t: Tables, sts: seq<StopTime>, r: TimetableRow)
    ensures r in Rows(ds, t, sts) <==> GivesRow(ds, t, sts, r)
    decreases |sts|
  {
    if sts != [] {
      var n := |sts| - 1;
      RowsIff(ds, t, sts[..n], r);
      GivesRowSnoc(ds, t, sts, r);
    }
  }

  /** One feed's rows: none when no member is from it, else one per stop
      time at a member stop whose trip is known, in file order. */
  function DatasetRows(ds: Dataset, members: seq<Member>): seq<TimetableRow> {
    var ids := MemberStopIds(members, ds.id);
    if ids == [] then [] else Rows(ds, TablesOf(ds), Filter(ds.stopTimes, AtStops(ids)))
  }

  /** Some stop time among `sts` at one of the stops `ids` gives the row `r`. */
  predicate GivesRowAt(ds: Dataset, t: Tables, sts: seq<StopTime>, ids: seq<string>, r: TimetableRow) {
    exists j :: 0 <= j < |sts| && sts[j].stopId in ids && RowFor(ds, t, sts[j]) == Some(r)
  }

  lemma FilteredGivesRow(ds: Dataset, t: Tables, sts: seq<StopTime>, ids: seq<string>, r: TimetableRow)
    ensures GivesRow(ds, t, Filter(sts, AtStops(ids)), r) <==> GivesRowAt(ds, t, sts, ids, r)
  {
    if GivesRow(ds, t, Filter(sts, AtStops(ids)), r) {
      FilteredRowAt(ds, t, sts, ids, r);
    }
    if GivesRowAt(ds, t, sts, ids, r) {
      RowAtFiltered(ds, t, sts, ids, r);
    }
  }

  lemma FilteredRowAt(ds: Dataset, t: Tables, sts: seq<StopTime>, ids: seq<string>, r: TimetableRow)
    requires GivesRow(ds, t, Filter(sts, AtStops(ids)), r)
    ensures GivesRowAt(ds, t, sts, ids, r)
  {
    var p := AtStops(ids);
    var kept := Filter(sts, p);
    FilterMembers(sts, p);
    var j' :| 0 <= j' < |kept| && RowFor(ds, t, kept[j']) == Some(r);
    assert kept[j'] in sts && p(kept[j']);
    var j :| 0 <= j < |sts| && sts[j] == kept[j'];
    assert sts[j].stopId in ids && RowFor(ds, t, sts[j]) == Some(r);
  }

  lemma RowAtFiltered(ds: Dataset, t: Tables, sts: seq<StopTime>, ids: seq<string>, r: TimetableRow)
    requires GivesRowAt(ds, t, sts, ids, r)
    ensures GivesRow(ds, t, Filter(sts, AtStops(ids)), r)
  {
    var p := AtStops(ids);
    var kept := Filter(sts, p);
    FilterMembers(sts, p);
    var j :| 0 <= j < |sts| && sts[j].stopId in ids && RowFor(ds, t, sts[j]) == Some(r);
    assert p(sts[j]);
    assert sts[j] in kept;
    var j' :| 0 <= j' < |kept| && kept[j'] == sts[j];
    assert RowFor(ds, t, kept[j']) == Some(r);
  }

  /** A row belongs to a feed's part of the timetable exactly when a stop
      time of that feed at one of the aggregate's member stops gives it. */
  lemma DatasetRowsIff(ds: Dataset, members: seq<Member>, r: TimetableRow)
    ensures r in DatasetRows(ds, members) <==>
      exists j :: 0 <= j < |ds.stopTimes| && ds.stopTimes[j].stopId in MemberStopIds(members, ds.id)
               && RowFor(ds, TablesOf(ds), ds.stopTimes[j]) == Some(r)
  {
    var ids := MemberStopIds(members, ds.id);
    if ids != [] {
      RowsIff(ds, TablesOf(ds), Filter(ds.stopTimes, AtStops(ids)), r);
      FilteredGivesRow(ds, TablesOf(ds), ds.stopTimes, ids, r);
    }
  }

  /** A feed with no member stop in the aggregate adds no row. */
  lemma NoMemberNoRows(ds: Dataset, members: seq<Member>)
    requires forall k :: 0 <= k < |members| ==> members[k].datasetId != ds.id
    ensures DatasetRows(ds, members) == []
  {
    var ids := MemberStopIds(members, ds.id);
    if ids != [] {
      MemberStopIdsIff(members, ds.id, ids[0]);
    }
  }

  /** `datasets.forEach(...)`: the feeds' rows one feed after another. */
  function CollectRows(datasets: seq<Dataset>, members: seq<Member>): seq<TimetableRow>
    decreases |datasets|
  {
    if datasets == [] then []
    else
      var n := |datasets| - 1;
      CollectRows(datasets[..n], members) + DatasetRows(datasets[n], members)
  }

  /** Some element of `xs` has `r` among its `f`-values. */
  predicate InSome<T, U(==)>(xs: seq<T>, f: T -> seq<U>, r: U) {
    exists d :: 0 <= d < |xs| && r in f(xs[d])
  }

  lemma InSomeSnoc<T, U>(xs: seq<T>, f: T -> seq<U>, r: U)
    requires xs != []
    ensures InSome(xs, f, r) <==> InSome(xs[..|xs| - 1], f, r) || r in f(xs[|xs| - 1])
  {
    var n := |xs| - 1;
    if InSome(xs, f, r) {
      var d :| 0 <= d < |xs| && r in f(xs[d]);
      if d < n {
        assert xs[..n][d] == xs[d];
      }
    }
    if InSome(xs[..n], f, r) {
      var d :| 0 <= d < n && r in f(xs[..n][d]);
      assert xs[..n][d] == xs[d];
    }
  }

  function RowsFor(members: seq<Member>): Dataset -> seq<TimetableRow> {
    ds => DatasetRows(ds, members)
  }

  /** The collected rows are those of the feeds, and no other. */
  lemma {:induction false} CollectRowsIff(datasets: seq<Dataset>, members: seq<Member>, r: TimetableRow)
    ensures r in CollectRows(datasets, members) <==> InSome(datasets, RowsFor(members), r)
    decreases |datasets|
  {
    if datasets != [] {
      var n := |datasets| - 1;
      CollectRowsIff(datasets[..n], members, r);
      InSomeSnoc(datasets, RowsFor(members), r);
    }
  }

  // ---------------------------------------------------------------------
  // The timetable.

  /** `getTimetableRows`: no rows without a stop, else every feed's rows
      sorted by `parseTimeToSeconds(departureTime)`. */
  function TimetableRows(datasets: seq<Dataset>, stop: Option<AggregatedStop>): (rows: seq<TimetableRow>)
    ensures stop.None? ==> rows == []
    ensures stop.Some? ==> multiset(rows) == multiset(CollectRows(datasets, stop.value.members))
  {
    if stop.None? then []
    else
      SortByPermutes(DepartureKey, CollectRows(datasets, stop.value.members));
      SortBy(DepartureKey, CollectRows(datasets, stop.value.members))
  }

  /** A row is in the timetable exactly when a stop time of some feed, at
      one of the aggregate's member stops of that feed, gives it. */
  lemma TimetableRowsIff(datasets: seq<Dataset>, stop: AggregatedStop, r: TimetableRow)
    ensures r in TimetableRows(datasets, Some(stop)) <==>
      exists d :: 0 <= d < |datasets| && r in DatasetRows(datasets[d], stop.members)
  {
    var rows := CollectRows(datasets, stop.members);
    SortByPermutes(DepartureKey, rows);
    assert r in SortBy(DepartureKey, rows) <==> r in multiset(rows);
    CollectRowsIff(datasets, stop.members, r);
  }

  /** When every departure time reads as a number, the timetable ascends by
      it, and rows of equal time keep the order they were collected in. */
  lemma TimetableRowsSorted(datasets: seq<Dataset>, stop: AggregatedStop, v: JsNumber)
    requires AllNumeric(DepartureKey, CollectRows(datasets, stop.members))
    ensures AllNumeric(DepartureKey, TimetableRows(datasets, Some(stop)))
    ensures Ascending(DepartureKey, TimetableRows(datasets, Some(stop)))
    ensures Filter(TimetableRows(datasets, Some(stop)), HasKey(DepartureKey, v))
         == Filter(CollectRows(datasets, stop.members), HasKey(DepartureKey, v))
  {
    SortByAscending(DepartureKey, CollectRows(datasets, stop.members));
    SortByStable(DepartureKey, CollectRows(datasets, stop.members), v);
  }

  // ---------------------------------------------------------------------
  // The loops.

  lemma RowsStep(ds: Dataset, t: Tables, sts: seq<StopTime>, i: nat)
    requires i < |sts|
    ensures Rows(ds, t, sts[..i + 1]) ==
      Rows(ds, t, sts[..i]) + (match RowFor(ds, t, sts[i]) case Some(r) => [r] case None => [])
  {
    assert sts[..i + 1][..i] == sts[..i];
  }

  lemma CollectStep(datasets: seq<Dataset>, members: seq<Member>, d: nat)
    requires d < |datasets|
    ensures CollectRows(datasets[..d + 1], members) == CollectRows(datasets[..d], members) + DatasetRows(datasets[d], members)
  {
    assert datasets[..d + 1][..d] == datasets[..d];
  }

  /** The `forEach` over one feed's stop times at the member stops. */
  method FeedRows(ds: Dataset, members: seq<Member>) returns (rows: seq<TimetableRow>)
    ensures rows == DatasetRows(ds, members)
  {
    var ids := MemberStopIds(members, ds.id);
    if |ids| == 0 {
      return [];
    }
    var tables := TablesOf(ds);
    var sts := Filter(ds.stopTimes, AtStops(ids));
    rows := [];
    var i := 0;
    while i < |sts|
      invariant i <= |sts|
      invariant rows == Rows(ds, tables, sts[..i])
    {
      RowsStep(ds, tables, sts, i);
      match RowFor(ds, tables, sts[i]) {
        case Some(r) => rows := rows + [r];
        case None =>
      }
      i := i + 1;
    }
    assert sts[..i] == sts;
  }

  method GetTimetableRows(datasets: seq<Dataset>, aggregatedStop: Option<AggregatedStop>)
    returns (rows: seq<TimetableRow>)
    ensures rows == TimetableRows(datasets, aggregatedStop)
  {
    if aggregatedStop.None? {
      return [];
    }
    var members := aggregatedStop.value.members;
    var collected: seq<TimetableRow> := [];
    var d := 0;
    while d < |datasets|
      invariant d <= |datasets|
      invariant collected == CollectRows(datasets[..d], members)
    {
      var more := FeedRows(datasets[d], members);
      CollectStep(datasets, members, d);
      collected := collected + more;
      d := d + 1;
    }
    assert datasets[..d] == datasets;
    rows := SortBy(DepartureKey, collected);
  }
}
