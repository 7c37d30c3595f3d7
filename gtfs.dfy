/** The typed rows of a GTFS Schedule feed, the loaders that read them from
    the CSV files `agency.txt`, `stops.txt`, `routes.txt`, `trips.txt` and
    `stop_times.txt`, and the assembly of one dataset. */
module Gtfs {
  import opened Builtins
  import opened Csv

  datatype Agency = Agency(agencyId: string, agencyName: string)

  /** Coordinates as `Number(...)` reads them; the loader keeps only the stops
      whose both coordinates are numbers. */
  datatype Stop = Stop(stopId: string, stopName: string, lat: JsNumber, lon: JsNumber)

  datatype Route = Route(routeId: string, agencyId: string, shortName: string, longName: string)

  datatype Trip = Trip(tripId: string, routeId: string, serviceId: string, headsign: string)

  datatype StopTime = StopTime(tripId: string, arrivalTime: string, departureTime: string,
                               stopId: string, stopSequence: JsNumber)

  /** One loaded feed; `id` is the name of its file. */
  datatype Dataset = Dataset(id: string, agencies: seq<Agency>, stops: seq<Stop>, routes: seq<Route>,
                             trips: seq<Trip>, stopTimes: seq<StopTime>, isHiroden: bool)

  /** The operator whose feeds the application singles out. */
  const HirodenName: string := "広島電鉄"

  // ---------------------------------------------------------------------
  // Reading a column of a record.

  /** `r.k ?? ""`. */
  function Field(r: CsvRecord, k: string): string {
    if k in r then r[k] else ""
  }

  /** `Number(r.k)`: an absent column is `undefined`, which reads as NaN. */
  function NumberField(r: CsvRecord, k: string): JsNumber {
    if k in r then ToNumber(r[k]) else NaN
  }

  /** The records of a file: none when the file is absent or empty
      (`if (!content) return []`). */
  function Records(content: Option<string>): (rs: seq<CsvRecord>)
    ensures content.None? || content == Some([]) ==> rs == []
    ensures content.Some? && content.value != [] ==> |rs| == |DataLines(content.value)|
  {
    if content.None? || content.value == [] then [] else ParseCsv(content.value)
  }

  // ---------------------------------------------------------------------
  // The loaders.

  function AgencyOf(r: CsvRecord): Agency {
    Agency(Field(r, "agency_id"), Field(r, "agency_name"))
  }

  /** `readAgencies`: one agency per record. */
  function ReadAgencies(content: Option<string>): (agencies: seq<Agency>)
    ensures |agencies| == |Records(content)|
  {
    var rs := Records(content);
    seq(|rs|, i requires 0 <= i < |rs| => AgencyOf(rs[i]))
  }

  function StopOf(r: CsvRecord): Stop {
    Stop(Field(r, "stop_id"), Field(r, "stop_name"), NumberField(r, "stop_lat"), NumberField(r, "stop_lon"))
  }

  predicate HasCoordinates(s: Stop) {
    s.lat.Num? && s.lon.Num?
  }

  function StopsOf(rs: seq<CsvRecord>): (stops: seq<Stop>)
    ensures |stops| == |rs|
  {
    seq(|rs|, i requires 0 <= i < |rs| => StopOf(rs[i]))
  }

  /** `readStops`: one stop per record, then only those whose coordinates
      are both numbers. */
  function ReadStops(content: Option<string>): (stops: seq<Stop>)
    ensures |stops| <= |Records(content)|
  {
    Filter(StopsOf(Records(content)), HasCoordinates)
  }

  function RouteOf(r: CsvRecord): Route {
    Route(Field(r, "route_id"), Field(r, "agency_id"), Field(r, "route_short_name"), Field(r, "route_long_name"))
  }

  /** `readRoutes`: one route per record. */
  function ReadRoutes(content: Option<string>): (routes: seq<Route>)
    ensures |routes| == |Records(content)|
  {
    var rs := Records(content);
    seq(|rs|, i requires 0 <= i < |rs| => RouteOf(rs[i]))
  }

  function TripOf(r: CsvRecord): Trip {
    Trip(Field(r, "trip_id"), Field(r, "route_id"), Field(r, "service_id"), Field(r, "trip_headsign"))
  }

  /** `readTrips`: one trip per record. */
  function ReadTrips(content: Option<string>): (trips: seq<Trip>)
    ensures |trips| == |Records(content)|
  {
    var rs := Records(content);
    seq(|rs|, i requires 0 <= i < |rs| => TripOf(rs[i]))
  }

  /** `r.k ?? d`. */
  function FieldOr(r: CsvRecord, k: string, d: string): string {
    if k in r then r[k] else d
  }

  /** `Number(r.stop_sequence ?? "0")`: an absent column reads as 0. */
  function StopTimeOf(r: CsvRecord): StopTime {
    StopTime(Field(r, "trip_id"), Field(r, "arrival_time"), Field(r, "departure_time"), Field(r, "stop_id"),
             ToNumber(FieldOr(r, "stop_sequence", "0")))
  }

  predicate HasIds(st: StopTime) {
    st.tripId != [] && st.stopId != []
  }

  function StopTimesOf(rs: seq<CsvRecord>): (sts: seq<StopTime>)
    ensures |sts| == |rs|
  {
    seq(|rs|, i requires 0 <= i < |rs| => StopTimeOf(rs[i]))
  }

  /** `readStopTimes`: one stop time per record, then only those with a
      non-empty trip id and stop id. */
  function ReadStopTimes(content: Option<string>): (sts: seq<StopTime>)
    ensures |sts| <= |Records(content)|
  {
    Filter(StopTimesOf(Records(content)), HasIds)
  }

  // ---------------------------------------------------------------------
  // parseGtfsZip, once the five files have been read out of the archive.

  predicate IsHirodenAgency(a: Agency) {
    Includes(a.agencyName, HirodenName)
  }

  /** The dataset of a feed whose file is named `id`, from the texts of its
      five files (`None` for a file the archive lacks). */
  function AssembleDataset(id: string, agencyTxt: Option<string>, stopsTxt: Option<string>,
                           routesTxt: Option<string>, tripsTxt: Option<string>,
                           stopTimesTxt: Option<string>): (ds: Dataset)
    ensures ds.id == id
    ensures ds.agencies == ReadAgencies(agencyTxt) && ds.stops == ReadStops(stopsTxt)
    ensures ds.routes == ReadRoutes(routesTxt) && ds.trips == ReadTrips(tripsTxt)
    ensures ds.stopTimes == ReadStopTimes(stopTimesTxt)
  {
    var agencies := ReadAgencies(agencyTxt);
    Dataset(id, agencies, ReadStops(stopsTxt), ReadRoutes(routesTxt), ReadTrips(tripsTxt),
            ReadStopTimes(stopTimesTxt), FindIndex(agencies, IsHirodenAgency) >= 0)
  }

  // ---------------------------------------------------------------------
  // Properties of the loaders.

  /** An absent or empty file yields no rows. */
  lemma NoFileNoRows(content: Option<string>)
    requires content.None? || content == Some("")
    ensures ReadAgencies(content) == [] && ReadStops(content) == [] && ReadRoutes(content) == []
    ensures ReadTrips(content) == [] && ReadStopTimes(content) == []
  {
  }

  /** A non-empty file has one record per data line of its CSV text. */
  lemma RecordsOfText(text: string)
    requires text != []
    ensures Records(Some(text)) == ParseCsv(text)
    ensures |Records(Some(text))| == |DataLines(text)|
  {
  }

  /** The loaders that filter nothing give one row per data line. */
  lemma OneRowPerLine(text: string)
    requires text != []
    ensures |ReadAgencies(Some(text))| == |DataLines(text)|
    ensures |ReadRoutes(Some(text))| == |DataLines(text)|
    ensures |ReadTrips(Some(text))| == |DataLines(text)|
  {
    RecordsOfText(text);
  }

  /** Record `i` of a file is data line `i` read under the header. */
  lemma RecordOfLine(text: string, i: nat)
    requires text != [] && i < |DataLines(text)|
    ensures i < |Records(Some(text))|
    ensures Records(Some(text))[i] == Record(Header(text), Fields(DataLines(text)[i]))
  {
    RecordsOfText(text);
    ParseCsvRecordAt(text);
  }

  /** A column named `k` gives the field of data line `i` under the last
      header column of that name. */
  lemma FieldIsColumn(text: string, k: string, i: nat, j: nat)
    requires text != [] && i < |DataLines(text)|
    requires j < |Header(text)| && Header(text)[j] == k
    requires forall j' :: j < j' < |Header(text)| ==> Header(text)[j'] != k
    ensures i < |Records(Some(text))|
    ensures Field(Records(Some(text))[i], k) == Column(Fields(DataLines(text)[i]), j)
  {
    RecordOfLine(text, i);
    FieldOfRecord(Header(text), Fields(DataLines(text)[i]), j);
  }

  lemma FieldOfRecord(header: seq<string>, cols: seq<string>, j: nat)
    requires j < |header|
    requires forall j' :: j < j' < |header| ==> header[j'] != header[j]
    ensures Field(Record(header, cols), header[j]) == Column(cols, j)
  {
    RecordValue(header, cols, j);
  }

  /** A column the header lacks reads as "" as text and as NaN as a number. */
  lemma FieldMissing(text: string, k: string, i: nat)
    requires text != [] && i < |Records(Some(text))|
    requires forall j :: 0 <= j < |Header(text)| ==> Header(text)[j] != k
    ensures k !in Records(Some(text))[i]
    ensures Field(Records(Some(text))[i], k) == "" && NumberField(Records(Some(text))[i], k) == NaN
  {
    RecordsOfText(text);
    var header, r := Header(text), Records(Some(text))[i];
    assert r.Keys == set j | 0 <= j < |header| :: header[j] by { ParseCsvKeys(text); }
    AbsentKey(r.Keys, header, k);
  }

  /** A name no header column has is no key of the record. */
  lemma AbsentKey(keys: set<string>, header: seq<string>, k: string)
    requires keys == set j | 0 <= j < |header| :: header[j]
    requires forall j :: 0 <= j < |header| ==> header[j] != k
    ensures k !in keys
  {
    forall x | x in keys ensures x != k {
      var j :| 0 <= j < |header| && header[j] == x;
    }
  }

  /** `readStops` keeps exactly the stops whose coordinates both parse. */
  lemma ReadStopsExactly(content: Option<string>)
    ensures forall s :: s in ReadStops(content) ==> s in StopsOf(Records(content)) && HasCoordinates(s)
    ensures forall i :: 0 <= i < |Records(content)| && HasCoordinates(StopOf(Records(content)[i])) ==>
      StopOf(Records(content)[i]) in ReadStops(content)
  {
    var all := StopsOf(Records(content));
    FilterMembers(all, HasCoordinates);
    forall i | 0 <= i < |Records(content)| && HasCoordinates(StopOf(Records(content)[i]))
      ensures StopOf(Records(content)[i]) in ReadStops(content)
    {
      assert all[i] == StopOf(Records(content)[i]);
    }
  }

  /** `readStopTimes` keeps only stop times with both ids. */
  lemma ReadStopTimesSound(content: Option<string>)
    ensures forall st :: st in ReadStopTimes(content) ==>
      st in StopTimesOf(Records(content)) && st.tripId != [] && st.stopId != []
  {
    var all := StopTimesOf(Records(content));
    var kept := ReadStopTimes(content);
    FilterMembers(all, HasIds);
    forall st | st in kept ensures st in all && HasIds(st) {
      var j :| 0 <= j < |kept| && kept[j] == st;
    }
  }

  /** `readStopTimes` keeps every stop time with both ids. */
  lemma ReadStopTimesComplete(content: Option<string>, i: nat)
    requires i < |Records(content)| && HasIds(StopTimeOf(Records(content)[i]))
    ensures StopTimeOf(Records(content)[i]) in ReadStopTimes(content)
  {
    var all := StopTimesOf(Records(content));
    FilterMembers(all, HasIds);
    assert all[i] == StopTimeOf(Records(content)[i]);
  }

  /** Without a `stop_lat` column no stop survives: `Number(undefined)` is
      NaN. */
  lemma NoLatitudeNoStops(text: string)
    requires text != []
    requires forall j :: 0 <= j < |Header(text)| ==> Header(text)[j] != "stop_lat"
    ensures ReadStops(Some(text)) == []
  {
    var rs := Records(Some(text));
    forall i | 0 <= i < |rs| ensures !HasCoordinates(StopsOf(rs)[i]) {
      FieldMissing(text, "stop_lat", i);
    }
    NoneKept(StopsOf(rs), HasCoordinates);
  }

  /** Without a `stop_id` column no stop time survives: every stop id is "". */
  lemma NoStopIdNoStopTimes(text: string)
    requires text != []
    requires forall j :: 0 <= j < |Header(text)| ==> Header(text)[j] != "stop_id"
    ensures ReadStopTimes(Some(text)) == []
  {
    var rs := Records(Some(text));
    forall i | 0 <= i < |rs| ensures !HasIds(StopTimesOf(rs)[i]) {
      FieldMissing(text, "stop_id", i);
    }
    NoneKept(StopTimesOf(rs), HasIds);
  }

  /** A filter that no element passes keeps nothing. */
  lemma {:induction false} NoneKept<T>(xs: seq<T>, p: T -> bool)
    requires forall i :: 0 <= i < |xs| ==> !p(xs[i])
    ensures Filter(xs, p) == []
    decreases |xs|
  {
    if xs != [] {
      assert forall i :: 1 <= i < |xs| ==> xs[1..][i - 1] == xs[i];
      NoneKept(xs[1..], p);
    }
  }

  /** Without a `stop_sequence` column every stop time is number 0. */
  lemma NoSequenceIsZero(text: string)
    requires text != []
    requires forall j :: 0 <= j < |Header(text)| ==> Header(text)[j] != "stop_sequence"
    ensures forall st :: st in ReadStopTimes(Some(text)) ==> st.stopSequence == Num(0.0)
  {
    var rs := Records(Some(text));
    ToNumberDigits("0");
    assert DigitsValue("0") == 0;
    forall i | 0 <= i < |rs| ensures StopTimesOf(rs)[i].stopSequence == Num(0.0) {
      FieldMissing(text, "stop_sequence", i);
    }
    ReadStopTimesSound(Some(text));
  }

  /** A dataset is Hiroden's exactly when one of its agency names contains
      `広島電鉄`. */
  lemma IsHirodenIff(id: string, agencyTxt: Option<string>, stopsTxt: Option<string>,
                     routesTxt: Option<string>, tripsTxt: Option<string>, stopTimesTxt: Option<string>)
    ensures AssembleDataset(id, agencyTxt, stopsTxt, routesTxt, tripsTxt, stopTimesTxt).isHiroden <==>
      exists i :: 0 <= i < |ReadAgencies(agencyTxt)| && Includes(ReadAgencies(agencyTxt)[i].agencyName, HirodenName)
  {
    var agencies := ReadAgencies(agencyTxt);
    var k := FindIndex(agencies, IsHirodenAgency);
    if k >= 0 {
      assert IsHirodenAgency(agencies[k]);
    }
  }
}
