# GTFS timetable core, modelled in Dafny

The application loads one or more GTFS Schedule feeds, each a zip archive, and
merges the stops of all feeds into aggregated stops. A stop joins an existing
aggregate when its normalised name matches and it lies within 30 metres of the
aggregate's representative. For a chosen aggregated stop, the application lists
every departure from its member stops in all feeds, sorted by departure time.
This project models the logic under that:

- `builtins.dfy` (module `Builtins`): the JavaScript built-ins the core relies
  on, as Dafny values. These are
  - white space as `\s` and `trim()` see it;
  - `includes`, `split` on one character and `findIndex`;
  - the `Map` constructor, where the last pair of a key wins;
  - `filter`;
  - the decimal subset of `Number()`;
  - `${n}`;
  - the stable `Array.prototype.sort` with the comparator `key(a) - key(b)`.
- `csv.dfy` (module `Csv`): the quote-aware line splitter, written as a loop
  and proved against a recursive scan. Also `parseCsv`, which trims the text,
  splits it at `\r?\n`, takes the first line as the header, skips blank lines
  and builds one record per data line.
- `gtfs.dfy` (module `Gtfs`): the feed entities, the five loaders
  (`agency.txt`, `stops.txt`, `routes.txt`, `trips.txt`, `stop_times.txt`),
  and the assembly of a dataset with its `isHiroden` flag.
- `stopnames.dfy` (module `StopNames`): `normalizeStopName`. It applies four
  global deletions and then lower-cases.
- `aggregation.dfy` (module `Aggregation`): `aggregateStops`. Its nested loops
  are methods proved against a fold, `Aggregate`, and the lemmas say what the
  fold builds.
- `timetable.dfy` (module `Timetable`): `parseTimeToSeconds` and the lookup
  tables of a feed. Also the row each stop time gives and the rows of a feed,
  then `getTimetableRows` as loops proved against `TimetableRows`.

`parseCsv` trims the whole text before it splits it into lines. White space
at the start of the header line and at the end of the last line is therefore
dropped too, not only blank lines. The model follows the code here.

## Model

| member | source | states |
|---|---|---|
| Builtins.TrimStart | src/lib/csv.ts:5 | removes exactly the leading white space: what is left is a suffix, everything removed is white space, and what is left does not start with white space |
| Builtins.TrimEnd | src/lib/csv.ts:5 | removes exactly the trailing white space, symmetrically |
| Builtins.TrimEmptyIff | src/lib/csv.ts:10 | a string trims to nothing exactly when every character of it is white space |
| Builtins.IncludesIff | src/lib/gtfs.ts:82 | `includes` holds exactly when the substring occurs at some index |
| Builtins.FindIndex | src/lib/gtfs.ts:82 | the result is -1 or an index satisfying the predicate, and no earlier index (none at all for -1) satisfies it |
| Builtins.SplitOn | src/lib/gtfs.ts:236 | `split(":")` gives at least one part, and no part contains the separator |
| Builtins.SplitOnJoin | src/lib/gtfs.ts:236 | joining the parts with the separator gives the string back |
| Builtins.SplitJoin | src/lib/gtfs.ts:236 | parts free of the separator, joined with it, split back into themselves |
| Builtins.Assoc | src/lib/gtfs.ts:202-204 | the keys of `new Map(pairs)` are exactly the keys of the pairs |
| Builtins.AssocLast | src/lib/gtfs.ts:202-204 | a key maps to the value of its last pair |
| Builtins.FilterMembers | src/lib/gtfs.ts:145 | `filter` keeps every element satisfying the predicate and only such elements |
| Builtins.ToNumberDigits | src/lib/gtfs.ts:236 | `Number()` of a non-empty digit string is its decimal value |
| Builtins.ToNumber | src/lib/gtfs.ts:109-110 | the modelled `Number()` reads a result that is a number only from a blank string or one with a digit: a non-blank string without digits is NaN |
| Builtins.SortBy | src/lib/gtfs.ts:230-232 | `sort` with the comparator `key(a) - key(b)`, as a stable insertion sort, keeps the number of rows |
| Builtins.SortByPermutes | src/lib/gtfs.ts:230-232 | the sort is a permutation: the same rows, each as often |
| Builtins.SortByAscending | src/lib/gtfs.ts:230-232 | with numeric keys the sorted rows ascend by key |
| Builtins.SortByStable | src/lib/gtfs.ts:230-232 | with numeric keys the rows of each key keep their order |
| Builtins.NatToStringRoundTrip | src/lib/gtfs.ts:176 | `${n}` is a non-empty digit string whose value is `n` |
| Builtins.NatToStringInjective | src/lib/gtfs.ts:176 | distinct numbers give distinct strings |
| Csv.SplitCsvLine | src/lib/csv.ts:21-43 | the character loop returns exactly the fields of the scan: a quote toggles the quote state, a doubled quote inside quotes is one literal quote, a comma outside quotes ends a field; it never fails |
| Csv.ScanCount | src/lib/csv.ts:25-41 | from any state, the scan yields one field more than the commas it meets outside quotes, reading every quote as a plain toggle |
| Csv.FieldCount | src/lib/csv.ts:21-43 | a line has one field more than it has commas outside quotes |
| Csv.PlainLineSplitsAtCommas | src/lib/csv.ts:21-43 | on a line without quotes the fields are `split(",")` |
| Csv.PlainFieldsRoundTrip | src/lib/csv.ts:21-43 | fields free of commas and quotes, joined with commas, split back into themselves |
| Csv.ScanEscaped | src/lib/csv.ts:27-39 | a field with its quotes doubled, followed by a closing quote, reads back as the field itself |
| Csv.QuotedFieldsRoundTrip | src/lib/csv.ts:21-43 | any fields written as RFC 4180 quoted fields and joined with commas split back into exactly those fields |
| Csv.ScanDeletes | src/lib/csv.ts:25-41 | the scan only deletes characters: the fields and separators are no longer than the input, and each quote in a field costs two in the input |
| Csv.FieldsOnlyDelete | src/lib/csv.ts:21-43 | the same for a whole line |
| Csv.BuildRecord | src/lib/csv.ts:13-16 | the `forEach` loop builds the record that assigns each header name its column or "" in header order |
| Csv.RecordKeys | src/lib/csv.ts:13-16 | a record has exactly the header names as keys |
| Csv.RecordValue | src/lib/csv.ts:14-15 | the last header column of a name gives that name its column's value, or "" when the line is shorter |
| Csv.RecordIgnoresExtraColumns | src/lib/csv.ts:14-15 | columns beyond the header change nothing |
| Csv.ParseCsv | src/lib/csv.ts:4-19 | `parseCsv` gives one record per non-blank line after the header, and fewer records than lines |
| Csv.ParseCsvKeys | src/lib/csv.ts:4-19 | every record is keyed by exactly the header names |
| Csv.NotBlankIff | src/lib/csv.ts:10 | a line is kept exactly when it has a character that is not white space |
| Csv.DataLinesExactly | src/lib/csv.ts:8-10 | the data lines are lines after the header with a non-space character, and every such line is one |
| Csv.HeaderOnlyHasNoRecords | src/lib/csv.ts:5-9 | a text without a line break after trimming, the empty text among them, has no records |
| Csv.BlankLinesSkipped | src/lib/csv.ts:10 | a line of white space contributes nothing |
| Csv.LinesCrlf | src/lib/csv.ts:5 | breaks written `\n` or `\r\n` give the same lines |
| Csv.CrlfSameRecords | src/lib/csv.ts:4-19 | a text and the same text with `\r\n` breaks parse to the same records |
| Gtfs.Records | src/lib/gtfs.ts:96-97 | a missing or empty file gives no records, any other file one record per data line of its CSV text |
| Gtfs.ReadAgencies | src/lib/gtfs.ts:95-101 | one agency per record |
| Gtfs.ReadRoutes | src/lib/gtfs.ts:115-123 | one route per record |
| Gtfs.ReadTrips | src/lib/gtfs.ts:125-133 | one trip per record |
| Gtfs.IsHirodenIff | src/lib/gtfs.ts:81-92 | the assembled dataset is Hiroden's exactly when some agency name contains 広島電鉄 |
| Gtfs.NoFileNoRows | src/lib/gtfs.ts:95-146 | an absent or empty file gives no rows in every loader |
| Gtfs.OneRowPerLine | src/lib/gtfs.ts:95-133 | the loaders that filter nothing give one row per data line |
| Gtfs.FieldIsColumn | src/lib/gtfs.ts:97-100 | a field of a row is the column of the last header entry with that name |
| Gtfs.FieldMissing | src/lib/gtfs.ts:107-110 | a column the header lacks reads as "" for text and NaN for `Number(undefined)` |
| Gtfs.ReadStops | src/lib/gtfs.ts:103-113 | `readStops` maps the records to stops and filters them, so it never gives more stops than records |
| Gtfs.ReadStopsExactly | src/lib/gtfs.ts:103-113 | `readStops` keeps exactly the stops whose latitude and longitude are both numbers |
| Gtfs.ReadStopTimes | src/lib/gtfs.ts:135-146 | `readStopTimes` maps the records to stop times and filters them, so it never gives more stop times than records |
| Gtfs.ReadStopTimesSound | src/lib/gtfs.ts:135-146 | every kept stop time came from a record and has a non-empty trip id and stop id |
| Gtfs.ReadStopTimesComplete | src/lib/gtfs.ts:135-146 | every record with both ids gives a kept stop time |
| Gtfs.NoLatitudeNoStops | src/lib/gtfs.ts:109-112 | without a `stop_lat` column no stop is kept |
| Gtfs.NoStopIdNoStopTimes | src/lib/gtfs.ts:142-145 | without a `stop_id` column no stop time is kept |
| Gtfs.NoSequenceIsZero | src/lib/gtfs.ts:143 | without a `stop_sequence` column every stop time has sequence 0 |
| StopNames.RemoveSpacesExactly | src/lib/gtfs.ts:150 | the first step keeps exactly the characters that are not white space (U+3000 included) |
| StopNames.RemoveParensExactly | src/lib/gtfs.ts:151 | the second step keeps exactly the characters that are not half- or full-width parentheses |
| StopNames.RemoveAllWithin | src/lib/gtfs.ts:152 | deleting `バス停` adds no character |
| StopNames.RemoveAllAbsent | src/lib/gtfs.ts:152 | a string without `バス停` is left as it is |
| StopNames.RemoveAllSkip | src/lib/gtfs.ts:152 | a prefix without the first character of the pattern passes through unchanged |
| StopNames.RemovePlatformsWithin | src/lib/gtfs.ts:153 | deleting `のりば` and digits adds no character |
| StopNames.RemovePlatformsAbsent | src/lib/gtfs.ts:153 | a string with no `のりば` followed by a digit is left as it is |
| StopNames.RemovePlatformsSkip | src/lib/gtfs.ts:153 | a prefix without `の` passes through unchanged |
| StopNames.LowerCaseIdempotent | src/lib/gtfs.ts:154 | lower-casing twice is lower-casing once and leaves no capital |
| StopNames.Normalize | src/lib/gtfs.ts:148-155 | `normalizeStopName` only deletes and lower-cases, so the name never grows |
| StopNames.NormalizeHasNoSpaceOrParen | src/lib/gtfs.ts:148-155 | a normalised name has no white space and no parenthesis |
| StopNames.NormalizeFixedPoint | src/lib/gtfs.ts:148-155 | a normalised name without `バス停` and without `のりば` plus a digit is a fixed point of normalising |
| StopNames.NormalizeDropsBusStop | src/lib/gtfs.ts:148-155 | a name of characters the chain does not touch, followed by `バス停`, normalises to the name |
| StopNames.NormalizeDropsPlatform | src/lib/gtfs.ts:148-155 | such a name followed by `(のりば` and a number and `)` normalises to the name |
| StopNames.NormalizeExamples | src/lib/gtfs.ts:148-155 | `広電前バス停` and `広電前(のりば1)` both normalise to `広電前` |
| StopNames.NormalizeNotIdempotent | src/lib/gtfs.ts:148-155 | `ババス停ス停` normalises to `バス停`, which normalises to "": one pass is not idempotent |
| StopNames.NormalizePlatformMakesBusStop | src/lib/gtfs.ts:148-155 | deleting a platform number can join `バス` and `停` after the `バス停` step has run, so normalising is not idempotent |
| Aggregation.AddStop | src/lib/gtfs.ts:161-183 | the inner callback gives one step of the fold: a member pushed on the found aggregate, or a new aggregate |
| Aggregation.AddFeed | src/lib/gtfs.ts:160-184 | the loop over one feed's stops continues the fold over those stops |
| Aggregation.AggregateStops | src/lib/gtfs.ts:157-187 | the nested loops give the fold over every stop of every feed, feed by feed in file order |
| Aggregation.Step | src/lib/gtfs.ts:161-183 | one stop handled adds at most one aggregate and removes none |
| Aggregation.AggregateSize | src/lib/gtfs.ts:157-187 | the fold over the stops never makes more aggregates than stops, and makes one as soon as there is a stop |
| Aggregation.StepChoosesFirst | src/lib/gtfs.ts:162-183 | a stop joins the first aggregate, in creation order, with its normalised name within 30 metres; when there is none it opens a new aggregate at the end |
| Aggregation.StepKeeps | src/lib/gtfs.ts:172-183 | a step adds at most one aggregate and changes none but by appending a member |
| Aggregation.AggregateKeeps | src/lib/gtfs.ts:157-187 | later stops never change an aggregate's id, name, coordinates or normalised name, and only extend its members |
| Aggregation.KeptToEnd | src/lib/gtfs.ts:172-183 | an aggregate made by the first stops keeps all but its members, extended, to the end |
| Aggregation.Opens | src/lib/gtfs.ts:174-182 | a stop no aggregate takes appends a new aggregate |
| Aggregation.Representative | src/lib/gtfs.ts:175-182 | that aggregate keeps, to the end, the stop's name, coordinates, normalised name, id `${norm}-${k + 1}` and the stop as first member |
| Aggregation.StepMembers | src/lib/gtfs.ts:172-183 | a step adds exactly the stop's member |
| Aggregation.MembersPartition | src/lib/gtfs.ts:157-187 | the members of all aggregates are the stops met, each exactly once |
| Aggregation.EveryStopOnce | src/lib/gtfs.ts:157-187 | the same over feeds: one member per stop of every feed |
| Aggregation.MembersInOrder | src/lib/gtfs.ts:159-184 | each aggregate's members are the stops that went to it, in the order met |
| Aggregation.OwnerAt | src/lib/gtfs.ts:161-172 | each stop's aggregate is chosen among those the earlier stops made |
| Aggregation.OwnerStep | src/lib/gtfs.ts:162-183 | right after a stop, its aggregate has the stop's normalised name, and lies within 30 metres when the stop joined it |
| Aggregation.OwnerFinal | src/lib/gtfs.ts:162-183 | the same holds of the final aggregate of each stop |
| Aggregation.OwnersAgree | src/lib/gtfs.ts:162-173 | every stop has an aggregate with its normalised name, and one it joined lies within 30 metres of the representative |
| Aggregation.IdsPositional | src/lib/gtfs.ts:176 | aggregate `k` has the id `${normalizedName}-${k + 1}` |
| Aggregation.DistinctIds | src/lib/gtfs.ts:176 | equal ids have equal positions |
| Aggregation.IdsUnique | src/lib/gtfs.ts:176 | no two aggregates share an id |
| Aggregation.TwoStopsMergeIff | src/lib/gtfs.ts:162-183 | two stops share an aggregate exactly when their normalised names agree and the second lies within 30 metres of the first |
| Timetable.ParseTimeToSeconds | src/lib/gtfs.ts:235-239 | `parseTimeToSeconds` is NaN only when the time has fewer than three parts |
| Timetable.ThreeNumbers | src/lib/gtfs.ts:236-238 | a time of three parts reading as whole numbers `a`, `b`, `c` is `a*3600 + b*60 + c` |
| Timetable.TwoDigitsRead | src/lib/gtfs.ts:236 | a two-digit part reads as its number |
| Timetable.ClockTime | src/lib/gtfs.ts:235-239 | `hh:mm:ss` reads as its seconds, less than `MAX_SAFE_INTEGER` |
| Timetable.UnreadablePart | src/lib/gtfs.ts:237 | a NaN hour, minute or second gives `MAX_SAFE_INTEGER` whatever the other parts |
| Timetable.UnreadableHour | src/lib/gtfs.ts:237 | an hour part with no digit, such as in `--:--:--`, gives `MAX_SAFE_INTEGER` |
| Timetable.MissingPart | src/lib/gtfs.ts:236-238 | fewer than three numeric parts give NaN, since `undefined` escapes `Number.isNaN` |
| Timetable.EmptyTimeIsNaN | src/lib/gtfs.ts:236-238 | an empty departure time gives NaN |
| Timetable.HoursMinutesOnly | src/lib/gtfs.ts:236-238 | `hh:mm` without seconds gives NaN |
| Timetable.DepartureOrderExample | src/lib/gtfs.ts:235-239 | `05:29:00`, `05:30:00`, `24:10:00` read as 19740, 19800, 87000 and `--:--:--` as `MAX_SAFE_INTEGER` |
| Timetable.TripTable | src/lib/gtfs.ts:202 | `tripById` holds exactly the trip ids of the feed, and a repeated id finds its last trip |
| Timetable.RouteTable | src/lib/gtfs.ts:203 | the same for `routeById` |
| Timetable.AgencyTable | src/lib/gtfs.ts:204 | the same for `agencyById` |
| Timetable.RouteLabelRules | src/lib/gtfs.ts:216-219 | the label is never blank: the trimmed short name if it has a non-space character, else the trimmed long name if that has one, else 系統不明 |
| Timetable.AgencyLabel | src/lib/gtfs.ts:222 | the agency label is never empty and is the agency's name when that is non-empty |
| Timetable.RowForTrip | src/lib/gtfs.ts:209-226 | a stop time whose trip id some trip has gives a row with its departure time, the headsign of the last such trip, the feed's operator, a route label that is not blank (Timetable.RouteLabelRules) and an agency label that is not empty |
| Timetable.RowFor | src/lib/gtfs.ts:209-226 | a stop time gives a row exactly when the trip table has its trip; the row has its departure time, that trip's headsign and labels that are not empty |
| Timetable.RowJoins | src/lib/gtfs.ts:209-223 | when the trip, its route and the route's agency are all found, the row's route label is that of the last route with the trip's route id and its agency name that of the last agency with the route's agency id |
| Timetable.NoTripNoRow | src/lib/gtfs.ts:209-210 | a stop time whose trip id no trip has gives no row |
| Timetable.UnknownRouteFallback | src/lib/gtfs.ts:211-219 | a trip of an unknown route gets 系統不明, and the feed's first agency, or 事業者不明 when there is none or it is unnamed |
| Timetable.UnknownAgencyOfRoute | src/lib/gtfs.ts:211-222 | a route naming an unknown agency id gives 事業者不明 even when the feed has agencies |
| Timetable.HirodenRows | src/lib/gtfs.ts:221 | a row of an assembled feed is Hiroden's exactly when one of its agency names contains 広島電鉄 |
| Timetable.MemberStopIdsIff | src/lib/gtfs.ts:197-199 | the ids are exactly the stop ids of the members from that feed |
| Timetable.RowsIff | src/lib/gtfs.ts:208-227 | a row is among the rows of some stop times exactly when one of them gives it |
| Timetable.DatasetRowsIff | src/lib/gtfs.ts:196-227 | a row belongs to a feed's part exactly when a stop time of it at a member stop gives it |
| Timetable.NoMemberNoRows | src/lib/gtfs.ts:200 | a feed with no member stop in the aggregate adds no row |
| Timetable.CollectRowsIff | src/lib/gtfs.ts:196-228 | the collected rows are those of the feeds and no other |
| Timetable.TimetableRows | src/lib/gtfs.ts:189-233 | `getTimetableRows` gives no rows without a stop, else the collected rows, each as often as collected |
| Timetable.TimetableRowsIff | src/lib/gtfs.ts:189-233 | a row is in the timetable exactly when some feed's part holds it |
| Timetable.TimetableRowsSorted | src/lib/gtfs.ts:230-232 | with every departure readable, the timetable ascends by seconds and rows of equal time keep their collected order |
| Timetable.FeedRows | src/lib/gtfs.ts:197-227 | the loop over a feed's filtered stop times gives that feed's rows: none without members, else one per stop time at a member stop whose trip is known, in file order |
| Timetable.GetTimetableRows | src/lib/gtfs.ts:189-233 | the loops give the timetable: none without a stop, else every feed's rows, sorted by departure |

## Left out

- Reading the archive (`JSZip`, `File`, `async`): `parseGtfsZip` is modelled
  from the point where the five texts are read. They are parameters, `None`
  for a file the archive lacks, and the file name is the id parameter.
- `haversineDistanceMeters` (`geo.ts`): geo.ts is not part of this model.
  Aggregation takes the distance as a function parameter, and a NaN distance
  never counts as within 30 metres.
- The user interface (`App.tsx`, `components/`) and the build configuration
  are not part of this model.
- `Number()`: only the decimal notation is modelled. That is surrounding
  white space, the empty string as 0, an optional sign and digits with an
  optional fraction. Exponents, hexadecimal, binary and octal literals and
  `Infinity` read as NaN in the model.
- Numbers are exact reals, so floating-point rounding is not modelled.
- `toLowerCase` lower-cases only the Latin letters A to Z and their
  full-width forms. Other scripts with case are left as they are.
- Characters are Unicode scalar values where JavaScript indexes UTF-16 code
  units. This matters only for characters outside the Basic Multilingual
  Plane, which none of the patterns contains.
- Timetable.TimetableRowsSorted: requires every departure time to read as a
  number. A time of fewer than three parts, each a number, reads as NaN, and the comparator
  then returns NaN, which the sort treats as equal. Such a comparator is
  inconsistent, and ECMAScript leaves the resulting order to the engine.
- Timetable.GetTimetableRows: sorts with a stable insertion sort, which is one
  of the orders an engine may produce. Only the permutation holds for every
  engine when a NaN key is present.
- Timetable.ClockTime: stated for parts of two digits, as GTFS writes them.
  Other readable times are covered by Timetable.ThreeNumbers.
- Aggregation.AddStop: the list of aggregates is a value, and the `push` onto
  the found aggregate's `members` is a functional update. No other reference
  to those objects exists while the loop runs, so aliasing is not modelled.
- Csv.BuildRecord: a header column named `__proto__` is modelled as an
  ordinary key. In JavaScript, assigning it on a plain object calls the
  `Object.prototype` setter, which ignores a string, so the record never
  gets that key. No loader reads such a column.
- Csv.Record: the same `__proto__` header is modelled as an ordinary key.
- Csv.RecordKeys: the keys are exactly the header names, with a `__proto__`
  header counted as a key, which the JavaScript record does not get.
- Csv.RecordValue: for a `__proto__` header, the JavaScript record reads
  back the prototype, not the column's value. The model gives the value.
- Csv.ParseCsvKeys: the same `__proto__` exception as Csv.RecordKeys.
- Two feeds with the same file name are modelled as the code treats them:
  members are told apart by id only, so each such feed picks up the other's
  member stops.
