/** `aggregateStops`: the stops of all loaded feeds merged into one list of
    stops, first match wins. A stop joins the first aggregate, in creation
    order, with the same normalised name whose representative lies within
    30 metres; otherwise it opens a new aggregate. */
module Aggregation {
  import opened Builtins
  import opened Gtfs
  import opened StopNames

  /** `haversineDistanceMeters(lat1, lon1, lat2, lon2)`, which lives outside
      this model: any function of the four coordinates. */
  type Distance = (JsNumber, JsNumber, JsNumber, JsNumber) -> JsNumber

  const MaxMeters: real := 30.0

  datatype Member = Member(datasetId: string, stopId: string)

  /** `name`, `lat` and `lon` are those of the representative: the stop that
      opened the aggregate. */
  datatype AggregatedStop = AggregatedStop(id: string, name: string, lat: JsNumber, lon: JsNumber,
                                           normalizedName: string, members: seq<Member>)

  /** A stop as the nested `forEach` meets it, with the id of its feed. */
  datatype Arrival = Arrival(datasetId: string, stop: Stop)

  function ArrivalsOf(ds: Dataset): (arr: seq<Arrival>)
    ensures |arr| == |ds.stops|
  {
    seq(|ds.stops|, i requires 0 <= i < |ds.stops| => Arrival(ds.id, ds.stops[i]))
  }

  /** Every stop of every feed, feed by feed and in file order. */
  function Arrivals(datasets: seq<Dataset>): seq<Arrival>
    decreases |datasets|
  {
    if datasets == [] then []
    else Arrivals(datasets[..|datasets| - 1]) + ArrivalsOf(datasets[|datasets| - 1])
  }

  function MemberOf(a: Arrival): Member {
    Member(a.datasetId, a.stop.stopId)
  }

  /** `d <= 30`: false for NaN. */
  predicate Within(d: JsNumber) {
    d.Num? && d.value <= MaxMeters
  }

  /** The condition of the `find`. */
  predicate Joins(g: AggregatedStop, a: Arrival, dist: Distance) {
    g.normalizedName == Normalize(a.stop.stopName) && Within(dist(g.lat, g.lon, a.stop.lat, a.stop.lon))
  }

  function Joiner(a: Arrival, dist: Distance): AggregatedStop -> bool {
    g => Joins(g, a, dist)
  }

  /** `${norm}-${position}`. */
  function AggregateId(norm: string, position: nat): string {
    norm + "-" + NatToString(position)
  }

  /** The aggregate a stop opens when there are already `count`. */
  function NewAggregate(a: Arrival, count: nat): AggregatedStop {
    var norm := Normalize(a.stop.stopName);
    AggregatedStop(AggregateId(norm, count + 1), a.stop.stopName, a.stop.lat, a.stop.lon, norm, [MemberOf(a)])
  }

  /** The index of the aggregate the stop goes to: the one found, or the
      new one at the end. */
  function Owner(aggs: seq<AggregatedStop>, a: Arrival, dist: Distance): (k: nat)
    ensures k <= |aggs|
  {
    var k := FindIndex(aggs, Joiner(a, dist));
    if k >= 0 then k else |aggs|
  }

  /** One stop handled. */
  function Step(aggs: seq<AggregatedStop>, a: Arrival, dist: Distance): (r: seq<AggregatedStop>)
    ensures |aggs| <= |r| <= |aggs| + 1
  {
    var k := Owner(aggs, a, dist);
    if k < |aggs| then aggs[k := aggs[k].(members := aggs[k].members + [MemberOf(a)])]
    else aggs + [NewAggregate(a, |aggs|)]
  }

  /** The aggregates after the given stops, handled in order. */
  function Aggregate(arr: seq<Arrival>, dist: Distance): seq<AggregatedStop>
    decreases |arr|
  {
    if arr == [] then [] else Step(Aggregate(arr[..|arr| - 1], dist), arr[|arr| - 1], dist)
  }

  /** Never more aggregates than stops, and at least one once there is a
      stop. */
  lemma {:induction false} AggregateSize(arr: seq<Arrival>, dist: Distance)
    ensures |Aggregate(arr, dist)| <= |arr|
    ensures arr != [] ==> Aggregate(arr, dist) != []
    decreases |arr|
  {
    if arr != [] {
      AggregateSize(arr[..|arr| - 1], dist);
    }
  }

  lemma AggregateSnoc(arr: seq<Arrival>, a: Arrival, dist: Distance)
    ensures Aggregate(arr + [a], dist) == Step(Aggregate(arr, dist), a, dist)
  {
    assert (arr + [a])[..|arr|] == arr;
  }

  lemma ArrivalsSnoc(datasets: seq<Dataset>, ds: Dataset)
    ensures Arrivals(datasets + [ds]) == Arrivals(datasets) + ArrivalsOf(ds)
  {
    assert (datasets + [ds])[..|datasets|] == datasets;
  }

  /** The stops of one feed, taken one more at a time. */
  lemma FeedStep(before: seq<Arrival>, ds: Dataset, s: nat, dist: Distance)
    requires s < |ds.stops|
    ensures Aggregate(before + ArrivalsOf(ds)[..s + 1], dist)
         == Step(Aggregate(before + ArrivalsOf(ds)[..s], dist), Arrival(ds.id, ds.stops[s]), dist)
  {
    var stops := ArrivalsOf(ds);
    assert before + stops[..s + 1] == (before + stops[..s]) + [stops[s]];
    AggregateSnoc(before + stops[..s], stops[s], dist);
  }

  lemma FeedEnds(before: seq<Arrival>, ds: Dataset)
    ensures before + ArrivalsOf(ds)[..0] == before
    ensures before + ArrivalsOf(ds)[..|ds.stops|] == before + ArrivalsOf(ds)
  {
    assert ArrivalsOf(ds)[..|ds.stops|] == ArrivalsOf(ds);
  }

  /** The inner callback: `find`, then push a member or a new aggregate. */
  method AddStop(aggregated: seq<AggregatedStop>, ds: Dataset, stop: Stop, dist: Distance)
    returns (r: seq<AggregatedStop>)
    ensures r == Step(aggregated, Arrival(ds.id, stop), dist)
  {
    var a := Arrival(ds.id, stop);
    var found := FindIndex(aggregated, Joiner(a, dist));
    if found >= 0 {
      r := aggregated[found := aggregated[found].(members := aggregated[found].members + [Member(ds.id, stop.stopId)])];
    } else {
      var norm := Normalize(stop.stopName);
      r := aggregated + [AggregatedStop(AggregateId(norm, |aggregated| + 1), stop.stopName,
                                        stop.lat, stop.lon, norm, [Member(ds.id, stop.stopId)])];
      assert r == aggregated + [NewAggregate(a, |aggregated|)];
    }
  }

  /** `ds.stops.forEach(...)`. */
  method AddFeed(aggregated: seq<AggregatedStop>, ds: Dataset, dist: Distance, ghost before: seq<Arrival>)
    returns (r: seq<AggregatedStop>)
    requires aggregated == Aggregate(before, dist)
    ensures r == Aggregate(before + ArrivalsOf(ds), dist)
  {
    FeedEnds(before, ds);
    r := aggregated;
    var s := 0;
    while s < |ds.stops|
      invariant 0 <= s <= |ds.stops|
      invariant r == Aggregate(before + ArrivalsOf(ds)[..s], dist)
    {
      FeedStep(before, ds, s, dist);
      r := AddStop(r, ds, ds.stops[s], dist);
      s := s + 1;
    }
  }

  /** `aggregateStops`: `datasets.forEach(...)`. */
  method AggregateStops(datasets: seq<Dataset>, dist: Distance) returns (aggregated: seq<AggregatedStop>)
    ensures aggregated == Aggregate(Arrivals(datasets), dist)
  {
    aggregated := [];
    var d := 0;
    while d < |datasets|
      invariant 0 <= d <= |datasets|
      invariant aggregated == Aggregate(Arrivals(datasets[..d]), dist)
    {
      aggregated := AddFeed(aggregated, datasets[d], dist, Arrivals(datasets[..d]));
      ArrivalsSnoc(datasets[..d], datasets[d]);
      TakeSnoc(datasets, d);
      d := d + 1;
    }
    assert datasets[..d] == datasets;
  }

  // ---------------------------------------------------------------------
  // One step.

  /** A stop joins the first aggregate, in creation order, that qualifies;
      when none does, it opens a new one at the end. */
  lemma StepChoosesFirst(aggs: seq<AggregatedStop>, a: Arrival, dist: Distance)
    ensures (exists j :: 0 <= j < |aggs| && Joins(aggs[j], a, dist)) ==>
      var k := Owner(aggs, a, dist);
      && k < |aggs| && Joins(aggs[k], a, dist)
      && (forall j :: 0 <= j < k ==> !Joins(aggs[j], a, dist))
      && |Step(aggs, a, dist)| == |aggs|
      && Step(aggs, a, dist)[k].members == aggs[k].members + [MemberOf(a)]
      && forall j :: 0 <= j < |aggs| && j != k ==> Step(aggs, a, dist)[j] == aggs[j]
    ensures (forall j :: 0 <= j < |aggs| ==> !Joins(aggs[j], a, dist)) ==>
      Step(aggs, a, dist) == aggs + [NewAggregate(a, |aggs|)]
  {
    var k := FindIndex(aggs, Joiner(a, dist));
    if k >= 0 {
      assert Joins(aggs[k], a, dist);
    }
  }

  /** An aggregate without its members: what a later merge never changes. */
  function Fixed(g: AggregatedStop): AggregatedStop {
    g.(members := [])
  }

  /** A step keeps every aggregate but for members appended at the end. */
  lemma StepKeeps(aggs: seq<AggregatedStop>, a: Arrival, dist: Distance)
    ensures |aggs| <= |Step(aggs, a, dist)| <= |aggs| + 1
    ensures forall k :: 0 <= k < |aggs| ==>
      Fixed(Step(aggs, a, dist)[k]) == Fixed(aggs[k]) && aggs[k].members <= Step(aggs, a, dist)[k].members
  {
  }

  // ---------------------------------------------------------------------
  // The representative is never changed by later merges.

  lemma {:induction false} AggregateKeeps(p: seq<Arrival>, q: seq<Arrival>, dist: Distance)
    ensures |Aggregate(p, dist)| <= |Aggregate(p + q, dist)|
    ensures forall k :: 0 <= k < |Aggregate(p, dist)| ==>
      Fixed(Aggregate(p + q, dist)[k]) == Fixed(Aggregate(p, dist)[k])
      && Aggregate(p, dist)[k].members <= Aggregate(p + q, dist)[k].members
    decreases |q|
  {
    if q == [] {
      assert p + q == p;
    } else {
      var n := |q| - 1;
      assert p + q == (p + q[..n]) + [q[n]];
      AggregateKeeps(p, q[..n], dist);
      AggregateSnoc(p + q[..n], q[n], dist);
      StepKeeps(Aggregate(p + q[..n], dist), q[n], dist);
    }
  }

  /** A stop that no aggregate takes opens a new one at the end. */
  lemma Opens(arr: seq<Arrival>, dist: Distance, i: nat)
    requires i < |arr|
    requires forall j :: 0 <= j < |Aggregate(arr[..i], dist)| ==> !Joins(Aggregate(arr[..i], dist)[j], arr[i], dist)
    ensures Aggregate(arr[..i + 1], dist) == Aggregate(arr[..i], dist) + [NewAggregate(arr[i], |Aggregate(arr[..i], dist)|)]
  {
    StepChoosesFirst(Aggregate(arr[..i], dist), arr[i], dist);
    assert arr[..i + 1] == arr[..i] + [arr[i]];
    AggregateSnoc(arr[..i], arr[i], dist);
  }

  /** A stop that no aggregate took opens aggregate number `k`, the count so
      far; from then on that aggregate has the stop's name, its coordinates,
      its normalised name, the id `${norm}-${k + 1}`, and the stop as first
      member. */
  lemma Representative(arr: seq<Arrival>, dist: Distance, i: nat)
    requires i < |arr|
    requires forall j :: 0 <= j < |Aggregate(arr[..i], dist)| ==> !Joins(Aggregate(arr[..i], dist)[j], arr[i], dist)
    ensures var k := |Aggregate(arr[..i], dist)|;
      && k < |Aggregate(arr, dist)|
      && Aggregate(arr, dist)[k].name == arr[i].stop.stopName
      && Aggregate(arr, dist)[k].lat == arr[i].stop.lat
      && Aggregate(arr, dist)[k].lon == arr[i].stop.lon
      && Aggregate(arr, dist)[k].normalizedName == Normalize(arr[i].stop.stopName)
      && Aggregate(arr, dist)[k].id == AggregateId(Normalize(arr[i].stop.stopName), k + 1)
      && Aggregate(arr, dist)[k].members != [] && Aggregate(arr, dist)[k].members[0] == MemberOf(arr[i])
  {
    var k := |Aggregate(arr[..i], dist)|;
    Opens(arr, dist, i);
    var g0 := NewAggregate(arr[i], k);
    assert Aggregate(arr[..i + 1], dist)[k] == g0;
    KeptToEnd(arr, dist, i + 1, k);
    var g := Aggregate(arr, dist)[k];
    assert Fixed(g) == Fixed(g0) && g0.members <= g.members;
  }

  // ---------------------------------------------------------------------
  // Every stop is exactly one member of exactly one aggregate.

  /** All members of all aggregates, aggregate by aggregate. */
  function AllMembers(aggs: seq<AggregatedStop>): seq<Member>
    decreases |aggs|
  {
    if aggs == [] then [] else AllMembers(aggs[..|aggs| - 1]) + aggs[|aggs| - 1].members
  }

  function MembersOf(arr: seq<Arrival>): (ms: seq<Member>)
    ensures |ms| == |arr|
    decreases |arr|
  {
    if arr == [] then [] else MembersOf(arr[..|arr| - 1]) + [MemberOf(arr[|arr| - 1])]
  }

  /** Appending a member to one aggregate adds it to the whole. */
  lemma {:induction false} AllMembersAppend(aggs: seq<AggregatedStop>, k: nat, m: Member)
    requires k < |aggs|
    ensures multiset(AllMembers(aggs[k := aggs[k].(members := aggs[k].members + [m])]))
         == multiset(AllMembers(aggs)) + multiset{m}
    decreases |aggs|
  {
    var n := |aggs| - 1;
    var upd := aggs[k := aggs[k].(members := aggs[k].members + [m])];
    assert AllMembers(upd) == AllMembers(upd[..n]) + upd[n].members;
    assert AllMembers(aggs) == AllMembers(aggs[..n]) + aggs[n].members;
    if k < n {
      assert upd[..n] == aggs[..n][k := aggs[..n][k].(members := aggs[..n][k].members + [m])];
      AllMembersAppend(aggs[..n], k, m);
      assert upd[n] == aggs[n];
    } else {
      assert upd[..n] == aggs[..n];
    }
  }

  lemma StepMembers(aggs: seq<AggregatedStop>, a: Arrival, dist: Distance)
    ensures multiset(AllMembers(Step(aggs, a, dist))) == multiset(AllMembers(aggs)) + multiset{MemberOf(a)}
  {
    var k := Owner(aggs, a, dist);
    if k < |aggs| {
      AllMembersAppend(aggs, k, MemberOf(a));
    } else {
      var r := aggs + [NewAggregate(a, |aggs|)];
      assert r[..|aggs|] == aggs;
      assert AllMembers(r) == AllMembers(aggs) + [MemberOf(a)];
    }
  }

  /** The members of all aggregates are the stops met, each once. */
  lemma {:induction false} MembersPartition(arr: seq<Arrival>, dist: Distance)
    ensures multiset(AllMembers(Aggregate(arr, dist))) == multiset(MembersOf(arr))
    ensures |AllMembers(Aggregate(arr, dist))| == |arr|
    decreases |arr|
  {
    if arr != [] {
      var n := |arr| - 1;
      MembersPartition(arr[..n], dist);
      assert Aggregate(arr, dist) == Step(Aggregate(arr[..n], dist), arr[n], dist);
      StepMembers(Aggregate(arr[..n], dist), arr[n], dist);
    }
  }

  /** `aggregateStops` over feeds: one member per stop of every feed. */
  lemma EveryStopOnce(datasets: seq<Dataset>, dist: Distance)
    ensures multiset(AllMembers(Aggregate(Arrivals(datasets), dist))) == multiset(MembersOf(Arrivals(datasets)))
    ensures |AllMembers(Aggregate(Arrivals(datasets), dist))| == |Arrivals(datasets)|
  {
    MembersPartition(Arrivals(datasets), dist);
  }

  // ---------------------------------------------------------------------
  // Which aggregate each stop went to.

  /** For each stop, the index of the aggregate it joined or opened. */
  function Owners(arr: seq<Arrival>, dist: Distance): (o: seq<nat>)
    ensures |o| == |arr|
    decreases |arr|
  {
    if arr == [] then []
    else
      var n := |arr| - 1;
      Owners(arr[..n], dist) + [Owner(Aggregate(arr[..n], dist), arr[n], dist)]
  }

  /** The members, in order, of the stops whose owner is `k`. */
  function Picked(arr: seq<Arrival>, owners: seq<nat>, k: nat): seq<Member>
    requires |owners| == |arr|
    decreases |arr|
  {
    if arr == [] then []
    else
      var n := |arr| - 1;
      Picked(arr[..n], owners[..n], k) + (if owners[n] == k then [MemberOf(arr[n])] else [])
  }

  lemma {:induction false} PickedNone(arr: seq<Arrival>, owners: seq<nat>, k: nat)
    requires |owners| == |arr|
    requires forall i :: 0 <= i < |owners| ==> owners[i] != k
    ensures Picked(arr, owners, k) == []
    decreases |arr|
  {
    if arr != [] {
      var n := |arr| - 1;
      assert forall i :: 0 <= i < n ==> owners[..n][i] == owners[i];
      PickedNone(arr[..n], owners[..n], k);
    }
  }

  lemma OwnersSnoc(arr: seq<Arrival>, dist: Distance)
    requires arr != []
    ensures Owners(arr, dist)[..|arr| - 1] == Owners(arr[..|arr| - 1], dist)
  {
  }

  /** Each aggregate's members are the stops that went to it, in the order
      met: feed by feed, then file order. */
  lemma {:induction false} MembersInOrder(arr: seq<Arrival>, dist: Distance)
    ensures forall i :: 0 <= i < |arr| ==> Owners(arr, dist)[i] < |Aggregate(arr, dist)|
    ensures forall k :: 0 <= k < |Aggregate(arr, dist)| ==>
      Aggregate(arr, dist)[k].members == Picked(arr, Owners(arr, dist), k)
    decreases |arr|
  {
    if arr != [] {
      var n := |arr| - 1;
      var prev, a := arr[..n], arr[n];
      var aggs, owners := Aggregate(prev, dist), Owners(arr, dist);
      MembersInOrder(prev, dist);
      OwnersSnoc(arr, dist);
      var o := Owner(aggs, a, dist);
      assert owners[n] == o;
      StepKeeps(aggs, a, dist);
      forall k | 0 <= k < |Aggregate(arr, dist)|
        ensures Aggregate(arr, dist)[k].members == Picked(arr, owners, k)
      {
        if k == |aggs| {
          PickedNone(prev, owners[..n], k);
        }
      }
    }
  }

  /** The owner of stop `i` is chosen among the aggregates that the stops
      before it made. */
  lemma {:induction false} OwnerAt(arr: seq<Arrival>, dist: Distance, i: nat)
    requires i < |arr|
    ensures Owners(arr, dist)[i] == Owner(Aggregate(arr[..i], dist), arr[i], dist)
    decreases |arr|
  {
    var n := |arr| - 1;
    var owners := Owners(arr, dist);
    assert owners == Owners(arr[..n], dist) + [Owner(Aggregate(arr[..n], dist), arr[n], dist)];
    if i < n {
      assert owners[i] == Owners(arr[..n], dist)[i];
      assert arr[..n][..i] == arr[..i] && arr[..n][i] == arr[i];
      OwnerAt(arr[..n], dist, i);
    }
  }

  /** Right after stop `i`, its aggregate has its normalised name, and lies
      within 30 metres when the stop joined it. */
  lemma OwnerStep(arr: seq<Arrival>, dist: Distance, i: nat)
    requires i < |arr|
    ensures var aggs := Aggregate(arr[..i], dist);
      var o := Owner(aggs, arr[i], dist);
      && o < |Aggregate(arr[..i + 1], dist)|
      && Aggregate(arr[..i + 1], dist)[o].normalizedName == Normalize(arr[i].stop.stopName)
      && (o < |aggs| ==> Within(dist(aggs[o].lat, aggs[o].lon, arr[i].stop.lat, arr[i].stop.lon)))
      && (o < |aggs| ==> Fixed(Aggregate(arr[..i + 1], dist)[o]) == Fixed(aggs[o]))
  {
    var aggs := Aggregate(arr[..i], dist);
    TakeSnoc(arr, i);
    AggregateSnoc(arr[..i], arr[i], dist);
    StepChoosesFirst(aggs, arr[i], dist);
    StepKeeps(aggs, arr[i], dist);
  }

  /** What stop `i`'s aggregate looks like at the end. */
  lemma OwnerFinal(arr: seq<Arrival>, dist: Distance, i: nat)
    requires i < |arr|
    ensures var o := Owners(arr, dist)[i];
      && o < |Aggregate(arr, dist)|
      && Aggregate(arr, dist)[o].normalizedName == Normalize(arr[i].stop.stopName)
      && (o < |Aggregate(arr[..i], dist)| ==>
            Within(dist(Aggregate(arr, dist)[o].lat, Aggregate(arr, dist)[o].lon, arr[i].stop.lat, arr[i].stop.lon)))
  {
    OwnerAt(arr, dist, i);
    OwnerStep(arr, dist, i);
    var o := Owners(arr, dist)[i];
    KeptToEnd(arr, dist, i + 1, o);
  }

  /** Aggregate `k`, once made by the first `n` stops, keeps everything but
      its member list to the end. */
  lemma KeptToEnd(arr: seq<Arrival>, dist: Distance, n: nat, k: nat)
    requires n <= |arr| && k < |Aggregate(arr[..n], dist)|
    ensures k < |Aggregate(arr, dist)|
    ensures Fixed(Aggregate(arr, dist)[k]) == Fixed(Aggregate(arr[..n], dist)[k])
    ensures Aggregate(arr[..n], dist)[k].members <= Aggregate(arr, dist)[k].members
  {
    assert arr[..n] + arr[n..] == arr;
    AggregateKeeps(arr[..n], arr[n..], dist);
  }

  /** Every stop has an aggregate, which carries the stop's normalised name;
      a stop that joined an existing aggregate lies within 30 metres of its
      representative. */
  lemma OwnersAgree(arr: seq<Arrival>, dist: Distance)
    ensures forall i :: 0 <= i < |arr| ==>
      && Owners(arr, dist)[i] < |Aggregate(arr, dist)|
      && Aggregate(arr, dist)[Owners(arr, dist)[i]].normalizedName == Normalize(arr[i].stop.stopName)
    ensures forall i :: 0 <= i < |arr| && Owners(arr, dist)[i] < |Aggregate(arr[..i], dist)| ==>
      && Owners(arr, dist)[i] < |Aggregate(arr, dist)|
      && var g := Aggregate(arr, dist)[Owners(arr, dist)[i]];
         Within(dist(g.lat, g.lon, arr[i].stop.lat, arr[i].stop.lon))
  {
    forall i | 0 <= i < |arr| {
      OwnerFinal(arr, dist, i);
    }
  }

  // ---------------------------------------------------------------------
  // Ids.

  /** Aggregate `k` (from 0) has the id `${normalizedName}-${k + 1}`. */
  lemma {:induction false} IdsPositional(arr: seq<Arrival>, dist: Distance)
    ensures forall k :: 0 <= k < |Aggregate(arr, dist)| ==>
      Aggregate(arr, dist)[k].id == AggregateId(Aggregate(arr, dist)[k].normalizedName, k + 1)
    decreases |arr|
  {
    if arr != [] {
      var n := |arr| - 1;
      IdsPositional(arr[..n], dist);
      StepKeeps(Aggregate(arr[..n], dist), arr[n], dist);
    }
  }

  /** Positional ids never collide: the number after the last `-` tells the
      position. */
  lemma IdsUnique(arr: seq<Arrival>, dist: Distance)
    ensures forall j, k :: 0 <= j < k < |Aggregate(arr, dist)| ==>
      Aggregate(arr, dist)[j].id != Aggregate(arr, dist)[k].id
  {
    var aggs := Aggregate(arr, dist);
    IdsPositional(arr, dist);
    forall j, k | 0 <= j < k < |aggs| ensures aggs[j].id != aggs[k].id {
      if aggs[j].id == aggs[k].id {
        DistinctIds(aggs[j].normalizedName, j + 1, aggs[k].normalizedName, k + 1);
      }
    }
  }

  lemma DistinctIds(n1: string, p1: nat, n2: string, p2: nat)
    requires AggregateId(n1, p1) == AggregateId(n2, p2)
    ensures p1 == p2
  {
    NatToStringRoundTrip(p1);
    NatToStringRoundTrip(p2);
    assert '-' !in NatToString(p1) && '-' !in NatToString(p2);
    SplitAtLast(n1, NatToString(p1), n2, NatToString(p2), '-');
    NatToStringInjective(p1, p2);
  }

  // ---------------------------------------------------------------------
  // Two stops.

  /** Two stops end up in one aggregate exactly when their normalised names
      agree and the second lies within 30 metres of the first. */
  lemma TwoStopsMergeIff(a: Arrival, b: Arrival, dist: Distance)
    ensures |Aggregate([a, b], dist)| == 1 <==>
      Normalize(a.stop.stopName) == Normalize(b.stop.stopName)
      && Within(dist(a.stop.lat, a.stop.lon, b.stop.lat, b.stop.lon))
    ensures |Aggregate([a, b], dist)| in {1, 2}
  {
    AggregateSnoc([], a, dist);
    assert [] + [a] == [a];
    var one := Aggregate([a], dist);
    StepChoosesFirst([], a, dist);
    assert one == [NewAggregate(a, 0)];
    AggregateSnoc([a], b, dist);
    assert [a] + [b] == [a, b];
    StepChoosesFirst(one, b, dist);
  }
}
