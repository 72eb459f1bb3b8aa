/**
 * The neighbourhood pipeline behind the "get quality" command: a geohash
 * prefix search for nearby zip codes, a join that keeps each zip code's
 * latest reading, and a ranker that recommends nearby zip codes with better
 * air.
 *
 * The database tables are in-memory sequences in their storage order. The
 * great-circle distance and the PM2.5 level are parameters: `Distance` is
 * called in haversine_distance's argument order (lon1, lat1, lon2, lat2), and
 * `Pm25Level` maps a concentration to its ordered category.
 */
module Quality {
  import opened Wrappers
  import opened Sorting

  type ZipId = int

  /** Longitude/latitude of two points to kilometres (haversine_distance). */
  type Distance = (real, real, real, real) -> real

  /** A concentration to its ordered PM2.5 category (Pm25.from_measurement). */
  type Pm25Level = real -> nat

  const MaxNearbyZipcodeRadiusKm: real := 150.0
  const MaxNumNearbyZipcodes: nat := 200
  const NumDesiredRecommendations: nat := 3

  /** A row of the zip code table; `geohash[i - 1]` is column geohash_bit_i. */
  datatype ZipLocation = ZipLocation(
    id: ZipId,
    zipcode: string,
    latitude: real,
    longitude: real,
    geohash: string)

  /** A zip code found by the search, with its distance from the target. */
  datatype Candidate = Candidate(id: ZipId, distance: real)

  /** A row of the metrics table. */
  datatype Reading = Reading(zipcodeId: ZipId, timestamp: int, value: real, numSensors: int)

  /** What the joins with the zip code and city tables contribute. */
  datatype ZipName = ZipName(zipcode: string, cityName: string)

  /** `pm25Level` holds the `pm25_level` property, `level(averagePm25)`. */
  datatype AirQualityMetrics = AirQualityMetrics(
    zipcode: string,
    cityName: string,
    distance: real,
    averagePm25: real,
    numReadings: int,
    pm25Level: nat)

  // ---------------------------------------------------------------------
  // Geohash prefix search
  // ---------------------------------------------------------------------

  /**
   * The pair the search computes for a row: its id and its distance from the
   * target, with the row's longitude and latitude passed first.
   */
  function CandidateOf(z: ZipLocation, target: ZipLocation, distance: Distance): Candidate
  {
    Candidate(z.id, distance(z.longitude, z.latitude, target.longitude, target.latitude))
  }

  /** The filter geohash_bit_1 == prefix[0], ..., geohash_bit_k == prefix[k - 1]. */
  predicate MatchesPrefix(geohash: string, prefix: string): (b: bool)
    ensures b <==> |prefix| <= |geohash| && forall i :: 0 <= i < |prefix| ==> geohash[i] == prefix[i]
  {
    |prefix| <= |geohash| && geohash[..|prefix|] == prefix
  }

  /** `c` is what the search computes for some row matching `prefix`. */
  ghost predicate RowCandidate(
    c: Candidate, zips: seq<ZipLocation>, prefix: string, target: ZipLocation, distance: Distance)
  {
    exists i :: 0 <= i < |zips| && MatchesPrefix(zips[i].geohash, prefix) && c == CandidateOf(zips[i], target, distance)
  }

  /** A row matching a prefix also matches every shorter prefix of it. */
  lemma RowCandidateShorterPrefix(
    c: Candidate, zips: seq<ZipLocation>, prefix: string, k: nat, target: ZipLocation, distance: Distance)
    requires k <= |prefix|
    requires RowCandidate(c, zips, prefix, target, distance)
    ensures RowCandidate(c, zips, prefix[..k], target, distance)
  {
    var i :| 0 <= i < |zips| && MatchesPrefix(zips[i].geohash, prefix) && c == CandidateOf(zips[i], target, distance);
    assert zips[i].geohash[..k] == prefix[..k];
  }

  /**
   * The rows of one pass's query, in table order: those matching `prefix`
   * whose id is not yet collected.
   */
  function Matches(
    zips: seq<ZipLocation>, prefix: string, exclude: set<ZipId>, target: ZipLocation, distance: Distance)
    : (r: seq<Candidate>)
    ensures forall c :: c in r ==> c.id !in exclude && RowCandidate(c, zips, prefix, target, distance)
    ensures forall i :: 0 <= i < |zips| && MatchesPrefix(zips[i].geohash, prefix) && zips[i].id !in exclude
              ==> CandidateOf(zips[i], target, distance) in r
  {
    if zips == [] then []
    else
      var init := zips[..|zips| - 1];
      var last := zips[|zips| - 1];
      var rest := Matches(init, prefix, exclude, target, distance);
      assert forall c :: RowCandidate(c, init, prefix, target, distance) ==> RowCandidate(c, zips, prefix, target, distance) by {
        forall c | RowCandidate(c, init, prefix, target, distance) ensures RowCandidate(c, zips, prefix, target, distance) {
          var i :| 0 <= i < |init| && MatchesPrefix(init[i].geohash, prefix) && c == CandidateOf(init[i], target, distance);
          assert zips[i] == init[i];
        }
      }
      if MatchesPrefix(last.geohash, prefix) && last.id !in exclude then rest + [CandidateOf(last, target, distance)]
      else rest
  }

  /** The sort key of the search: ascending distance. */
  predicate NearestFirst(a: Candidate, b: Candidate)
  {
    a.distance <= b.distance
  }

  /** Every collected id other than the target is within the radius. */
  ghost predicate WithinRadius(m: map<ZipId, real>, target: ZipLocation)
  {
    forall id :: id in m && id != target.id ==> m[id] <= MaxNearbyZipcodeRadiusKm
  }

  /**
   * Every collected id other than the target comes, with its distance, from a
   * row that shares at least the first geohash character with the target
   * (the widest prefix the search ever queries).
   */
  ghost predicate FromNearbyRows(m: map<ZipId, real>, target: ZipLocation, zips: seq<ZipLocation>, distance: Distance)
  {
    forall id :: id in m && id != target.id ==>
      |target.geohash| > 0 && RowCandidate(Candidate(id, m[id]), zips, target.geohash[..1], target, distance)
  }

  /** Every row matching `prefix` and within the radius has been collected. */
  ghost predicate Covers(
    m: map<ZipId, real>, zips: seq<ZipLocation>, prefix: string, target: ZipLocation, distance: Distance)
  {
    forall i :: 0 <= i < |zips| && MatchesPrefix(zips[i].geohash, prefix)
      && CandidateOf(zips[i], target, distance).distance <= MaxNearbyZipcodeRadiusKm
      ==> zips[i].id in m
  }

  /** The sorted matches of a pass are uncollected candidates of rows matching the pass's prefix. */
  lemma SortedMatches(
    matches: seq<Candidate>, ranked: seq<Candidate>, zips: seq<ZipLocation>, gh: string,
    exclude: set<ZipId>, target: ZipLocation, distance: Distance)
    requires matches == Matches(zips, gh, exclude, target, distance)
    requires multiset(ranked) == multiset(matches)
    ensures forall c :: c in ranked ==> c.id !in exclude && RowCandidate(c, zips, gh, target, distance)
  {
    assert forall c :: c in ranked ==> c in multiset(matches);
  }

  /**
   * After a pass that did not reach the cap, every row matching the pass's
   * prefix and within the radius is collected.
   */
  lemma PassCovers(
    before: map<ZipId, real>, m: map<ZipId, real>, matches: seq<Candidate>, ranked: seq<Candidate>,
    zips: seq<ZipLocation>, gh: string, target: ZipLocation, distance: Distance)
    requires matches == Matches(zips, gh, before.Keys, target, distance)
    requires multiset(ranked) == multiset(matches)
    requires before.Keys <= m.Keys
    requires forall c :: c in ranked && c.distance <= MaxNearbyZipcodeRadiusKm ==> c.id in m
    ensures Covers(m, zips, gh, target, distance)
  {
    forall i | 0 <= i < |zips| && MatchesPrefix(zips[i].geohash, gh)
        && CandidateOf(zips[i], target, distance).distance <= MaxNearbyZipcodeRadiusKm
      ensures zips[i].id in m
    {
      if zips[i].id !in before {
        assert CandidateOf(zips[i], target, distance) in multiset(ranked);
      }
    }
  }

  /** Every id added over `m0` is one of the first `n` matches, with its distance. */
  ghost predicate AddedFrom(m: map<ZipId, real>, m0: map<ZipId, real>, ranked: seq<Candidate>, n: nat)
  {
    forall id :: id in m && id !in m0 ==>
      exists k :: 0 <= k < n && k < |ranked| && ranked[k].id == id && m[id] == ranked[k].distance
  }

  /** Each of the first `n` matches that is within the radius has been added. */
  ghost predicate ConsideredUpTo(m: map<ZipId, real>, ranked: seq<Candidate>, n: nat)
  {
    forall k :: 0 <= k < n && k < |ranked| && ranked[k].distance <= MaxNearbyZipcodeRadiusKm ==> ranked[k].id in m
  }

  /** Considering match `j` (adding it if within the radius) extends both predicates to `j + 1`. */
  lemma AddStep(previous: map<ZipId, real>, m: map<ZipId, real>, m0: map<ZipId, real>, ranked: seq<Candidate>, j: nat)
    requires j < |ranked|
    requires AddedFrom(previous, m0, ranked, j) && ConsideredUpTo(previous, ranked, j)
    requires if ranked[j].distance <= MaxNearbyZipcodeRadiusKm then m == previous[ranked[j].id := ranked[j].distance]
             else m == previous
    ensures AddedFrom(m, m0, ranked, j + 1) && ConsideredUpTo(m, ranked, j + 1)
  {
    var c := ranked[j];
    forall id | id in m && id !in m0
      ensures exists k :: 0 <= k < j + 1 && k < |ranked| && ranked[k].id == id && m[id] == ranked[k].distance
    {
      if c.distance <= MaxNearbyZipcodeRadiusKm && id == c.id {
        assert ranked[j].id == id && m[id] == ranked[j].distance;
      } else {
        assert id in previous && m[id] == previous[id];
      }
    }
    forall k | 0 <= k < j + 1 && ranked[k].distance <= MaxNearbyZipcodeRadiusKm
      ensures ranked[k].id in m
    {
      if k < j {
        assert ranked[k].id in previous;
      }
    }
  }

  /** Widening the prefix of matches keeps AddedFrom. */
  lemma AddedFromWiden(m: map<ZipId, real>, m0: map<ZipId, real>, ranked: seq<Candidate>, p: nat, n: nat)
    requires p <= n && AddedFrom(m, m0, ranked, p)
    ensures AddedFrom(m, m0, ranked, n)
  {
    forall id | id in m && id !in m0
      ensures exists k :: 0 <= k < n && k < |ranked| && ranked[k].id == id && m[id] == ranked[k].distance
    {
      var k :| 0 <= k < p && k < |ranked| && ranked[k].id == id && m[id] == ranked[k].distance;
    }
  }

  /**
   * The inner loop of _get_nearby_zipcodes over one pass's matches, nearest
   * first: adds each match within the radius, and reports `capped` as soon as
   * the map holds the maximum number of entries, whether or not the last match
   * considered was added. Only matches are added, each with its own distance;
   * when capped, what was added is exactly what a prefix of the matches
   * contributes, so the nearest matches go in first.
   */
  method AddNearbyMatches(
    m0: map<ZipId, real>, ranked: seq<Candidate>, gh: string,
    target: ZipLocation, zips: seq<ZipLocation>, distance: Distance)
    returns (m: map<ZipId, real>, capped: bool)
    requires 0 < |gh| <= |target.geohash| && gh == target.geohash[..|gh|]
    requires forall c :: c in ranked ==> c.id !in m0 && RowCandidate(c, zips, gh, target, distance)
    requires target.id in m0 && m0[target.id] == 0.0 && |m0| < MaxNumNearbyZipcodes
    requires WithinRadius(m0, target) && FromNearbyRows(m0, target, zips, distance)
    ensures target.id in m && m[target.id] == 0.0
    ensures WithinRadius(m, target) && FromNearbyRows(m, target, zips, distance)
    ensures m0.Keys <= m.Keys && forall id :: id in m0 ==> m[id] == m0[id]
    ensures AddedFrom(m, m0, ranked, |ranked|)
    ensures capped <==> |m| == MaxNumNearbyZipcodes
    ensures |m| <= MaxNumNearbyZipcodes
    ensures capped ==> exists p :: 0 < p <= |ranked| && ConsideredUpTo(m, ranked, p) && AddedFrom(m, m0, ranked, p)
    ensures !capped ==> forall c :: c in ranked && c.distance <= MaxNearbyZipcodeRadiusKm ==> c.id in m
  {
    m, capped := m0, false;
    assert gh[..1] == target.geohash[..1];
    var j := 0;
    while j < |ranked|
      invariant 0 <= j <= |ranked|
      invariant target.id in m && m[target.id] == 0.0
      invariant |m| < MaxNumNearbyZipcodes
      invariant WithinRadius(m, target) && FromNearbyRows(m, target, zips, distance)
      invariant m0.Keys <= m.Keys && forall id :: id in m0 ==> m[id] == m0[id]
      invariant AddedFrom(m, m0, ranked, j) && ConsideredUpTo(m, ranked, j)
    {
      var c := ranked[j];
      ghost var previous := m;
      if c.distance <= MaxNearbyZipcodeRadiusKm {
        RowCandidateShorterPrefix(c, zips, gh, 1, target, distance);
        m := m[c.id := c.distance];
      }
      AddStep(previous, m, m0, ranked, j);
      if |m| >= MaxNumNearbyZipcodes {
        AddedFromWiden(m, m0, ranked, j + 1, |ranked|);
        return m, true;
      }
      j := j + 1;
    }
    forall c | c in ranked && c.distance <= MaxNearbyZipcodeRadiusKm
      ensures c.id in m
    {
      var k :| 0 <= k < |ranked| && ranked[k] == c;
    }
  }

  /**
   * One pass of _get_nearby_zipcodes' outer loop, for the prefix `gh`: ranks
   * the uncollected matching rows nearest first and adds them; unless capped,
   * every row matching `gh` within the radius is then collected.
   */
  method NearbyPass(m0: map<ZipId, real>, gh: string, target: ZipLocation, zips: seq<ZipLocation>, distance: Distance)
    returns (m: map<ZipId, real>, capped: bool)
    requires 0 < |gh| <= |target.geohash| && gh == target.geohash[..|gh|]
    requires target.id in m0 && m0[target.id] == 0.0 && |m0| < MaxNumNearbyZipcodes
    requires WithinRadius(m0, target) && FromNearbyRows(m0, target, zips, distance)
    ensures target.id in m && m[target.id] == 0.0
    ensures WithinRadius(m, target) && FromNearbyRows(m, target, zips, distance)
    ensures capped <==> |m| == MaxNumNearbyZipcodes
    ensures |m| <= MaxNumNearbyZipcodes
    ensures !capped ==> Covers(m, zips, gh, target, distance)
  {
    var matches := Matches(zips, gh, m0.Keys, target, distance);
    var ranked := Sort(matches, NearestFirst);
    SortedMatches(matches, ranked, zips, gh, m0.Keys, target, distance);
    m, capped := AddNearbyMatches(m0, ranked, gh, target, zips, distance);
    if !capped {
      PassCovers(m0, m, matches, ranked, zips, gh, target, distance);
    }
  }

  /**
   * _get_nearby_zipcodes: collects zip codes sharing ever shorter prefixes of
   * the target's geohash, nearest first within each pass, keeping those within
   * the radius, and stops as soon as the cap is reached.
   */
  method NearbyZipcodes(target: ZipLocation, zips: seq<ZipLocation>, distance: Distance)
    returns (m: map<ZipId, real>)
    ensures target.id in m && m[target.id] == 0.0
    ensures |m| <= MaxNumNearbyZipcodes
    ensures forall id :: id in m && id != target.id ==> m[id] <= MaxNearbyZipcodeRadiusKm
    ensures FromNearbyRows(m, target, zips, distance)
    ensures |m| < MaxNumNearbyZipcodes && |target.geohash| > 0 ==>
              Covers(m, zips, target.geohash[..1], target, distance)
    ensures target.geohash == [] ==> m == map[target.id := 0.0]
    ensures (forall i :: 0 <= i < |zips| ==> zips[i].id == target.id) ==> m == map[target.id := 0.0]
  {
    m := map[target.id := 0.0];
    var gh := target.geohash;
    while |gh| > 0
      invariant |gh| <= |target.geohash| && gh == target.geohash[..|gh|]
      invariant target.id in m && m[target.id] == 0.0
      invariant |m| < MaxNumNearbyZipcodes
      invariant WithinRadius(m, target) && FromNearbyRows(m, target, zips, distance)
      invariant |gh| < |target.geohash| ==> Covers(m, zips, target.geohash[..|gh| + 1], target, distance)
      invariant target.geohash == [] ==> m == map[target.id := 0.0]
      decreases |gh|
    {
      var capped;
      m, capped := NearbyPass(m, gh, target, zips, distance);
      if capped {
        OnlyTargetRows(m, target, zips, distance);
        return;
      }
      assert target.geohash[..|gh|] == gh;
      gh := gh[..|gh| - 1];
    }
    OnlyTargetRows(m, target, zips, distance);
  }

  /** When every row is the target's own, nothing but the target is collected. */
  lemma OnlyTargetRows(m: map<ZipId, real>, target: ZipLocation, zips: seq<ZipLocation>, distance: Distance)
    requires target.id in m && m[target.id] == 0.0 && FromNearbyRows(m, target, zips, distance)
    ensures (forall i :: 0 <= i < |zips| ==> zips[i].id == target.id) ==> m == map[target.id := 0.0]
  {
    if forall i :: 0 <= i < |zips| ==> zips[i].id == target.id {
      assert forall id :: id in m ==> id == target.id;
      assert m.Keys == {target.id};
    }
  }

  // ---------------------------------------------------------------------
  // Latest-reading join
  // ---------------------------------------------------------------------

  ghost predicate HasReading(readings: seq<Reading>, id: ZipId)
  {
    exists i :: 0 <= i < |readings| && readings[i].zipcodeId == id
  }

  /** `r` is a reading of its zip code with no later reading of the same zip code. */
  ghost predicate IsLatestReading(readings: seq<Reading>, r: Reading)
  {
    r in readings && forall q :: q in readings && q.zipcodeId == r.zipcodeId ==> q.timestamp <= r.timestamp
  }

  /** The subquery `max(timestamp) ... group by zipcode_id`, for one zip code. */
  function MaxTimestamp(readings: seq<Reading>, id: ZipId): (t: Option<int>)
    ensures t.None? <==> !HasReading(readings, id)
    ensures t.Some? ==> exists i :: 0 <= i < |readings| && readings[i].zipcodeId == id && readings[i].timestamp == t.value
    ensures t.Some? ==> forall i :: 0 <= i < |readings| && readings[i].zipcodeId == id ==> readings[i].timestamp <= t.value
  {
    if readings == [] then None
    else
      var init := readings[..|readings| - 1];
      var last := readings[|readings| - 1];
      var t := MaxTimestamp(init, id);
      assert forall i :: 0 <= i < |init| ==> init[i] == readings[i];
      if last.zipcodeId != id then t
      else if t.Some? && last.timestamp <= t.value then t
      else Some(last.timestamp)
  }

  /**
   * The rows of `part` that the join query yields, in order: their timestamp
   * is their zip code's latest in `all`, and their zip code is named and
   * requested.
   */
  function JoinedRows(all: seq<Reading>, part: seq<Reading>, names: map<ZipId, ZipName>, ids: set<ZipId>)
    : (rows: seq<Reading>)
    ensures forall r :: r in rows ==>
              r in part && r.zipcodeId in names && r.zipcodeId in ids && MaxTimestamp(all, r.zipcodeId) == Some(r.timestamp)
    ensures forall r ::
              r in part && r.zipcodeId in names && r.zipcodeId in ids && MaxTimestamp(all, r.zipcodeId) == Some(r.timestamp)
              ==> r in rows
  {
    if part == [] then []
    else
      var rest := JoinedRows(all, part[..|part| - 1], names, ids);
      var r := part[|part| - 1];
      assert part == part[..|part| - 1] + [r];
      if r.zipcodeId in names && r.zipcodeId in ids && MaxTimestamp(all, r.zipcodeId) == Some(r.timestamp)
      then rest + [r]
      else rest
  }

  /** `entry` is the metric that the join row `r` of zip code `id` yields. */
  ghost predicate BuiltFromRow(
    entry: AirQualityMetrics, id: ZipId, rows: seq<Reading>, names: map<ZipId, ZipName>,
    zipcodesMap: map<ZipId, real>, level: Pm25Level)
  {
    exists r :: r in rows && r.zipcodeId == id && id in names && id in zipcodesMap
      && entry == MetricOf(r, names[id], zipcodesMap[id], level)
  }

  /** A reading at its zip code's maximum timestamp is a latest reading. */
  lemma LatestByMaxTimestamp(readings: seq<Reading>, r: Reading)
    requires r in readings && MaxTimestamp(readings, r.zipcodeId) == Some(r.timestamp)
    ensures IsLatestReading(readings, r)
  {
    forall q | q in readings && q.zipcodeId == r.zipcodeId
      ensures q.timestamp <= r.timestamp
    {
      var i :| 0 <= i < |readings| && readings[i] == q;
    }
  }

  /** One iteration of the join loop keeps both loop invariants. */
  lemma JoinStep(
    metrics: map<ZipId, AirQualityMetrics>, rows: seq<Reading>, j: nat, names: map<ZipId, ZipName>,
    zipcodesMap: map<ZipId, real>, level: Pm25Level)
    requires j < |rows| && rows[j].zipcodeId in names && rows[j].zipcodeId in zipcodesMap
    requires forall id :: id in metrics <==> exists k :: 0 <= k < j && rows[k].zipcodeId == id
    requires forall id :: id in metrics ==> BuiltFromRow(metrics[id], id, rows, names, zipcodesMap, level)
    ensures var id := rows[j].zipcodeId;
            var next := metrics[id := MetricOf(rows[j], names[id], zipcodesMap[id], level)];
            (forall id' :: id' in next <==> exists k :: 0 <= k < j + 1 && rows[k].zipcodeId == id')
            && (forall id' :: id' in next ==> BuiltFromRow(next[id'], id', rows, names, zipcodesMap, level))
  {
    var id := rows[j].zipcodeId;
    var next := metrics[id := MetricOf(rows[j], names[id], zipcodesMap[id], level)];
    forall id' ensures id' in next <==> exists k :: 0 <= k < j + 1 && rows[k].zipcodeId == id' {
      if id' != id && id' !in metrics {
        assert forall k :: 0 <= k < j + 1 && rows[k].zipcodeId == id' ==> k < j;
      }
    }
    assert BuiltFromRow(next[id], id, rows, names, zipcodesMap, level) by {
      assert rows[j] in rows;
    }
  }

  /** Entries built from join rows are built from latest readings. */
  lemma EntriesFromLatest(
    metrics: map<ZipId, AirQualityMetrics>, readings: seq<Reading>, names: map<ZipId, ZipName>,
    zipcodesMap: map<ZipId, real>, level: Pm25Level)
    requires forall id :: id in metrics ==>
      BuiltFromRow(metrics[id], id, JoinedRows(readings, readings, names, zipcodesMap.Keys), names, zipcodesMap, level)
    ensures forall id :: id in metrics ==>
              id in names && id in zipcodesMap
              && exists r :: r in readings && r.zipcodeId == id && IsLatestReading(readings, r)
                   && metrics[id] == MetricOf(r, names[id], zipcodesMap[id], level)
  {
    var rows := JoinedRows(readings, readings, names, zipcodesMap.Keys);
    forall id | id in metrics
      ensures id in names && id in zipcodesMap
              && exists r :: r in readings && r.zipcodeId == id && IsLatestReading(readings, r)
                   && metrics[id] == MetricOf(r, names[id], zipcodesMap[id], level)
    {
      var r :| r in rows && r.zipcodeId == id && id in names && id in zipcodesMap
        && metrics[id] == MetricOf(r, names[id], zipcodesMap[id], level);
      LatestByMaxTimestamp(readings, r);
    }
  }

  /** The join yields a row for exactly the requested, named zip codes that have a reading. */
  lemma JoinedRowIds(readings: seq<Reading>, names: map<ZipId, ZipName>, ids: set<ZipId>)
    ensures var rows := JoinedRows(readings, readings, names, ids);
      forall id :: (exists k :: 0 <= k < |rows| && rows[k].zipcodeId == id)
        <==> id in ids && id in names && HasReading(readings, id)
  {
    var rows := JoinedRows(readings, readings, names, ids);
    forall id | id in ids && id in names && HasReading(readings, id)
      ensures exists k :: 0 <= k < |rows| && rows[k].zipcodeId == id
    {
      var i :| 0 <= i < |readings| && readings[i].zipcodeId == id && Some(readings[i].timestamp) == MaxTimestamp(readings, id);
      assert readings[i] in rows;
      var k :| 0 <= k < |rows| && rows[k] == readings[i];
    }
    forall k | 0 <= k < |rows|
      ensures HasReading(readings, rows[k].zipcodeId)
    {
      assert rows[k] in readings;
    }
  }

  /** The record built from a joined row: names from the zip code, distance from the request. */
  function MetricOf(r: Reading, name: ZipName, distance: real, level: Pm25Level): AirQualityMetrics
  {
    AirQualityMetrics(name.zipcode, name.cityName, distance, r.value, r.numSensors, level(r.value))
  }

  /**
   * _get_air_quality_metrics_for_zipcodes: one entry per requested zip code
   * that has a name and at least one reading, built from a latest reading and
   * carrying the requested distance. Zip codes without readings are left out.
   */
  method AirQualityMetricsForZipcodes(
    zipcodesMap: map<ZipId, real>, readings: seq<Reading>, names: map<ZipId, ZipName>, level: Pm25Level)
    returns (metrics: map<ZipId, AirQualityMetrics>)
    ensures forall id :: id in metrics <==> id in zipcodesMap && id in names && HasReading(readings, id)
    ensures forall id :: id in metrics ==>
              exists r :: r in readings && r.zipcodeId == id && IsLatestReading(readings, r)
                && metrics[id] == MetricOf(r, names[id], zipcodesMap[id], level)
  {
    var rows := JoinedRows(readings, readings, names, zipcodesMap.Keys);
    metrics := map[];
    for j := 0 to |rows|
      invariant forall id :: id in metrics <==> exists k :: 0 <= k < j && rows[k].zipcodeId == id
      invariant forall id :: id in metrics ==> BuiltFromRow(metrics[id], id, rows, names, zipcodesMap, level)
    {
      var r := rows[j];
      JoinStep(metrics, rows, j, names, zipcodesMap, level);
      metrics := metrics[r.zipcodeId := MetricOf(r, names[r.zipcodeId], zipcodesMap[r.zipcodeId], level)];
    }
    JoinedRowIds(readings, names, zipcodesMap.Keys);
    EntriesFromLatest(metrics, readings, names, zipcodesMap, level);
  }

  /** The metric's pm2.5 figures are those of reading `r`. */
  ghost predicate MetricFields(metric: AirQualityMetrics, r: Reading, level: Pm25Level)
  {
    metric.averagePm25 == r.value && metric.numReadings == r.numSensors && metric.pm25Level == level(r.value)
  }

  /**
   * _get_air_quality_metrics: with `details`, the metrics of the whole
   * neighbourhood; without, of the target alone (distance 0). Either way the
   * target has an entry exactly when it has a name and a reading.
   */
  method GetAirQualityMetrics(
    target: ZipLocation, details: bool, zips: seq<ZipLocation>, distance: Distance,
    readings: seq<Reading>, names: map<ZipId, ZipName>, level: Pm25Level)
    returns (metrics: map<ZipId, AirQualityMetrics>)
    ensures target.id in metrics <==> target.id in names && HasReading(readings, target.id)
    ensures target.id in metrics ==> metrics[target.id].distance == 0.0
    ensures !details ==> metrics.Keys <= {target.id}
    ensures |metrics| <= MaxNumNearbyZipcodes
    ensures forall id :: id in metrics && id != target.id ==> metrics[id].distance <= MaxNearbyZipcodeRadiusKm
    ensures forall id :: id in metrics ==>
              id in names && metrics[id].zipcode == names[id].zipcode && metrics[id].cityName == names[id].cityName
    ensures forall id :: id in metrics ==>
              exists r :: IsLatestReading(readings, r) && r.zipcodeId == id && MetricFields(metrics[id], r, level)
  {
    var zipcodesMap: map<ZipId, real>;
    if details {
      zipcodesMap := NearbyZipcodes(target, zips, distance);
    } else {
      zipcodesMap := map[target.id := 0.0];
    }
    metrics := AirQualityMetricsForZipcodes(zipcodesMap, readings, names, level);
    assert forall id :: id in metrics ==> id in zipcodesMap;
    SubsetCardinality(metrics.Keys, zipcodesMap.Keys);
  }

  lemma SubsetCardinality<T>(a: set<T>, b: set<T>)
    requires a <= b
    ensures |a| <= |b|
  {
    assert b == a + (b - a);
  }

  // ---------------------------------------------------------------------
  // Recommendation ranker
  // ---------------------------------------------------------------------

  /** Another zip code string, strictly better air than the cutoff. */
  predicate Qualifies(m: AirQualityMetrics, zipcode: string, cutoff: nat)
  {
    m.zipcode != zipcode && m.pm25Level < cutoff
  }

  /** The list comprehension of _get_recommendations, in input order. */
  function Candidates(metrics: seq<AirQualityMetrics>, zipcode: string, cutoff: nat)
    : (r: seq<AirQualityMetrics>)
    ensures forall x :: multiset(r)[x] == if Qualifies(x, zipcode, cutoff) then multiset(metrics)[x] else 0
    ensures forall x :: x in r <==> x in metrics && Qualifies(x, zipcode, cutoff)
  {
    if metrics == [] then []
    else
      var last := metrics[|metrics| - 1];
      var rest := Candidates(metrics[..|metrics| - 1], zipcode, cutoff);
      assert metrics == metrics[..|metrics| - 1] + [last];
      if Qualifies(last, zipcode, cutoff) then rest + [last] else rest
  }

  /** The sort key (level, distance), compared lexicographically. */
  predicate RankedBefore(a: AirQualityMetrics, b: AirQualityMetrics)
  {
    a.pm25Level < b.pm25Level || (a.pm25Level == b.pm25Level && a.distance <= b.distance)
  }

  function Min(a: nat, b: nat): nat
  {
    if a < b then a else b
  }

  /** The `sorted(...)` call of _get_recommendations: all candidates in ascending (level, distance) order. */
  function RankedCandidates(metrics: seq<AirQualityMetrics>, zipcode: string, cutoff: nat)
    : (r: seq<AirQualityMetrics>)
    ensures multiset(r) == multiset(Candidates(metrics, zipcode, cutoff))
    ensures SortedBy(r, RankedBefore)
  {
    Sort(Candidates(metrics, zipcode, cutoff), RankedBefore)
  }

  /**
   * The recommendations of _get_recommendations: the qualifying metrics with
   * the three smallest (level, distance) keys, in ascending key order.
   */
  function Recommendations(metrics: seq<AirQualityMetrics>, zipcode: string, cutoff: nat)
    : (r: seq<AirQualityMetrics>)
    ensures |r| == Min(NumDesiredRecommendations, |Candidates(metrics, zipcode, cutoff)|)
    ensures forall x :: x in r ==> x.zipcode != zipcode && x.pm25Level < cutoff
    ensures SortedBy(r, RankedBefore)
    ensures multiset(r) <= multiset(Candidates(metrics, zipcode, cutoff))
    ensures forall x :: x in multiset(Candidates(metrics, zipcode, cutoff)) - multiset(r) ==>
              |r| == NumDesiredRecommendations && RankedBefore(r[|r| - 1], x)
  {
    var sorted := RankedCandidates(metrics, zipcode, cutoff);
    var n := Min(NumDesiredRecommendations, |sorted|);
    SortedPrefix(sorted, n, RankedBefore);
    SortedSlice(sorted, n, RankedBefore);
    assert forall x :: x in sorted[..n] ==> x in multiset(sorted);
    sorted[..n]
  }

  /** There is no recommendation exactly when no entry qualifies. */
  lemma NoRecommendations(metrics: seq<AirQualityMetrics>, zipcode: string, cutoff: nat)
    ensures Recommendations(metrics, zipcode, cutoff) == [] <==>
              forall x :: x in metrics ==> !Qualifies(x, zipcode, cutoff)
  {
    var c := Candidates(metrics, zipcode, cutoff);
    if c != [] {
      assert c[0] in c;
    }
  }

  // Three neighbours of a target in category 3 (zip code "0").
  const ExampleGood := AirQualityMetrics("1", "A", 10.0, 2.0, 1, 0)
  const ExampleModerate := AirQualityMetrics("2", "B", 1.0, 20.0, 1, 1)
  const ExampleUnhealthy := AirQualityMetrics("3", "C", 0.5, 80.0, 1, 3)

  lemma ExampleCandidates()
    ensures Candidates([ExampleUnhealthy, ExampleModerate, ExampleGood], "0", 3) == [ExampleModerate, ExampleGood]
  {
    var all := [ExampleUnhealthy, ExampleModerate, ExampleGood];
    assert all[..2] == [ExampleUnhealthy, ExampleModerate];
    assert [ExampleUnhealthy, ExampleModerate][..1] == [ExampleUnhealthy];
    assert Candidates([ExampleUnhealthy], "0", 3) == [] by {
      assert [ExampleUnhealthy][..0] == [];
    }
    assert Candidates([ExampleUnhealthy, ExampleModerate], "0", 3) == [ExampleModerate];
  }

  lemma ExampleSort()
    ensures Sort([ExampleModerate, ExampleGood], RankedBefore) == [ExampleGood, ExampleModerate]
  {
    assert [ExampleModerate, ExampleGood][1..] == [ExampleGood];
    assert [ExampleGood][1..] == [];
    assert Sort([ExampleGood], RankedBefore) == [ExampleGood];
    assert Insert(ExampleModerate, [ExampleGood], RankedBefore) == [ExampleGood, ExampleModerate];
  }

  /**
   * Category beats distance: with the target in category 3, neighbours in
   * categories 0 (10 km), 1 (1 km) and 3 (0.5 km) give the first two, in that
   * order, and leave out the one that is not strictly better.
   */
  lemma RankerExample()
    ensures Recommendations([ExampleUnhealthy, ExampleModerate, ExampleGood], "0", 3) == [ExampleGood, ExampleModerate]
  {
    ExampleCandidates();
    ExampleSort();
    assert [ExampleGood, ExampleModerate][..2] == [ExampleGood, ExampleModerate];
  }

  /** A line of the recommendation message, as a tag rather than text. */
  datatype MessageLine = TryTheseHeader | PlaceLine(cityName: string, zipcode: string, level: nat)

  /**
   * _get_recommendations: no lines when nothing qualifies, otherwise a header
   * and one line per recommendation, in order.
   */
  function GetRecommendations(metrics: seq<AirQualityMetrics>, zipcode: string, cutoff: nat)
    : (lines: seq<MessageLine>)
    ensures lines == [] <==> forall x :: x in metrics ==> !Qualifies(x, zipcode, cutoff)
    ensures lines != [] ==>
              var recs := Recommendations(metrics, zipcode, cutoff);
              lines[0] == TryTheseHeader && |lines| == |recs| + 1
              && forall i :: 0 <= i < |recs| ==>
                   lines[i + 1] == PlaceLine(recs[i].cityName, recs[i].zipcode, recs[i].pm25Level)
  {
    var recs := Recommendations(metrics, zipcode, cutoff);
    NoRecommendations(metrics, zipcode, cutoff);
    if recs == [] then []
    else
      seq(|recs| + 1, i requires 0 <= i <= |recs| =>
        if i == 0 then TryTheseHeader
        else PlaceLine(recs[i - 1].cityName, recs[i - 1].zipcode, recs[i - 1].pm25Level))
  }
}
