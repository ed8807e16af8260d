/**
 * The aggregation job (src/compute_stats.py): one grouped query over the
 * observation table, then an update-or-insert of each group's row in the
 * yearly-stats table.
 */
module Stats {
  import opened Wrappers
  import opened Models
  import Ingest

  /** The group of an observation: its station and `CAST(strftime('%Y', date) AS INTEGER)`, the date's year. */
  function GroupKeyOf(o: Observation): StatsKey {
    StatsKey(o.stationId, o.date.year)
  }

  /** The three measured columns. */
  datatype Field = MaxTemp | MinTemp | Precip

  function Reading(o: Observation, f: Field): Option<int> {
    match f
    case MaxTemp => o.maxTempTenthC
    case MinTemp => o.minTempTenthC
    case Precip => o.precipTenthMm
  }

  /** One column of a set of rows, NULLs included. */
  function Column(rows: seq<Observation>, f: Field): (c: seq<Option<int>>)
    ensures |c| == |rows| && forall i :: 0 <= i < |rows| ==> c[i] == Reading(rows[i], f)
  {
    seq(|rows|, i requires 0 <= i < |rows| => Reading(rows[i], f))
  }

  /** The state SQL's AVG and SUM keep while scanning: the sum and the count of the non-NULL inputs. */
  datatype SumCount = SumCount(sum: int, count: nat)

  /** Scans a column into the aggregate state, skipping NULLs. */
  function Accumulate(column: seq<Option<int>>): SumCount
    decreases |column|
  {
    if column == [] then SumCount(0, 0)
    else
      var acc := Accumulate(column[..|column| - 1]);
      match column[|column| - 1]
      case None => acc
      case Some(v) => SumCount(acc.sum + v, acc.count + 1)
  }

  /** SQL `AVG`: the mean of the non-NULL inputs, NULL when there are none. */
  function SqlAvg(column: seq<Option<int>>): Option<real> {
    var acc := Accumulate(column);
    if acc.count == 0 then None else Some(acc.sum as real / acc.count as real)
  }

  /** SQL `SUM`: the sum of the non-NULL inputs, NULL when there are none. */
  function SqlSum(column: seq<Option<int>>): Option<int> {
    var acc := Accumulate(column);
    if acc.count == 0 then None else Some(acc.sum)
  }

  /** SQL `x / d` with a non-zero literal `d`: NULL stays NULL. */
  function DivideBy(x: Option<real>, d: real): Option<real>
    requires d != 0.0
  {
    match x
    case None => None
    case Some(v) => Some(v / d)
  }

  function AsReal(x: Option<int>): Option<real> {
    match x
    case None => None
    case Some(v) => Some(v as real)
  }

  /** The non-NULL values of a column, in order. */
  function Present(column: seq<Option<int>>): seq<int> {
    if column == [] then [] else ValueOf(column[0]) + Present(column[1..])
  }

  /** A single value as a list: empty for NULL. */
  function ValueOf(x: Option<int>): seq<int> {
    if x.Some? then [x.value] else []
  }

  function Total(xs: seq<int>): int {
    if xs == [] then 0 else xs[0] + Total(xs[1..])
  }

  lemma {:induction false} TotalAppend(xs: seq<int>, ys: seq<int>)
    ensures Total(xs + ys) == Total(xs) + Total(ys)
    decreases |xs|
  {
    if xs == [] {
      assert xs + ys == ys;
    } else {
      assert (xs + ys)[0] == xs[0] && (xs + ys)[1..] == xs[1..] + ys;
      TotalAppend(xs[1..], ys);
    }
  }

  lemma {:induction false} PresentAppend(c: seq<Option<int>>, d: seq<Option<int>>)
    ensures Present(c + d) == Present(c) + Present(d)
    decreases |c|
  {
    if c == [] {
      assert c + d == d;
    } else {
      var cd := c + d;
      assert cd[0] == c[0] && cd[1..] == c[1..] + d;
      PresentAppend(c[1..], d);
      var v, p, q := ValueOf(c[0]), Present(c[1..]), Present(d);
      assert Present(cd) == v + (p + q);
      assert v + (p + q) == (v + p) + q;
    }
  }

  /** The scan computes exactly the sum and the number of the column's non-NULL values. */
  lemma {:induction false} AccumulateIsTotal(column: seq<Option<int>>)
    ensures Accumulate(column) == SumCount(Total(Present(column)), |Present(column)|)
    decreases |column|
  {
    if column != [] {
      var p, x := column[..|column| - 1], column[|column| - 1];
      assert column == p + [x];
      AccumulateIsTotal(p);
      PresentAppend(p, [x]);
      assert Present([x]) == ValueOf(x) + Present([]);
      TotalAppend(Present(p), Present([x]));
    }
  }

  /** The rows of one (station, year) group, in table order. */
  function GroupRows(obs: seq<Observation>, key: StatsKey): (g: seq<Observation>)
    ensures forall o :: o in g <==> o in obs && GroupKeyOf(o) == key
    decreases |obs|
  {
    if obs == [] then []
    else
      var p, o := obs[..|obs| - 1], obs[|obs| - 1];
      assert obs == p + [o];
      GroupRows(p, key) + (if GroupKeyOf(o) == key then [o] else [])
  }

  /** A group holds each observation of its key as many times as the table does, and no other. */
  lemma {:induction false} GroupRowsCount(obs: seq<Observation>, key: StatsKey)
    ensures forall o :: multiset(GroupRows(obs, key))[o] == if GroupKeyOf(o) == key then multiset(obs)[o] else 0
    decreases |obs|
  {
    if obs != [] {
      var p, o := obs[..|obs| - 1], obs[|obs| - 1];
      assert obs == p + [o];
      var last := if GroupKeyOf(o) == key then [o] else [];
      GroupRowsCount(p, key);
      assert multiset(obs) == multiset(p) + multiset{o};
      assert GroupRows(obs, key) == GroupRows(p, key) + last;
      assert multiset(GroupRows(obs, key)) == multiset(GroupRows(p, key)) + multiset(last);
    }
  }

  /** One result row of the grouped query, already in display units. */
  datatype GroupRow = GroupRow(key: StatsKey, avgMaxTempC: Option<real>, avgMinTempC: Option<real>, totalPrecipCm: Option<real>)

  function RowKey(g: GroupRow): StatsKey {
    g.key
  }

  /** The select list: `avg(max) / 10.0`, `avg(min) / 10.0`, `sum(precip) / 100.0` over one group. */
  function Aggregate(obs: seq<Observation>, key: StatsKey): GroupRow {
    var g := GroupRows(obs, key);
    GroupRow(key,
             DivideBy(SqlAvg(Column(g, MaxTemp)), 10.0),
             DivideBy(SqlAvg(Column(g, MinTemp)), 10.0),
             DivideBy(AsReal(SqlSum(Column(g, Precip))), 100.0))
  }

  /** The non-missing readings of field `f` in group `key`. */
  function GroupReadings(obs: seq<Observation>, key: StatsKey, f: Field): seq<int> {
    Present(Column(GroupRows(obs, key), f))
  }

  /** The arithmetic mean of some readings; none for no readings. */
  function Mean(xs: seq<int>): Option<real> {
    if xs == [] then None else Some(Total(xs) as real / |xs| as real)
  }

  /** The total of some readings; none for no readings. */
  function TotalOrNone(xs: seq<int>): Option<int> {
    if xs == [] then None else Some(Total(xs))
  }

  /** SQL AVG is the mean of the non-NULL values, and NULL exactly when there are none. */
  lemma SqlAvgIsMean(column: seq<Option<int>>)
    ensures SqlAvg(column) == Mean(Present(column))
  {
    AccumulateIsTotal(column);
  }

  /** SQL SUM is the total of the non-NULL values, and NULL exactly when there are none. */
  lemma SqlSumIsTotal(column: seq<Option<int>>)
    ensures SqlSum(column) == TotalOrNone(Present(column))
  {
    AccumulateIsTotal(column);
  }

  /**
   * Each aggregate in degrees Celsius or centimetres: the mean (for precipitation
   * the sum) of the group's non-missing readings, converted from tenths; absent
   * exactly when the group has no non-missing reading of that field.
   */
  lemma AggregateValues(obs: seq<Observation>, key: StatsKey)
    ensures var r := Aggregate(obs, key);
      && r.key == key
      && r.avgMaxTempC == DivideBy(Mean(GroupReadings(obs, key, MaxTemp)), 10.0)
      && r.avgMinTempC == DivideBy(Mean(GroupReadings(obs, key, MinTemp)), 10.0)
      && r.totalPrecipCm == DivideBy(AsReal(TotalOrNone(GroupReadings(obs, key, Precip))), 100.0)
  {
    var g := GroupRows(obs, key);
    SqlAvgIsMean(Column(g, MaxTemp));
    SqlAvgIsMean(Column(g, MinTemp));
    SqlSumIsTotal(Column(g, Precip));
  }

  /** Readings of 100 and 200 tenths and one missing reading average to 15.0 degrees. */
  lemma MissingReadingIsSkipped()
    ensures DivideBy(SqlAvg([Some(100), Some(200), None]), 10.0) == Some(15.0)
  {
    var c: seq<Option<int>> := [Some(100), Some(200), None];
    assert c[..2] == [Some(100), Some(200)] && c[..2][..1] == [Some(100)] && c[..2][..1][..0] == [];
    assert Accumulate(c[..2][..1]) == SumCount(100, 1);
    assert Accumulate(c[..2]) == SumCount(300, 2);
    assert Accumulate(c) == SumCount(300, 2);
  }

  /** The distinct group keys, in order of first appearance. */
  function GroupKeys(obs: seq<Observation>): (ks: seq<StatsKey>)
    ensures forall i, j :: 0 <= i < j < |ks| ==> ks[i] != ks[j]
    ensures (set k | k in ks) == KeySet(obs, GroupKeyOf)
    decreases |obs|
  {
    if obs == [] then []
    else
      var p, o := obs[..|obs| - 1], obs[|obs| - 1];
      assert obs == p + [o];
      KeySetAppend(p, o, GroupKeyOf);
      var ks := GroupKeys(p);
      if GroupKeyOf(o) in ks then ks else ks + [GroupKeyOf(o)]
  }

  /**
   * The grouped query: one row per distinct (station, year) among the
   * observations and none for any other key, each carrying its group's aggregates.
   */
  function YearlyAggregates(obs: seq<Observation>): (q: seq<GroupRow>)
    ensures UniqueBy(q, RowKey)
    ensures KeySet(q, RowKey) == KeySet(obs, GroupKeyOf)
    ensures |q| == |KeySet(obs, GroupKeyOf)|
    ensures forall i :: 0 <= i < |q| ==> q[i] == Aggregate(obs, q[i].key)
  {
    var ks := GroupKeys(obs);
    var q := seq(|ks|, i requires 0 <= i < |ks| => Aggregate(obs, ks[i]));
    assert KeySet(q, RowKey) == KeySet(obs, GroupKeyOf) by {
      forall k | k in KeySet(obs, GroupKeyOf) ensures k in KeySet(q, RowKey) {
        assert k in (set k | k in ks);
        var i :| 0 <= i < |ks| && ks[i] == k;
        assert q[i] in q;
      }
    }
    UniqueIffKeyCount(q, RowKey);
    q
  }

  function StatsKeys(rows: seq<YearlyStats>): set<StatsKey> {
    KeySet(rows, StatsKeyOf)
  }

  /** `filter_by(station_id=…, year=…).one_or_none()`: where the row with `key` is, if any. */
  function FindStats(rows: seq<YearlyStats>, key: StatsKey): (r: Option<nat>)
    ensures r.Some? ==> r.value < |rows| && StatsKeyOf(rows[r.value]) == key
    ensures r.None? <==> key !in StatsKeys(rows)
    decreases |rows|
  {
    if rows == [] then None
    else
      var p, s := rows[..|rows| - 1], rows[|rows| - 1];
      assert rows == p + [s];
      KeySetAppend(p, s, StatsKeyOf);
      if StatsKeyOf(s) == key then Some(|rows| - 1)
      else
        match FindStats(p, key)
        case None => None
        case Some(i) => Some(i)
  }

  /** The row stored under `key`, if any. */
  function Lookup(rows: seq<YearlyStats>, key: StatsKey): Option<YearlyStats> {
    match FindStats(rows, key)
    case None => None
    case Some(i) => Some(rows[i])
  }

  /** Under the key constraint, the row at any position is the one stored under its key. */
  lemma LookupAt(rows: seq<YearlyStats>, i: nat)
    requires UniqueBy(rows, StatsKeyOf) && i < |rows|
    ensures Lookup(rows, StatsKeyOf(rows[i])) == Some(rows[i])
  {
    assert rows[i] in rows;
  }

  /** A new row built from a query result. */
  function NewStatsRow(g: GroupRow): YearlyStats {
    YearlyStats(g.key.stationId, g.key.year, g.avgMaxTempC, g.avgMinTempC, g.totalPrecipCm)
  }

  /** An existing row with its three aggregate columns overwritten. */
  function WithAggregates(s: YearlyStats, g: GroupRow): YearlyStats {
    s.(avgMaxTempC := g.avgMaxTempC, avgMinTempC := g.avgMinTempC, totalPrecipCm := g.totalPrecipCm)
  }

  /** One pass of the upsert loop: overwrite the row with the group's key, or add one. */
  function Upsert(rows: seq<YearlyStats>, g: GroupRow): seq<YearlyStats> {
    match FindStats(rows, g.key)
    case Some(i) => rows[i := WithAggregates(rows[i], g)]
    case None => rows + [NewStatsRow(g)]
  }

  /** Overwriting the aggregates of a row keeps every key where it was. */
  lemma OverwriteKeepsKeys(rows: seq<YearlyStats>, i: nat, g: GroupRow)
    requires i < |rows|
    ensures var r := rows[i := WithAggregates(rows[i], g)];
      && |r| == |rows| && (forall j :: 0 <= j < |rows| ==> StatsKeyOf(r[j]) == StatsKeyOf(rows[j]))
      && StatsKeys(r) == StatsKeys(rows)
      && (UniqueBy(rows, StatsKeyOf) ==> UniqueBy(r, StatsKeyOf))
  {
    var r := rows[i := WithAggregates(rows[i], g)];
    forall k | k in StatsKeys(rows) ensures k in StatsKeys(r) {
      var s :| s in rows && StatsKeyOf(s) == k;
      var j :| 0 <= j < |rows| && rows[j] == s;
      assert r[j] in r;
    }
    forall k | k in StatsKeys(r) ensures k in StatsKeys(rows) {
      var s :| s in r && StatsKeyOf(s) == k;
      var j :| 0 <= j < |r| && r[j] == s;
      assert rows[j] in rows;
    }
  }

  /**
   * An upsert keeps the key constraint and adds the group's key to the table's
   * keys: an existing row is overwritten where it stands, otherwise one row is
   * appended; no row is deleted or moved.
   */
  lemma UpsertKeys(rows: seq<YearlyStats>, g: GroupRow)
    requires UniqueBy(rows, StatsKeyOf)
    ensures var r := Upsert(rows, g);
      && UniqueBy(r, StatsKeyOf)
      && StatsKeys(r) == StatsKeys(rows) + {g.key}
      && (g.key in StatsKeys(rows) ==> |r| == |rows|)
      && (g.key !in StatsKeys(rows) ==> r == rows + [NewStatsRow(g)])
      && |rows| <= |r| && (forall j :: 0 <= j < |rows| ==> StatsKeyOf(r[j]) == StatsKeyOf(rows[j]))
  {
    match FindStats(rows, g.key)
    case Some(i) =>
      OverwriteKeepsKeys(rows, i, g);
    case None =>
      AppendKeepsUnique(rows, NewStatsRow(g), StatsKeyOf);
      KeySetAppend(rows, NewStatsRow(g), StatsKeyOf);
  }

  /**
   * After an upsert the group's key holds exactly the row built from the
   * group's key and values, and every other key holds what it held before.
   */
  lemma UpsertLookups(rows: seq<YearlyStats>, g: GroupRow)
    requires UniqueBy(rows, StatsKeyOf)
    ensures var r := Upsert(rows, g);
      && Lookup(r, g.key) == Some(NewStatsRow(g))
      && (forall k :: k != g.key ==> Lookup(r, k) == Lookup(rows, k))
  {
    var r := Upsert(rows, g);
    UpsertKeys(rows, g);
    match FindStats(rows, g.key)
    case Some(i) =>
      LookupAt(r, i);
      forall k | k != g.key ensures Lookup(r, k) == Lookup(rows, k) {
        if k in StatsKeys(rows) {
          var j := FindStats(rows, k).value;
          LookupAt(rows, j);
          LookupAt(r, j);
        } else {
          assert FindStats(r, k).None?;
        }
      }
    case None =>
      LookupAt(r, |rows|);
      forall k | k != g.key ensures Lookup(r, k) == Lookup(rows, k) {
        if k in StatsKeys(rows) {
          var j := FindStats(rows, k).value;
          LookupAt(rows, j);
          assert r[j] == rows[j];
          LookupAt(r, j);
        } else {
          assert FindStats(r, k).None?;
        }
      }
  }

  /** The upsert loop over the query result, in result order. */
  function UpsertAll(rows: seq<YearlyStats>, gs: seq<GroupRow>): seq<YearlyStats>
    decreases |gs|
  {
    if gs == [] then rows else Upsert(UpsertAll(rows, gs[..|gs| - 1]), gs[|gs| - 1])
  }

  lemma UpsertAllStep(rows: seq<YearlyStats>, gs: seq<GroupRow>, i: nat)
    requires i < |gs|
    ensures UpsertAll(rows, gs[..i + 1]) == Upsert(UpsertAll(rows, gs[..i]), gs[i])
  {
    assert gs[..i + 1][..i] == gs[..i] && gs[..i + 1][i] == gs[i];
  }

  /**
   * The loop keeps the key constraint, adds exactly the results' keys to the
   * table's keys, and never deletes or moves a row.
   */
  lemma {:induction false} UpsertAllKeys(rows: seq<YearlyStats>, gs: seq<GroupRow>)
    requires UniqueBy(rows, StatsKeyOf)
    ensures var r := UpsertAll(rows, gs);
      && UniqueBy(r, StatsKeyOf)
      && StatsKeys(r) == StatsKeys(rows) + KeySet(gs, RowKey)
      && |rows| <= |r| && (forall j :: 0 <= j < |rows| ==> StatsKeyOf(r[j]) == StatsKeyOf(rows[j]))
    decreases |gs|
  {
    if gs != [] {
      var p, g := gs[..|gs| - 1], gs[|gs| - 1];
      assert gs == p + [g];
      UpsertAllKeys(rows, p);
      var t := UpsertAll(rows, p);
      var r := UpsertAll(rows, gs);
      assert r == Upsert(t, g);
      UpsertKeys(t, g);
      KeySetAppend(p, g, RowKey);
      forall j | 0 <= j < |rows| ensures StatsKeyOf(r[j]) == StatsKeyOf(rows[j]) {
        assert StatsKeyOf(r[j]) == StatsKeyOf(t[j]);
      }
    }
  }

  /**
   * After the loop, for results with distinct keys, every result's key holds
   * that result's row and every other key holds what it held before.
   */
  lemma {:induction false} UpsertAllLookups(rows: seq<YearlyStats>, gs: seq<GroupRow>)
    requires UniqueBy(rows, StatsKeyOf) && UniqueBy(gs, RowKey)
    ensures var r := UpsertAll(rows, gs);
      && (forall g :: g in gs ==> Lookup(r, g.key) == Some(NewStatsRow(g)))
      && (forall k :: k !in KeySet(gs, RowKey) ==> Lookup(r, k) == Lookup(rows, k))
    decreases |gs|
  {
    if gs != [] {
      var p, g := gs[..|gs| - 1], gs[|gs| - 1];
      assert gs == p + [g];
      UniqueInit(p, g, RowKey);
      UpsertAllLookups(rows, p);
      UpsertAllKeys(rows, p);
      var t := UpsertAll(rows, p);
      var r := UpsertAll(rows, gs);
      assert r == Upsert(t, g);
      UpsertLookups(t, g);
      KeySetAppend(p, g, RowKey);
      forall h | h in gs ensures Lookup(r, h.key) == Some(NewStatsRow(h)) {
        if h != g {
          assert h in p;
          assert h.key in KeySet(p, RowKey);
        }
      }
      forall k | k !in KeySet(gs, RowKey) ensures Lookup(r, k) == Lookup(rows, k) {
        assert k != g.key && k !in KeySet(p, RowKey);
      }
    }
  }

  /** Running the loop again over the same results changes nothing. */
  lemma UpsertAllTwice(rows: seq<YearlyStats>, gs: seq<GroupRow>)
    requires UniqueBy(rows, StatsKeyOf) && UniqueBy(gs, RowKey)
    ensures UpsertAll(UpsertAll(rows, gs), gs) == UpsertAll(rows, gs)
  {
    var t := UpsertAll(rows, gs);
    UpsertAllKeys(rows, gs);
    UpsertAllLookups(rows, gs);
    UpsertAllOverSelf(t, gs, |gs|);
    assert gs[..|gs|] == gs;
  }

  /** Upserting a result the table already holds under its key leaves the table as it is. */
  lemma UpsertOverSelf(t: seq<YearlyStats>, g: GroupRow)
    requires Lookup(t, g.key) == Some(NewStatsRow(g))
    ensures Upsert(t, g) == t
  {
    var i := FindStats(t, g.key).value;
    assert t[i] == NewStatsRow(g);
    assert t[i := WithAggregates(t[i], g)] == t;
  }

  lemma {:induction false} UpsertAllOverSelf(t: seq<YearlyStats>, gs: seq<GroupRow>, n: nat)
    requires n <= |gs|
    requires forall g :: g in gs ==> Lookup(t, g.key) == Some(NewStatsRow(g))
    ensures UpsertAll(t, gs[..n]) == t
    decreases n
  {
    if n > 0 {
      var g := gs[n - 1];
      assert gs[..n][..n - 1] == gs[..n - 1] && gs[..n][n - 1] == g;
      UpsertAllOverSelf(t, gs, n - 1);
      assert g in gs;
      UpsertOverSelf(t, g);
    }
  }

  /**
   * The whole job on a table of observations: every (station, year) group of
   * the observations ends up with exactly one row holding its aggregates, every
   * other key keeps its row (or its absence), rows are never deleted, and
   * running the job a second time leaves the table identical.
   */
  lemma YearlyStatsJob(obs: seq<Observation>, rows: seq<YearlyStats>)
    requires UniqueBy(rows, StatsKeyOf)
    ensures var r := UpsertAll(rows, YearlyAggregates(obs));
      && UniqueBy(r, StatsKeyOf)
      && StatsKeys(r) == StatsKeys(rows) + KeySet(obs, GroupKeyOf)
      && (forall o :: o in obs ==> Lookup(r, GroupKeyOf(o)) == Some(NewStatsRow(Aggregate(obs, GroupKeyOf(o)))))
      && (forall k :: k !in KeySet(obs, GroupKeyOf) ==> Lookup(r, k) == Lookup(rows, k))
      && UpsertAll(r, YearlyAggregates(obs)) == r
  {
    var q := YearlyAggregates(obs);
    UpsertAllKeys(rows, q);
    UpsertAllLookups(rows, q);
    UpsertAllTwice(rows, q);
    forall o | o in obs
      ensures Lookup(UpsertAll(rows, q), GroupKeyOf(o)) == Some(NewStatsRow(Aggregate(obs, GroupKeyOf(o))))
    {
      assert GroupKeyOf(o) in KeySet(q, RowKey);
      var g :| g in q && RowKey(g) == GroupKeyOf(o);
      var i :| 0 <= i < |q| && q[i] == g;
    }
  }

  /** The `weather_yearly_stats` table as the session sees it. */
  class StatsStore {
    var rows: seq<YearlyStats>

    ghost predicate Valid()
      reads this
    {
      UniqueBy(rows, StatsKeyOf)
    }

    /** An empty `yearly_weather_stats` table. */
    constructor()
      ensures rows == [] && Valid()
    {
      rows := [];
    }

    /** The three assignments to the fields of `existing`. */
    method Overwrite(i: nat, g: GroupRow)
      requires Valid() && i < |rows|
      modifies this
      ensures Valid()
      ensures rows == old(rows)[i := WithAggregates(old(rows)[i], g)]
    {
      OverwriteKeepsKeys(rows, i, g);
      rows := rows[i := WithAggregates(rows[i], g)];
    }

    /** `session.add(stats)` for a key the lookup did not find. */
    method Add(s: YearlyStats)
      requires Valid() && StatsKeyOf(s) !in StatsKeys(rows)
      modifies this
      ensures Valid()
      ensures rows == old(rows) + [s]
    {
      AppendKeepsUnique(rows, s, StatsKeyOf);
      rows := rows + [s];
    }
  }

  /**
   * `compute_yearly_stats`: run the grouped query, then for each result look
   * the key up and overwrite or add; `upserts` counts the results.
   */
  method ComputeYearlyStats(observations: Ingest.ObservationStore, stats: StatsStore) returns (upserts: nat)
    requires stats.Valid()
    modifies stats
    ensures stats.Valid()
    ensures stats.rows == UpsertAll(old(stats.rows), YearlyAggregates(observations.rows))
    ensures upserts == |KeySet(observations.rows, GroupKeyOf)|
  {
    var results := YearlyAggregates(observations.rows);
    assert |results| == |KeySet(observations.rows, GroupKeyOf)|;
    upserts := 0;
    for i := 0 to |results|
      invariant upserts == i
      invariant stats.Valid()
      invariant stats.rows == UpsertAll(old(stats.rows), results[..i])
    {
      var r := results[i];
      ghost var before := stats.rows;
      UpsertAllStep(old(stats.rows), results, i);
      var existing := FindStats(stats.rows, r.key);
      if existing.Some? {
        stats.Overwrite(existing.value, r);
      } else {
        stats.Add(NewStatsRow(r));
      }
      assert stats.rows == Upsert(before, r);
      upserts := upserts + 1;
    }
    assert results[..|results|] == results;
  }
}
