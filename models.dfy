/**
 * The two record shapes of the relational store and their uniqueness
 * constraints (src/models.py). Non-nullable columns are plain fields;
 * nullable columns are `Option`s. A table is the sequence of its rows in
 * insertion (autoincrement id) order; the surrogate `id` itself is not kept.
 */
module Models {
  import opened Wrappers

  /** A calendar date, as stored in a `Date` column. */
  datatype Date = Date(year: int, month: int, day: int)

  predicate IsLeapYear(y: int) {
    y % 4 == 0 && (y % 100 != 0 || y % 400 == 0)
  }

  function DaysInMonth(y: int, m: int): (n: int)
    requires 1 <= m <= 12
    ensures 28 <= n <= 31
    ensures n == 29 <==> m == 2 && IsLeapYear(y)
  {
    if m == 2 then (if IsLeapYear(y) then 29 else 28)
    else if m == 4 || m == 6 || m == 9 || m == 11 then 30
    else 31
  }

  /** The dates Python's `datetime.date` can represent (years 1 to 9999). */
  predicate ValidDate(d: Date) {
    1 <= d.year <= 9999 && 1 <= d.month <= 12 && 1 <= d.day <= DaysInMonth(d.year, d.month)
  }

  /** A row of `weather_observations`: raw readings in tenths, NULL when missing. */
  datatype Observation = Observation(
    stationId: string,
    date: Date,
    maxTempTenthC: Option<int>,
    minTempTenthC: Option<int>,
    precipTenthMm: Option<int>)

  /** The columns of constraint `uq_station_date`. */
  datatype ObsKey = ObsKey(stationId: string, date: Date)

  function ObsKeyOf(o: Observation): ObsKey {
    ObsKey(o.stationId, o.date)
  }

  /** A row of `weather_yearly_stats`: converted aggregates, NULL when absent. */
  datatype YearlyStats = YearlyStats(
    stationId: string,
    year: int,
    avgMaxTempC: Option<real>,
    avgMinTempC: Option<real>,
    totalPrecipCm: Option<real>)

  /** The columns of constraint `uq_station_year`. */
  datatype StatsKey = StatsKey(stationId: string, year: int)

  function StatsKeyOf(s: YearlyStats): StatsKey {
    StatsKey(s.stationId, s.year)
  }

  /** A UNIQUE constraint on a table: no two rows share a key. */
  ghost predicate UniqueBy<T, K>(rows: seq<T>, key: T -> K) {
    forall i, j :: 0 <= i < j < |rows| ==> key(rows[i]) != key(rows[j])
  }

  /** The keys present in a table. */
  function KeySet<T(==), K>(rows: seq<T>, key: T -> K): set<K> {
    set r | r in rows :: key(r)
  }

  lemma KeySetAppend<T, K>(rows: seq<T>, x: T, key: T -> K)
    ensures KeySet(rows + [x], key) == KeySet(rows, key) + {key(x)}
  {
    var l, r := KeySet(rows + [x], key), KeySet(rows, key) + {key(x)};
    forall k | k in r ensures k in l {
      if k != key(x) {
        var y :| y in rows && key(y) == k;
        assert y in rows + [x];
      } else {
        assert x in rows + [x];
      }
    }
  }

  /** Adding a row whose key is absent keeps the constraint (what the store checks on insert). */
  lemma {:induction false} AppendKeepsUnique<T, K>(rows: seq<T>, x: T, key: T -> K)
    requires UniqueBy(rows, key)
    ensures UniqueBy(rows + [x], key) <==> key(x) !in KeySet(rows, key)
  {
    var s := rows + [x];
    if key(x) in KeySet(rows, key) {
      var y :| y in rows && key(y) == key(x);
      var i :| 0 <= i < |rows| && rows[i] == y;
      assert s[i] == y && s[|rows|] == x;
    } else {
      forall i, j | 0 <= i < j < |s| ensures key(s[i]) != key(s[j]) {
        if j == |rows| {
          assert s[i] == rows[i] && rows[i] in rows;
        } else {
          assert s[i] == rows[i] && s[j] == rows[j];
        }
      }
    }
  }

  /** Dropping the last row keeps the rest unique, and the dropped key was not among them. */
  lemma UniqueInit<T, K>(rows: seq<T>, x: T, key: T -> K)
    requires UniqueBy(rows + [x], key)
    ensures UniqueBy(rows, key) && key(x) !in KeySet(rows, key)
  {
    var s := rows + [x];
    forall i, j | 0 <= i < j < |rows| ensures key(rows[i]) != key(rows[j]) {
      assert s[i] == rows[i] && s[j] == rows[j];
    }
    AppendKeepsUnique(rows, x, key);
  }

  /** A table that starts with all of `rows` has all of their keys. */
  lemma PrefixKeys<T, K>(rows: seq<T>, longer: seq<T>, key: T -> K)
    requires rows <= longer
    ensures KeySet(rows, key) <= KeySet(longer, key)
  {
    forall k | k in KeySet(rows, key) ensures k in KeySet(longer, key) {
      var y :| y in rows && key(y) == k;
      var i :| 0 <= i < |rows| && rows[i] == y;
      assert longer[i] == y;
    }
  }

  /** The constraint holds exactly when the table has as many distinct keys as rows. */
  lemma {:induction false} UniqueIffKeyCount<T, K>(rows: seq<T>, key: T -> K)
    ensures |KeySet(rows, key)| <= |rows|
    ensures UniqueBy(rows, key) <==> |KeySet(rows, key)| == |rows|
    decreases |rows|
  {
    if rows == [] {
      assert KeySet(rows, key) == {};
    } else {
      var p, x := rows[..|rows| - 1], rows[|rows| - 1];
      assert rows == p + [x];
      UniqueIffKeyCount(p, key);
      KeySetAppend(p, x, key);
      if UniqueBy(p, key) {
        AppendKeepsUnique(p, x, key);
      } else {
        var i, j :| 0 <= i < j < |p| && key(p[i]) == key(p[j]);
        assert rows[i] == p[i] && rows[j] == p[j];
      }
    }
  }
}
