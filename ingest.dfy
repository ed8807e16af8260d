/**
 * The ingestion job (src/ingest_weather.py): every line of every station
 * file is trimmed, split into four tokens, turned into an observation and
 * inserted, a (station, date) collision being rolled back and ignored.
 */
module Ingest {
  import opened Wrappers
  import opened Models
  import opened PyText

  /** The file format's marker for a missing reading. */
  const Missing: int := -9999

  /** The ValueError raised by `strptime` or `int()`, with the token it was raised for. */
  datatype ParseError = InvalidDate(token: string) | InvalidInteger(token: string)

  /** A station file matched by the directory glob: its base name and its lines. */
  datatype StationFile = StationFile(name: string, lines: seq<string>)

  /** The integer a file holds for a reading: the reading itself, or the sentinel when missing. */
  function Encode(v: Option<int>): int {
    match v
    case None => Missing
    case Some(x) => x
  }

  /** No present reading holds the sentinel value. */
  predicate NoSentinel(o: Observation) {
    o.maxTempTenthC != Some(Missing) && o.minTempTenthC != Some(Missing) && o.precipTenthMm != Some(Missing)
  }

  /** What every row the job stores satisfies. */
  predicate WellFormed(o: Observation) {
    ValidDate(o.date) && NoSentinel(o)
  }

  /** `parse_int`: `int(token)`, with the sentinel read as missing. */
  function ParseInt(token: string): (r: Result<Option<int>, ParseError>)
    ensures r.Failure? <==> PyInt(token).None?
    ensures r.Failure? ==> r.error == InvalidInteger(token)
    ensures r.Success? ==> Encode(r.value) == PyInt(token).value && r.value != Some(Missing)
  {
    match PyInt(token)
    case None => Failure(InvalidInteger(token))
    case Some(iv) => Success(if iv == Missing then None else Some(iv))
  }

  /** A valid date as the file writes it: `YYYYMMDD`, zero-padded. */
  function FormatDate(d: Date): (s: string)
    requires ValidDate(d)
    ensures |s| == 8 && AllDigits(s)
  {
    assert Pow10(2) == 100 && Pow10(4) == 10000;
    FormatFixed(d.year, 4) + FormatFixed(d.month, 2) + FormatFixed(d.day, 2)
  }

  /**
   * `parse_date`: `strptime(token, "%Y%m%d")`, restricted to tokens of exactly
   * eight ASCII digits; the result must be a real calendar date.
   */
  function ParseDate(token: string): (r: Result<Date, ParseError>)
    ensures r.Success? ==> ValidDate(r.value) && FormatDate(r.value) == token
    ensures r.Failure? ==> r.error == InvalidDate(token)
  {
    if |token| == 8 && AllDigits(token) then
      var y, m, d := token[..4], token[4..6], token[6..];
      var date := Date(DecimalValue(y), DecimalValue(m), DecimalValue(d));
      if ValidDate(date) then
        DateTokenDigits(token);
        Success(date)
      else Failure(InvalidDate(token))
    else Failure(InvalidDate(token))
  }

  /** An eight-digit token is its year, month and day digits, each written back at its own width. */
  lemma DateTokenDigits(token: string)
    requires |token| == 8 && AllDigits(token)
    ensures var y, m, d := token[..4], token[4..6], token[6..];
      && AllDigits(y) && AllDigits(m) && AllDigits(d)
      && DecimalValue(y) < Pow10(4) && DecimalValue(m) < Pow10(2) && DecimalValue(d) < Pow10(2)
      && FormatFixed(DecimalValue(y), 4) + FormatFixed(DecimalValue(m), 2) + FormatFixed(DecimalValue(d), 2) == token
  {
    var y, m, d := token[..4], token[4..6], token[6..];
    FormatFixedOfValue(y);
    FormatFixedOfValue(m);
    FormatFixedOfValue(d);
    assert token == y + m + d;
  }

  /** Every valid date is read back from the token it is written as. */
  lemma ParseDateRoundTrip(d: Date)
    requires ValidDate(d)
    ensures ParseDate(FormatDate(d)) == Success(d)
  {
    assert Pow10(2) == 100 && Pow10(4) == 10000;
    var y, m, dd := FormatFixed(d.year, 4), FormatFixed(d.month, 2), FormatFixed(d.day, 2);
    var s := FormatDate(d);
    assert s == y + m + dd;
    assert s[..4] == y && s[4..6] == m && s[6..] == dd;
  }

  /** A reading written as the file writes it (the sentinel when missing) is read back unchanged. */
  lemma ParseIntRoundTrip(v: int)
    ensures ParseInt(FormatInt(v)) == Success(if v == Missing then None else Some(v))
  {
    PyIntOfFormatInt(v);
  }

  /** `Path.stem`: the file name without its last suffix (pathlib's rule for where a suffix starts). */
  function Stem(name: string): string {
    match LastDot(name)
    case Some(i) => if 0 < i < |name| - 1 then name[..i] else name
    case None => name
  }

  /** The position of the last '.' in `s`. */
  function LastDot(s: string): (r: Option<nat>)
    ensures r.Some? ==> r.value < |s| && s[r.value] == '.' && forall j :: r.value < j < |s| ==> s[j] != '.'
    ensures r.None? ==> forall j :: 0 <= j < |s| ==> s[j] != '.'
    decreases |s|
  {
    if s == [] then None
    else if s[|s| - 1] == '.' then Some(|s| - 1)
    else LastDot(s[..|s| - 1])
  }

  /** The station id of `<id>.txt` is `<id>`. */
  lemma StemOfTxt(stationId: string)
    requires stationId != []
    ensures Stem(stationId + ".txt") == stationId
  {
    var name := stationId + ".txt";
    var r := LastDot(name);
    assert name[|stationId|] == '.';
    assert r.Some? && r.value == |stationId| by {
      if r.None? {
        assert false;
      } else if r.value < |stationId| {
        assert false;
      }
    }
    assert name[..|stationId|] == stationId;
  }

  /** Builds the observation from the four tokens, parsing them in field order; the first failure is raised. */
  function BuildObservation(stationId: string, parts: seq<string>): (r: Result<Observation, ParseError>)
    requires |parts| == 4
    ensures r.Success? <==>
      ParseDate(parts[0]).Success? && PyInt(parts[1]).Some? && PyInt(parts[2]).Some? && PyInt(parts[3]).Some?
    ensures r.Success? ==>
      && r.value.stationId == stationId && WellFormed(r.value)
      && FormatDate(r.value.date) == parts[0]
      && PyInt(parts[1]) == Some(Encode(r.value.maxTempTenthC))
      && PyInt(parts[2]) == Some(Encode(r.value.minTempTenthC))
      && PyInt(parts[3]) == Some(Encode(r.value.precipTenthMm))
    ensures r.Failure? ==>
      if ParseDate(parts[0]).Failure? then r.error == InvalidDate(parts[0])
      else if PyInt(parts[1]).None? then r.error == InvalidInteger(parts[1])
      else if PyInt(parts[2]).None? then r.error == InvalidInteger(parts[2])
      else r.error == InvalidInteger(parts[3])
  {
    var date :- ParseDate(parts[0]);
    var maxT :- ParseInt(parts[1]);
    var minT :- ParseInt(parts[2]);
    var precip :- ParseInt(parts[3]);
    Success(Observation(stationId, date, maxT, minT, precip))
  }

  /** What one line of a station file leads to. */
  datatype LineOutcome = Blank | Malformed | Parsed(obs: Observation) | Fatal(error: ParseError)

  /** The body of the per-line loop up to the insert: skip blank and malformed lines, parse the rest. */
  function ClassifyLine(stationId: string, line: string): (r: LineOutcome)
    ensures r.Blank? <==> AllSpace(line)
    ensures r.Malformed? <==> !AllSpace(line) && |Split(Strip(line))| != 4
    ensures r.Parsed? ==> r.obs.stationId == stationId && WellFormed(r.obs)
    ensures r.Fatal? ==> |Split(Strip(line))| == 4
  {
    var stripped := Strip(line);
    if stripped == [] then Blank
    else
      var parts := Split(stripped);
      if |parts| != 4 then Malformed
      else
        match BuildObservation(stationId, parts)
        case Success(obs) => Parsed(obs)
        case Failure(e) => Fatal(e)
  }

  /**
   * A line that is not blank and splits into four tokens is parsed exactly when
   * building an observation from those tokens succeeds: the row is the one
   * built, and the error is the one building raises.
   */
  lemma ClassifyLineBuilds(stationId: string, line: string)
    ensures var r, t := ClassifyLine(stationId, line), Split(Strip(line));
      && (!AllSpace(line) && |t| == 4 ==> (r.Parsed? <==> BuildObservation(stationId, t).Success?))
      && (r.Parsed? ==> BuildObservation(stationId, t) == Success(r.obs))
      && (r.Fatal? ==> BuildObservation(stationId, t) == Failure(r.error))
  {
  }

  /** An observation written as a line of its station's file. */
  function FormatLine(o: Observation): string
    requires ValidDate(o.date)
  {
    JoinWithSpaces(FormatTokens(o))
  }

  /** The four tokens an observation is written as. */
  function FormatTokens(o: Observation): seq<string>
    requires ValidDate(o.date)
  {
    [FormatDate(o.date), FormatInt(Encode(o.maxTempTenthC)),
     FormatInt(Encode(o.minTempTenthC)), FormatInt(Encode(o.precipTenthMm))]
  }

  lemma BuildFromTokens(o: Observation)
    requires WellFormed(o)
    ensures BuildObservation(o.stationId, FormatTokens(o)) == Success(o)
  {
    ParseDateRoundTrip(o.date);
    ParseIntRoundTrip(Encode(o.maxTempTenthC));
    ParseIntRoundTrip(Encode(o.minTempTenthC));
    ParseIntRoundTrip(Encode(o.precipTenthMm));
  }

  lemma SplitFormattedLine(o: Observation)
    requires ValidDate(o.date)
    ensures Strip(FormatLine(o)) == FormatLine(o)
    ensures Split(FormatLine(o)) == FormatTokens(o)
  {
    var t := FormatTokens(o);
    forall i | 0 <= i < 4 ensures t[i] != [] && NoSpace(t[i]) {
      if i == 0 {
        DigitsAreGroups(t[0]);
      } else {
        PyIntOfFormatInt(Encode(if i == 1 then o.maxTempTenthC else if i == 2 then o.minTempTenthC else o.precipTenthMm));
      }
    }
    StripJoin(t);
    SplitJoin(t);
  }

  /** Reading the line an observation is written as gives that observation back. */
  lemma ClassifyFormattedLine(o: Observation)
    requires WellFormed(o)
    ensures ClassifyLine(o.stationId, FormatLine(o)) == Parsed(o)
  {
    SplitFormattedLine(o);
    BuildFromTokens(o);
  }

  /** The state of an ingestion run: the table, `total_inserted`, and the error that aborted it, if any. */
  datatype Run = Run(rows: seq<Observation>, inserted: nat, failure: Option<ParseError>)

  function ObsKeys(rows: seq<Observation>): set<ObsKey> {
    KeySet(rows, ObsKeyOf)
  }

  /** What each line of a station file leads to, in file order. */
  function Outcomes(stationId: string, lines: seq<string>): seq<LineOutcome> {
    seq(|lines|, i requires 0 <= i < |lines| => ClassifyLine(stationId, lines[i]))
  }

  /** Every observation among `outcomes` is a well-formed observation of station `stationId`. */
  predicate FromStation(outcomes: seq<LineOutcome>, stationId: string) {
    forall i :: 0 <= i < |outcomes| && outcomes[i].Parsed? ==>
      outcomes[i].obs.stationId == stationId && WellFormed(outcomes[i].obs)
  }

  /**
   * The inner loop's effect on the table and on `total_inserted`, from table
   * `rows` and counter `inserted`: blank and malformed lines change nothing, a
   * parsed row whose key is stored is dropped (the rolled-back commit), any
   * other parsed row is appended and counted, and a parse error stops the run.
   */
  function IngestOutcomes(rows: seq<Observation>, inserted: nat, outcomes: seq<LineOutcome>): (r: Run)
    ensures r.inserted >= inserted && |r.rows| == |rows| + (r.inserted - inserted)
    ensures rows <= r.rows
    ensures UniqueBy(rows, ObsKeyOf) ==> UniqueBy(r.rows, ObsKeyOf)
    decreases |outcomes|
  {
    if outcomes == [] then Run(rows, inserted, None)
    else
      match outcomes[0]
      case Blank => IngestOutcomes(rows, inserted, outcomes[1..])
      case Malformed => IngestOutcomes(rows, inserted, outcomes[1..])
      case Fatal(e) => Run(rows, inserted, Some(e))
      case Parsed(obs) =>
        if ObsKeyOf(obs) in ObsKeys(rows) then IngestOutcomes(rows, inserted, outcomes[1..])
        else
          var r := IngestOutcomes(rows + [obs], inserted + 1, outcomes[1..]);
          assert rows <= rows + [obs];
          assert UniqueBy(rows, ObsKeyOf) ==> UniqueBy(rows + [obs], ObsKeyOf) by {
            if UniqueBy(rows, ObsKeyOf) { AppendKeepsUnique(rows, obs, ObsKeyOf); }
          }
          r
  }

  /** The outer loop over already-classified files, stopping at the first error. */
  function IngestFileOutcomes(rows: seq<Observation>, inserted: nat, perFile: seq<seq<LineOutcome>>): (r: Run)
    ensures r.inserted >= inserted && |r.rows| == |rows| + (r.inserted - inserted)
    ensures rows <= r.rows
    ensures UniqueBy(rows, ObsKeyOf) ==> UniqueBy(r.rows, ObsKeyOf)
    decreases |perFile|
  {
    if perFile == [] then Run(rows, inserted, None)
    else
      var r := IngestOutcomes(rows, inserted, perFile[0]);
      if r.failure.Some? then r
      else
        IngestFileOutcomes(r.rows, r.inserted, perFile[1..])
  }

  /** The outcomes of every line of every file, the station being each file's stem. */
  function FileOutcomes(files: seq<StationFile>): seq<seq<LineOutcome>> {
    seq(|files|, i requires 0 <= i < |files| => Outcomes(Stem(files[i].name), files[i].lines))
  }

  /** The whole run: the files in glob order, their lines in file order, stopping at the first error. */
  function IngestFiles(rows: seq<Observation>, inserted: nat, files: seq<StationFile>): Run {
    IngestFileOutcomes(rows, inserted, FileOutcomes(files))
  }

  /** The rows a run appended to `rows`. */
  function Added(rows: seq<Observation>, r: Run): seq<Observation>
    requires rows <= r.rows
  {
    r.rows[|rows|..]
  }

  /** A station file's lines only ever yield well-formed observations of that station. */
  lemma OutcomesFromStation(stationId: string, lines: seq<string>)
    ensures FromStation(Outcomes(stationId, lines), stationId)
  {
    var os := Outcomes(stationId, lines);
    forall i | 0 <= i < |os| && os[i].Parsed?
      ensures os[i].obs.stationId == stationId && WellFormed(os[i].obs)
    {
      assert os[i] == ClassifyLine(stationId, lines[i]);
    }
  }

  /** Every row the inner loop adds is one of the outcomes' observations. */
  lemma {:induction false} IngestOutcomesAddsFrom(rows: seq<Observation>, inserted: nat, outcomes: seq<LineOutcome>)
    ensures forall o :: o in Added(rows, IngestOutcomes(rows, inserted, outcomes)) ==> Parsed(o) in outcomes
    decreases |outcomes|
  {
    if outcomes != [] {
      var r := IngestOutcomes(rows, inserted, outcomes);
      var rest := outcomes[1..];
      assert forall x :: x in rest ==> x in outcomes;
      match outcomes[0]
      case Blank =>
        IngestOutcomesAddsFrom(rows, inserted, rest);
      case Malformed =>
        IngestOutcomesAddsFrom(rows, inserted, rest);
      case Fatal(_) =>
        assert Added(rows, r) == [];
      case Parsed(obs) =>
        if ObsKeyOf(obs) in ObsKeys(rows) {
          IngestOutcomesAddsFrom(rows, inserted, rest);
        } else {
          var longer := rows + [obs];
          IngestOutcomesAddsFrom(longer, inserted + 1, rest);
          assert Added(rows, r) == [obs] + Added(longer, r);
        }
    }
  }

  lemma FromStationHas(outcomes: seq<LineOutcome>, stationId: string, o: Observation)
    requires FromStation(outcomes, stationId) && Parsed(o) in outcomes
    ensures o.stationId == stationId && WellFormed(o)
  {
    var i :| 0 <= i < |outcomes| && outcomes[i] == Parsed(o);
  }

  lemma {:induction false} IngestFileOutcomesAddsFrom(rows: seq<Observation>, inserted: nat,
                                                      perFile: seq<seq<LineOutcome>>, stations: seq<string>)
    requires |stations| == |perFile|
    requires forall k :: 0 <= k < |perFile| ==> FromStation(perFile[k], stations[k])
    ensures forall o :: o in Added(rows, IngestFileOutcomes(rows, inserted, perFile)) ==>
      WellFormed(o) && o.stationId in stations
    decreases |perFile|
  {
    if perFile != [] {
      var first := IngestOutcomes(rows, inserted, perFile[0]);
      IngestOutcomesAddsFrom(rows, inserted, perFile[0]);
      forall o | o in Added(rows, first) ensures WellFormed(o) && o.stationId == stations[0] {
        FromStationHas(perFile[0], stations[0], o);
      }
      if first.failure.None? {
        var r := IngestFileOutcomes(rows, inserted, perFile);
        assert forall k :: 0 <= k < |perFile| - 1 ==> perFile[1..][k] == perFile[k + 1] && stations[1..][k] == stations[k + 1];
        IngestFileOutcomesAddsFrom(first.rows, first.inserted, perFile[1..], stations[1..]);
        assert Added(rows, r) == Added(rows, first) + Added(first.rows, r);
        assert forall s :: s in stations[1..] ==> s in stations;
      }
    }
  }

  /** Every row a run adds is a well-formed observation of the station named by one of the files. */
  lemma IngestFilesAddsWellFormed(rows: seq<Observation>, inserted: nat, files: seq<StationFile>)
    ensures forall o :: o in Added(rows, IngestFiles(rows, inserted, files)) ==>
      WellFormed(o) && exists f :: f in files && o.stationId == Stem(f.name)
  {
    var perFile := FileOutcomes(files);
    var stations := seq(|files|, i requires 0 <= i < |files| => Stem(files[i].name));
    forall k | 0 <= k < |perFile| ensures FromStation(perFile[k], stations[k]) {
      OutcomesFromStation(stations[k], files[k].lines);
    }
    IngestFileOutcomesAddsFrom(rows, inserted, perFile, stations);
    forall o | o in Added(rows, IngestFiles(rows, inserted, files))
      ensures exists f :: f in files && o.stationId == Stem(f.name)
    {
      var k :| 0 <= k < |stations| && stations[k] == o.stationId;
      assert files[k] in files;
    }
  }

  /** Position of the first line whose tokens do not parse, or the number of lines when every line parses. */
  function FirstFatal(outcomes: seq<LineOutcome>): (n: nat)
    ensures n <= |outcomes|
    ensures forall i :: 0 <= i < n ==> !outcomes[i].Fatal?
    ensures n < |outcomes| ==> outcomes[n].Fatal?
    decreases |outcomes|
  {
    if outcomes == [] || outcomes[0].Fatal? then 0
    else
      var n := 1 + FirstFatal(outcomes[1..]);
      assert forall i :: 1 <= i < |outcomes| ==> outcomes[i] == outcomes[1..][i - 1];
      n
  }

  /** The keys of the observations parsed from `outcomes`, whatever their order and repetitions. */
  function ParsedKeys(outcomes: seq<LineOutcome>): set<ObsKey> {
    set i | 0 <= i < |outcomes| && outcomes[i].Parsed? :: ObsKeyOf(outcomes[i].obs)
  }

  lemma ParsedKeysCons(o: LineOutcome, outcomes: seq<LineOutcome>)
    ensures ParsedKeys([o] + outcomes) == (if o.Parsed? then {ObsKeyOf(o.obs)} else {}) + ParsedKeys(outcomes)
  {
    var all := [o] + outcomes;
    var l, r := ParsedKeys(all), (if o.Parsed? then {ObsKeyOf(o.obs)} else {}) + ParsedKeys(outcomes);
    forall k | k in l ensures k in r {
      var i :| 0 <= i < |all| && all[i].Parsed? && ObsKeyOf(all[i].obs) == k;
      if i > 0 { assert all[i] == outcomes[i - 1]; }
    }
    forall k | k in r ensures k in l {
      if k !in ParsedKeys(outcomes) {
        assert all[0] == o;
      } else {
        var i :| 0 <= i < |outcomes| && outcomes[i].Parsed? && ObsKeyOf(outcomes[i].obs) == k;
        assert all[i + 1] == outcomes[i];
      }
    }
  }

  /**
   * The inner loop stops at the first line whose tokens do not parse, reporting
   * that line's error, and runs to the end without error otherwise.
   */
  lemma {:induction false} IngestOutcomesStops(rows: seq<Observation>, inserted: nat, outcomes: seq<LineOutcome>)
    ensures var r, n := IngestOutcomes(rows, inserted, outcomes), FirstFatal(outcomes);
      && (r.failure.None? <==> n == |outcomes|)
      && (n < |outcomes| ==> r.failure == Some(outcomes[n].error))
    decreases |outcomes|
  {
    if outcomes != [] && !outcomes[0].Fatal? {
      match outcomes[0] {
        case Blank =>
          IngestOutcomesStops(rows, inserted, outcomes[1..]);
        case Malformed =>
          IngestOutcomesStops(rows, inserted, outcomes[1..]);
        case Parsed(obs) =>
          if ObsKeyOf(obs) in ObsKeys(rows) {
            IngestOutcomesStops(rows, inserted, outcomes[1..]);
          } else {
            IngestOutcomesStops(rows + [obs], inserted + 1, outcomes[1..]);
          }
      }
    }
  }

  /**
   * After the inner loop the table holds exactly its earlier keys together with
   * the key of every line parsed before the first line that does not parse: a
   * parsed row whose key was already stored is dropped, and every other one is
   * added.
   */
  lemma {:induction false} IngestOutcomesKeys(rows: seq<Observation>, inserted: nat, outcomes: seq<LineOutcome>)
    ensures ObsKeys(IngestOutcomes(rows, inserted, outcomes).rows)
         == ObsKeys(rows) + ParsedKeys(outcomes[..FirstFatal(outcomes)])
    decreases |outcomes|
  {
    if outcomes == [] || outcomes[0].Fatal? {
      assert outcomes[..0] == [];
    } else {
      var o, rest := outcomes[0], outcomes[1..];
      var n := FirstFatal(outcomes);
      assert outcomes[..n] == [o] + rest[..n - 1];
      ParsedKeysCons(o, rest[..n - 1]);
      match o {
        case Blank =>
          IngestOutcomesKeys(rows, inserted, rest);
        case Malformed =>
          IngestOutcomesKeys(rows, inserted, rest);
        case Parsed(obs) =>
          if ObsKeyOf(obs) in ObsKeys(rows) {
            IngestOutcomesKeys(rows, inserted, rest);
          } else {
            KeySetAppend(rows, obs, ObsKeyOf);
            IngestOutcomesKeys(rows + [obs], inserted + 1, rest);
          }
      }
    }
  }

  /** The lines of all files, one file after another. */
  function Concat(perFile: seq<seq<LineOutcome>>): seq<LineOutcome>
    decreases |perFile|
  {
    if perFile == [] then [] else perFile[0] + Concat(perFile[1..])
  }

  /** Running the inner loop over two stretches of lines is running it over the first, then, unless it failed, over the second. */
  lemma {:induction false} IngestOutcomesAppend(rows: seq<Observation>, inserted: nat, a: seq<LineOutcome>, b: seq<LineOutcome>)
    ensures var r := IngestOutcomes(rows, inserted, a);
      IngestOutcomes(rows, inserted, a + b) == if r.failure.Some? then r else IngestOutcomes(r.rows, r.inserted, b)
    decreases |a|
  {
    if a == [] {
      assert a + b == b;
    } else {
      assert (a + b)[0] == a[0] && (a + b)[1..] == a[1..] + b;
      match a[0] {
        case Blank =>
          IngestOutcomesAppend(rows, inserted, a[1..], b);
        case Malformed =>
          IngestOutcomesAppend(rows, inserted, a[1..], b);
        case Fatal(_) =>
        case Parsed(obs) =>
          if ObsKeyOf(obs) in ObsKeys(rows) {
            IngestOutcomesAppend(rows, inserted, a[1..], b);
          } else {
            IngestOutcomesAppend(rows + [obs], inserted + 1, a[1..], b);
          }
      }
    }
  }

  /** The outer loop over files is the inner loop over all their lines in turn. */
  lemma {:induction false} IngestFileOutcomesConcat(rows: seq<Observation>, inserted: nat, perFile: seq<seq<LineOutcome>>)
    ensures IngestFileOutcomes(rows, inserted, perFile) == IngestOutcomes(rows, inserted, Concat(perFile))
    decreases |perFile|
  {
    if perFile != [] {
      var r := IngestOutcomes(rows, inserted, perFile[0]);
      IngestOutcomesAppend(rows, inserted, perFile[0], Concat(perFile[1..]));
      if r.failure.None? {
        IngestFileOutcomesConcat(r.rows, r.inserted, perFile[1..]);
      }
    }
  }

  /**
   * The whole run, over the lines of all files in glob order: it stops at the
   * first line whose tokens do not parse, reporting its error, and otherwise
   * finishes without error. The table ends up holding its earlier keys together
   * with the key of every line parsed before that point.
   */
  lemma IngestFilesKeys(rows: seq<Observation>, inserted: nat, files: seq<StationFile>)
    ensures var r, lines := IngestFiles(rows, inserted, files), Concat(FileOutcomes(files));
      var n := FirstFatal(lines);
      && ObsKeys(r.rows) == ObsKeys(rows) + ParsedKeys(lines[..n])
      && (r.failure.None? <==> n == |lines|)
      && (n < |lines| ==> r.failure == Some(lines[n].error))
  {
    IngestFileOutcomesConcat(rows, inserted, FileOutcomes(files));
    IngestOutcomesStops(rows, inserted, Concat(FileOutcomes(files)));
    IngestOutcomesKeys(rows, inserted, Concat(FileOutcomes(files)));
  }

  /**
   * Once every key the outcomes would add is stored, the same outcomes change
   * nothing and count nothing, and stop at the same error.
   */
  lemma {:induction false} ReplayOutcomes(rows: seq<Observation>, inserted: nat, outcomes: seq<LineOutcome>,
                                          stored: seq<Observation>, count: nat)
    requires ObsKeys(IngestOutcomes(rows, inserted, outcomes).rows) <= ObsKeys(stored)
    ensures IngestOutcomes(stored, count, outcomes)
         == Run(stored, count, IngestOutcomes(rows, inserted, outcomes).failure)
    decreases |outcomes|
  {
    if outcomes != [] {
      match outcomes[0]
      case Blank =>
        ReplayOutcomes(rows, inserted, outcomes[1..], stored, count);
      case Malformed =>
        ReplayOutcomes(rows, inserted, outcomes[1..], stored, count);
      case Fatal(e) =>
      case Parsed(obs) =>
        var next := if ObsKeyOf(obs) in ObsKeys(rows) then rows else rows + [obs];
        var nextCount := if ObsKeyOf(obs) in ObsKeys(rows) then inserted else inserted + 1;
        assert ObsKeyOf(obs) in ObsKeys(next) by {
          if ObsKeyOf(obs) !in ObsKeys(rows) { KeySetAppend(rows, obs, ObsKeyOf); }
        }
        var r := IngestOutcomes(next, nextCount, outcomes[1..]);
        PrefixKeys(next, r.rows, ObsKeyOf);
        ReplayOutcomes(next, nextCount, outcomes[1..], stored, count);
    }
  }

  lemma {:induction false} ReplayFileOutcomes(rows: seq<Observation>, inserted: nat, perFile: seq<seq<LineOutcome>>,
                                              stored: seq<Observation>, count: nat)
    requires ObsKeys(IngestFileOutcomes(rows, inserted, perFile).rows) <= ObsKeys(stored)
    ensures IngestFileOutcomes(stored, count, perFile)
         == Run(stored, count, IngestFileOutcomes(rows, inserted, perFile).failure)
    decreases |perFile|
  {
    if perFile != [] {
      var r := IngestOutcomes(rows, inserted, perFile[0]);
      if r.failure.None? {
        PrefixKeys(r.rows, IngestFileOutcomes(r.rows, r.inserted, perFile[1..]).rows, ObsKeyOf);
        ReplayFileOutcomes(r.rows, r.inserted, perFile[1..], stored, count);
      }
      ReplayOutcomes(rows, inserted, perFile[0], stored, count);
    }
  }

  /**
   * Ingesting the same files a second time leaves the table identical and
   * inserts nothing (a run that aborted aborts again at the same line).
   */
  lemma IngestTwice(rows: seq<Observation>, files: seq<StationFile>)
    ensures var first := IngestFiles(rows, 0, files);
            IngestFiles(first.rows, 0, files) == Run(first.rows, 0, first.failure)
  {
    ReplayFileOutcomes(rows, 0, FileOutcomes(files), IngestFiles(rows, 0, files).rows, 0);
  }

  /** The `weather_observations` table as the session sees it. */
  class ObservationStore {
    var rows: seq<Observation>

    ghost predicate Valid()
      reads this
    {
      UniqueBy(rows, ObsKeyOf)
    }

    /** An empty `weather_observations` table. */
    constructor()
      ensures rows == [] && Valid()
    {
      rows := [];
    }

    /**
     * `session.add(obs)` then `commit()`; an IntegrityError on `uq_station_date`
     * is answered by `rollback()`, which leaves the table as it was.
     */
    method Insert(obs: Observation) returns (committed: bool)
      requires Valid()
      modifies this
      ensures Valid()
      ensures committed <==> ObsKeyOf(obs) !in ObsKeys(old(rows))
      ensures rows == if committed then old(rows) + [obs] else old(rows)
    {
      if ObsKeyOf(obs) in ObsKeys(rows) {
        committed := false;
      } else {
        AppendKeepsUnique(rows, obs, ObsKeyOf);
        rows := rows + [obs];
        committed := true;
      }
    }
  }

  /**
   * `ingest_weather_data`: the nested loops over files and lines. The outcome
   * is `total_inserted`, or the error that ended the run; rows committed before
   * that error stay in the table.
   */
  method IngestWeatherData(store: ObservationStore, files: seq<StationFile>) returns (outcome: Result<nat, ParseError>)
    requires store.Valid()
    modifies store
    ensures store.Valid()
    ensures var run := IngestFiles(old(store.rows), 0, files);
            && store.rows == run.rows
            && outcome == if run.failure.Some? then Failure(run.failure.value) else Success(run.inserted)
  {
    var totalInserted: nat := 0;
    ghost var perFile := FileOutcomes(files);
    var i := 0;
    while i < |files|
      invariant 0 <= i <= |files|
      invariant store.Valid()
      invariant IngestFileOutcomes(store.rows, totalInserted, perFile[i..]) == IngestFiles(old(store.rows), 0, files)
    {
      var stationId := Stem(files[i].name);
      var lines := files[i].lines;
      ghost var rowsBefore, countBefore := store.rows, totalInserted;
      ghost var outcomes := perFile[i];
      assert outcomes == Outcomes(stationId, lines);
      var j := 0;
      while j < |lines|
        invariant 0 <= j <= |lines|
        invariant store.Valid()
        invariant IngestOutcomes(store.rows, totalInserted, outcomes[j..])
               == IngestOutcomes(rowsBefore, countBefore, outcomes)
      {
        assert outcomes[j..][0] == outcomes[j] && outcomes[j..][1..] == outcomes[j + 1..];
        var lineOutcome := ClassifyLine(stationId, lines[j]);
        assert outcomes[j] == lineOutcome;
        match lineOutcome {
          case Blank =>
          case Malformed =>
          case Fatal(e) =>
            assert IngestOutcomes(rowsBefore, countBefore, outcomes) == Run(store.rows, totalInserted, Some(e));
            assert perFile[i..][0] == outcomes;
            outcome := Failure(e);
            return;
          case Parsed(obs) =>
            var committed := store.Insert(obs);
            if committed {
              totalInserted := totalInserted + 1;
            }
        }
        j := j + 1;
      }
      assert perFile[i..][0] == outcomes && perFile[i..][1..] == perFile[i + 1..];
      i := i + 1;
    }
    outcome := Success(totalInserted);
  }
}
