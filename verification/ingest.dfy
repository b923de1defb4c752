/** The log ingest service (`ingest_logs`): each log file must match a
    registry entry that has no run yet; its readings are parsed, a run is
    created for them, the readings are stored under the run and the entry
    is linked to it, and the file is committed before the next one is
    read.

    Files arrive already read: a structured log as a `CsvTable`, a device
    log as its lines. The three regular expressions of the service are
    the fields of a `LinePatterns` value. */
module Ingest {
  import opened Common
  import opened Models
  import Text
  import Sorting
  import Timestamps
  import Fields
  import Repositories

  /** The groups of a `temp_humid_sample:` line: the six date and time
      fields (digit runs, so `int()` always succeeds) and the two
      `[0-9.]+` runs of temperature and humidity. */
  datatype SampleMatch = SampleMatch(year: nat, month: nat, day: nat, hour: nat, minute: nat, second: nat,
                                     temp: string, humid: string)

  /** `search` of the three patterns on one line:
      - `sample`: the temperature/humidity sample line
      - `tzParen`: the integer of a `tz(N)` hint
      - `tzCclk`: the signed two-digit quarter count of a `+CCLK` hint */
  datatype LinePatterns = LinePatterns(
    sample: string -> Option<SampleMatch>,
    tzParen: string -> Option<int>,
    tzCclk: string -> Option<int>)

  datatype IngestError =
    | NoRegistryEntry(name: string)
    | AlreadyLinked(name: string, linkedRun: int)
    | NoReadings(name: string)
    | UnsupportedFormat(suffix: string)
    | LogMissing(name: string)
    | MissingHeaderRow(name: string)
    | MissingColumns(columns: seq<string>)
    | BadField(fieldError: Fields.FieldError)
    | BadTime(timeError: Timestamps.TimeError)
    | InvalidDate(sample: SampleMatch)
    | InvalidNumber(text: string)

  // ------------------------------------------------------- structured CSV

  /** The columns a structured log must have. */
  const RequiredColumns: set<string> := {"t_elapsed_s", "temp_c", "rh_pct"}

  /** `sorted(missing)` over the stripped header names. */
  function MissingRequired(header: seq<string>): seq<string> {
    MissingFrom(Text.StrippedNames(header))
  }

  function MissingFrom(names: set<string>): seq<string> {
    (if "rh_pct" in names then [] else ["rh_pct"])
    + (if "t_elapsed_s" in names then [] else ["t_elapsed_s"])
    + (if "temp_c" in names then [] else ["temp_c"])
  }

  /** The reported columns are exactly the required ones no stripped
      header name equals, in code-point order. */
  lemma MissingRequiredMeaning(header: seq<string>)
    ensures forall c :: c in MissingRequired(header) <==> c in RequiredColumns && c !in Text.StrippedNames(header)
    ensures Sorting.LexSorted(MissingRequired(header))
  {
    MissingFromMembers(Text.StrippedNames(header));
    MissingFromSorted(Text.StrippedNames(header));
  }

  lemma MissingFromMembers(names: set<string>)
    ensures forall c :: c in MissingFrom(names) <==> c in RequiredColumns && c !in names
  {
  }

  lemma MissingFromSorted(names: set<string>)
    ensures Sorting.LexSorted(MissingFrom(names))
  {
    RequiredColumnsOrdered();
  }

  /** The code-point order of the three column names. */
  lemma RequiredColumnsOrdered()
    ensures Sorting.LexSorted(["rh_pct"]) && Sorting.LexSorted(["t_elapsed_s"]) && Sorting.LexSorted(["temp_c"])
    ensures Text.LexLe("rh_pct", "t_elapsed_s") && Text.LexLe("rh_pct", "temp_c") && Text.LexLe("t_elapsed_s", "temp_c")
  {
    assert "rh_pct"[0] < "t_elapsed_s"[0];
    assert "rh_pct"[0] < "temp_c"[0];
    assert "t_elapsed_s"[1] < "temp_c"[1];
    assert "t_elapsed_s"[1..][1..] == "elapsed_s";
  }

  /** One data row of a structured log. The timestamp is normalised
      first, then `t_elapsed_s` (required), then `temp_c` and `rh_pct`
      (blank allowed); the first failure is the error. */
  function ParseCsvRow(lib: Timestamps.Lib, defaultTz: string, row: map<string, string>)
    : (r: Result<ReadingSample, IngestError>)
    ensures r.Ok? <==> Timestamps.NormalizeIngestTimestamp(lib, Text.CleanStr(Get(row, "timestamp")), defaultTz).Ok?
                       && Fields.ToFloat(lib.parseFloat, Get(row, "t_elapsed_s"), "t_elapsed_s", false).Ok?
                       && Fields.ToFloat(lib.parseFloat, Get(row, "temp_c"), "temp_c", true).Ok?
                       && Fields.ToFloat(lib.parseFloat, Get(row, "rh_pct"), "rh_pct", true).Ok?
    ensures r.Err? ==> r.error.BadTime? || r.error.BadField?
    ensures r.Ok? ==> "t_elapsed_s" in row && Some(r.value.tElapsedS) == lib.parseFloat(Text.Strip(row["t_elapsed_s"]))
    ensures r.Ok? ==> (r.value.tempC.None? <==> "temp_c" !in row || Text.AllSpace(row["temp_c"]))
    ensures r.Ok? ==> (r.value.rhPct.None? <==> "rh_pct" !in row || Text.AllSpace(row["rh_pct"]))
    ensures r.Ok? ==> (r.value.timestamp.None? <==> "timestamp" !in row || Text.AllSpace(row["timestamp"]))
    ensures r.Ok? && "temp_c" in row && !Text.AllSpace(row["temp_c"])
            ==> r.value.tempC == lib.parseFloat(Text.Strip(row["temp_c"]))
    ensures r.Ok? && "rh_pct" in row && !Text.AllSpace(row["rh_pct"])
            ==> r.value.rhPct == lib.parseFloat(Text.Strip(row["rh_pct"]))
    ensures r.Ok? ==> r.value.timestamp
                      == Timestamps.NormalizeIngestTimestamp(lib, Text.CleanStr(Get(row, "timestamp")), defaultTz).value
    ensures r.Ok? ==> r.value.sensorId == Text.CleanStr(Get(row, "sensor_id"))
  {
    match Timestamps.NormalizeIngestTimestamp(lib, Text.CleanStr(Get(row, "timestamp")), defaultTz)
    case Err(e) => Err(BadTime(e))
    case Ok(ts) =>
      match Fields.ToFloat(lib.parseFloat, Get(row, "t_elapsed_s"), "t_elapsed_s", false)
      case Err(e) => Err(BadField(e))
      case Ok(t) =>
        match Fields.ToFloat(lib.parseFloat, Get(row, "temp_c"), "temp_c", true)
        case Err(e) => Err(BadField(e))
        case Ok(temp) =>
          match Fields.ToFloat(lib.parseFloat, Get(row, "rh_pct"), "rh_pct", true)
          case Err(e) => Err(BadField(e))
          case Ok(rh) => Ok(ReadingSample(t.value, temp, rh, ts, Text.CleanStr(Get(row, "sensor_id"))))
  }

  /** A row without a `t_elapsed_s` cell is rejected once its timestamp
      has been read, naming the missing field. */
  lemma MissingElapsedRejected(lib: Timestamps.Lib, defaultTz: string, row: map<string, string>)
    requires "t_elapsed_s" !in row
    requires Timestamps.NormalizeIngestTimestamp(lib, Text.CleanStr(Get(row, "timestamp")), defaultTz).Ok?
    ensures ParseCsvRow(lib, defaultTz, row) == Err(BadField(Fields.MissingValue("t_elapsed_s")))
  {
  }

  function ElapsedKey(s: ReadingSample): real {
    s.tElapsedS
  }

  /** `_parse_csv_log`: the file must exist, have a header row and the
      three required columns; every row is parsed in file order and the
      readings are then sorted by `t_elapsed_s`. */
  function ParseCsvLog(lib: Timestamps.Lib, file: Option<CsvTable>, name: string, defaultTz: string)
    : (r: Result<seq<ReadingSample>, IngestError>)
    ensures r == Err(LogMissing(name)) <==> file.None?
    ensures r == Err(MissingHeaderRow(name)) <==> file.Some? && file.value.header.None?
    ensures file.Some? && file.value.header.Some? && |MissingRequired(file.value.header.value)| > 0
            ==> r == Err(MissingColumns(MissingRequired(file.value.header.value)))
    ensures r.Err? && r.error.MissingColumns? ==> file.Some? && file.value.header.Some?
                                                   && r.error.columns == MissingRequired(file.value.header.value)
    ensures r.Err? ==> !r.error.UnsupportedFormat? && !r.error.NoReadings?
                       && !r.error.NoRegistryEntry? && !r.error.AlreadyLinked?
    ensures r.Ok? ==> Sorting.SortedByKey(r.value, ElapsedKey) && |r.value| == |file.value.rows|
    ensures file.Some? && file.value.header.Some? && |MissingRequired(file.value.header.value)| == 0
            ==> (r.Ok? <==> forall i :: 0 <= i < |file.value.rows| ==> ParseCsvRow(lib, defaultTz, file.value.rows[i]).Ok?)
    ensures file.Some? && file.value.header.Some? && |MissingRequired(file.value.header.value)| == 0 && r.Err?
            ==> exists k :: 0 <= k < |file.value.rows| && ParseCsvRow(lib, defaultTz, file.value.rows[k]) == Err(r.error)
                            && forall j :: 0 <= j < k ==> ParseCsvRow(lib, defaultTz, file.value.rows[j]).Ok?
  {
    match file
    case None => Err(LogMissing(name))
    case Some(t) =>
      match t.header
      case None => Err(MissingHeaderRow(name))
      case Some(header) =>
        var missing := MissingRequired(header);
        if |missing| > 0 then Err(MissingColumns(missing)) else ParseCsvRows(lib, t.rows, defaultTz)
  }

  /** The data rows parsed in file order, then sorted by `t_elapsed_s`. */
  function ParseCsvRows(lib: Timestamps.Lib, rows: seq<map<string, string>>, defaultTz: string)
    : (r: Result<seq<ReadingSample>, IngestError>)
    ensures r.Err? ==> r.error.BadTime? || r.error.BadField?
    ensures r.Ok? ==> Sorting.SortedByKey(r.value, ElapsedKey) && |r.value| == |rows|
    ensures r.Ok? <==> forall i :: 0 <= i < |rows| ==> ParseCsvRow(lib, defaultTz, rows[i]).Ok?
    ensures r.Err? ==> exists k :: 0 <= k < |rows| && ParseCsvRow(lib, defaultTz, rows[k]) == Err(r.error)
                                   && forall j :: 0 <= j < k ==> ParseCsvRow(lib, defaultTz, rows[j]).Ok?
  {
    match ParseAll(rows, row => ParseCsvRow(lib, defaultTz, row))
    case Err(e) => Err(e)
    case Ok(parsed) => Ok(Sorting.SortByKey(parsed, ElapsedKey))
  }

  /** A structured log whose rows all parse yields exactly those readings,
      reordered by `t_elapsed_s`, rows with equal times keeping their
      file order. */
  lemma CsvLogIsStableSort(lib: Timestamps.Lib, t: CsvTable, name: string, defaultTz: string,
                           parsed: seq<ReadingSample>)
    requires t.header.Some? && |MissingRequired(t.header.value)| == 0
    requires |parsed| == |t.rows|
    requires forall i :: 0 <= i < |t.rows| ==> ParseCsvRow(lib, defaultTz, t.rows[i]) == Ok(parsed[i])
    ensures ParseCsvLog(lib, Some(t), name, defaultTz).Ok?
    ensures var r := ParseCsvLog(lib, Some(t), name, defaultTz).value;
            Sorting.SortedByKey(r, ElapsedKey) && multiset(r) == multiset(parsed)
            && forall k :: Sorting.Ties(r, k, ElapsedKey) == Sorting.Ties(parsed, k, ElapsedKey)
  {
    ParseAllOk(t.rows, row => ParseCsvRow(lib, defaultTz, row), parsed);
    assert ParseCsvRows(lib, t.rows, defaultTz) == Ok(Sorting.SortByKey(parsed, ElapsedKey));
    assert ParseCsvLog(lib, Some(t), name, defaultTz) == ParseCsvRows(lib, t.rows, defaultTz);
  }

  // ----------------------------------------------------------- device log

  /** The line's hint, `tz(N)` taking precedence over `+CCLK`. */
  function HintOf(p: LinePatterns, line: string): Option<int> {
    if p.tzParen(line).Some? then p.tzParen(line) else p.tzCclk(line)
  }

  /** `_detect_tzinfo`: the offset of the first line carrying a hint, or
      the default zone when no line does. */
  function DetectZone(lib: Timestamps.Lib, p: LinePatterns, lines: seq<string>, defaultTz: string)
    : (r: Result<Timestamps.Zone, Timestamps.TimeError>)
    ensures (forall i :: 0 <= i < |lines| ==> HintOf(p, lines[i]).None?)
            ==> r == Timestamps.ZoneFromName(lib, defaultTz)
    ensures forall k :: 0 <= k < |lines| && HintOf(p, lines[k]).Some? && NoHintBefore(p, lines, k)
                        ==> r == Timestamps.ZoneFromQuarters(HintOf(p, lines[k]).value)
  {
    if |lines| == 0 then Timestamps.ZoneFromName(lib, defaultTz)
    else match HintOf(p, lines[0])
      case Some(q) => Timestamps.ZoneFromQuarters(q)
      case None =>
        var r := DetectZone(lib, p, lines[1..], defaultTz);
        assert forall i :: 1 <= i < |lines| ==> lines[i] == lines[1..][i - 1];
        assert forall k :: 1 <= k < |lines| && NoHintBefore(p, lines, k) ==> NoHintBefore(p, lines[1..], k - 1);
        r
  }

  predicate NoHintBefore(p: LinePatterns, lines: seq<string>, k: int)
    requires 0 <= k <= |lines|
  {
    forall i :: 0 <= i < k ==> HintOf(p, lines[i]).None?
  }

  /** The sample lines of a log, in line order. */
  function Matches(p: LinePatterns, lines: seq<string>): (r: seq<SampleMatch>)
    ensures |r| <= |lines|
  {
    if |lines| == 0 then []
    else (if p.sample(lines[0]).Some? then [p.sample(lines[0]).value] else []) + Matches(p, lines[1..])
  }

  /** Sample lines are found line by line: the matches of two stretches of
      a log are the matches of each, one after the other. */
  lemma {:induction false} MatchesAppend(p: LinePatterns, a: seq<string>, b: seq<string>)
    ensures Matches(p, a + b) == Matches(p, a) + Matches(p, b)
  {
    if |a| > 0 {
      assert (a + b)[1..] == a[1..] + b;
      MatchesAppend(p, a[1..], b);
    } else {
      assert a + b == b;
    }
  }

  /** A single line contributes its match, or nothing. */
  lemma MatchesOfLine(p: LinePatterns, line: string)
    ensures Matches(p, [line]) == if p.sample(line).Some? then [p.sample(line).value] else []
  {
    assert [line][1..] == [];
  }

  /** The naive date and time a sample line names. */
  function CivilOf(m: SampleMatch): Timestamps.Civil {
    Timestamps.Civil(m.year, m.month, m.day, m.hour, m.minute, m.second, 0)
  }

  /** One reading of a device log: `datetime(...)` of the captured fields
      (which must form a valid date and time) in the detected zone, its
      offset from `base`, and `float()` of temperature and humidity. */
  function ReadSample(lib: Timestamps.Lib, zone: Timestamps.Zone, base: Timestamps.Civil, m: SampleMatch)
    : (r: Result<ReadingSample, IngestError>)
    ensures r.Ok? <==> Timestamps.ValidCivil(CivilOf(m)) && lib.parseFloat(m.temp).Some? && lib.parseFloat(m.humid).Some?
    ensures !Timestamps.ValidCivil(CivilOf(m)) ==> r == Err(InvalidDate(m))
    ensures r.Ok? ==> r.value.tElapsedS == Timestamps.ElapsedSeconds(base, CivilOf(m))
                      && r.value.tempC == lib.parseFloat(m.temp) && r.value.rhPct == lib.parseFloat(m.humid)
                      && r.value.timestamp == Some(lib.isoFormat(CivilOf(m), zone)) && r.value.sensorId.None?
  {
    var c := CivilOf(m);
    if !Timestamps.ValidCivil(c) then Err(InvalidDate(m))
    else
      match lib.parseFloat(m.temp)
      case None => Err(InvalidNumber(m.temp))
      case Some(temp) =>
        match lib.parseFloat(m.humid)
        case None => Err(InvalidNumber(m.humid))
        case Some(humid) =>
          Ok(ReadingSample(Timestamps.ElapsedSeconds(base, c), Some(temp), Some(humid),
                           Some(lib.isoFormat(c, zone)), None))
  }

  /** Every sample line reads, timed from the first one. */
  predicate AllSamplesRead(lib: Timestamps.Lib, zone: Timestamps.Zone, ms: seq<SampleMatch>) {
    forall i :: 0 <= i < |ms| ==> ReadSample(lib, zone, CivilOf(ms[0]), ms[i]).Ok?
  }

  /** `e` is the error of the first sample line that does not read. */
  predicate FirstSampleError(lib: Timestamps.Lib, zone: Timestamps.Zone, ms: seq<SampleMatch>, e: IngestError) {
    exists k :: 0 <= k < |ms| && ReadSample(lib, zone, CivilOf(ms[0]), ms[k]) == Err(e)
                && forall j :: 0 <= j < k ==> ReadSample(lib, zone, CivilOf(ms[0]), ms[j]).Ok?
  }

  /** The readings of the sample lines in line order, each timed from the
      first sample line; the first failing line stops the parse. */
  function LineReadings(lib: Timestamps.Lib, zone: Timestamps.Zone, ms: seq<SampleMatch>)
    : (r: Result<seq<ReadingSample>, IngestError>)
    ensures r.Ok? ==> |r.value| == |ms|
    ensures r.Ok? <==> AllSamplesRead(lib, zone, ms)
    ensures r.Ok? ==> forall i :: 0 <= i < |ms| ==> r.value[i] == ReadSample(lib, zone, CivilOf(ms[0]), ms[i]).value
    ensures r.Err? ==> FirstSampleError(lib, zone, ms, r.error)
  {
    if |ms| == 0 then Ok([])
    else ParseAll(ms, m => ReadSample(lib, zone, CivilOf(ms[0]), m))
  }

  /** `_parse_device_log`: the zone is detected first (so an unknown
      default zone fails even a log without hints), then every sample line
      becomes a reading, and the readings are sorted by `t_elapsed_s`. */
  function ParseDeviceLog(lib: Timestamps.Lib, p: LinePatterns, file: Option<seq<string>>, name: string,
                          defaultTz: string)
    : (r: Result<seq<ReadingSample>, IngestError>)
    ensures r == Err(LogMissing(name)) <==> file.None?
    ensures file.Some? && DetectZone(lib, p, file.value, defaultTz).Err?
            ==> r == Err(BadTime(DetectZone(lib, p, file.value, defaultTz).error))
    ensures r.Err? ==> !r.error.UnsupportedFormat? && !r.error.NoReadings?
                       && !r.error.NoRegistryEntry? && !r.error.AlreadyLinked?
    ensures r.Ok? ==> Sorting.SortedByKey(r.value, ElapsedKey) && |r.value| == |Matches(p, file.value)|
    ensures file.Some? && DetectZone(lib, p, file.value, defaultTz).Ok?
            ==> (r.Ok? <==> AllSamplesRead(lib, DetectZone(lib, p, file.value, defaultTz).value, Matches(p, file.value)))
    ensures file.Some? && DetectZone(lib, p, file.value, defaultTz).Ok? && r.Err?
            ==> FirstSampleError(lib, DetectZone(lib, p, file.value, defaultTz).value, Matches(p, file.value), r.error)
  {
    match file
    case None => Err(LogMissing(name))
    case Some(lines) =>
      match DetectZone(lib, p, lines, defaultTz)
      case Err(e) => Err(BadTime(e))
      case Ok(zone) =>
        match LineReadings(lib, zone, Matches(p, lines))
        case Err(e) => Err(e)
        case Ok(readings) => Ok(Sorting.SortByKey(readings, ElapsedKey))
  }

  /** Every sample line yields one reading: the device log's readings are
      those of its sample lines, reordered by `t_elapsed_s`, and the first
      sample line's reading is among them with elapsed time 0. */
  lemma DeviceLogReadings(lib: Timestamps.Lib, p: LinePatterns, lines: seq<string>, name: string, defaultTz: string)
    requires ParseDeviceLog(lib, p, Some(lines), name, defaultTz).Ok?
    ensures var zone := DetectZone(lib, p, lines, defaultTz).value;
            var ms := Matches(p, lines);
            var r := ParseDeviceLog(lib, p, Some(lines), name, defaultTz).value;
            (forall i :: 0 <= i < |ms| ==> ReadSample(lib, zone, CivilOf(ms[0]), ms[i]).Ok?)
            && multiset(r) == multiset(seq(|ms|, i requires 0 <= i < |ms| =>
                                             ReadSample(lib, zone, CivilOf(ms[0]), ms[i]).value))
    ensures var ms := Matches(p, lines);
            var r := ParseDeviceLog(lib, p, Some(lines), name, defaultTz).value;
            |ms| > 0 ==> exists j :: 0 <= j < |r| && r[j].tElapsedS == 0.0
                                    && r[j].timestamp == Some(lib.isoFormat(CivilOf(ms[0]), DetectZone(lib, p, lines, defaultTz).value))
  {
    var zone := DetectZone(lib, p, lines, defaultTz).value;
    var ms := Matches(p, lines);
    var readings := LineReadings(lib, zone, ms).value;
    var r := Sorting.SortByKey(readings, ElapsedKey);
    assert r == ParseDeviceLog(lib, p, Some(lines), name, defaultTz).value;
    LineReadingsAre(lib, zone, ms);
    if |ms| > 0 {
      FirstReadingStarts(lib, zone, ms);
      var j := MemberAt(readings[0], r);
    }
  }

  /** Line by line, the readings are those of the sample lines. */
  lemma LineReadingsAre(lib: Timestamps.Lib, zone: Timestamps.Zone, ms: seq<SampleMatch>)
    requires LineReadings(lib, zone, ms).Ok?
    ensures |ms| > 0 ==> forall i :: 0 <= i < |ms| ==> ReadSample(lib, zone, CivilOf(ms[0]), ms[i]).Ok?
    ensures |ms| > 0 ==> LineReadings(lib, zone, ms).value
                         == seq(|ms|, i requires 0 <= i < |ms| => ReadSample(lib, zone, CivilOf(ms[0]), ms[i]).value)
    ensures |ms| == 0 ==> LineReadings(lib, zone, ms).value == []
  {
    if |ms| > 0 {
      var f := m => ReadSample(lib, zone, CivilOf(ms[0]), m);
      var readings := LineReadings(lib, zone, ms).value;
      assert forall i :: 0 <= i < |ms| ==> f(ms[i]) == Ok(readings[i]);
    }
  }

  /** The first sample line's reading starts the clock. */
  lemma FirstReadingStarts(lib: Timestamps.Lib, zone: Timestamps.Zone, ms: seq<SampleMatch>)
    requires |ms| > 0 && LineReadings(lib, zone, ms).Ok?
    ensures LineReadings(lib, zone, ms).value[0].tElapsedS == 0.0
    ensures LineReadings(lib, zone, ms).value[0].timestamp == Some(lib.isoFormat(CivilOf(ms[0]), zone))
  {
    var f := m => ReadSample(lib, zone, CivilOf(ms[0]), m);
    assert f(ms[0]) == Ok(LineReadings(lib, zone, ms).value[0]);
    Timestamps.ElapsedOfSame(CivilOf(ms[0]), CivilOf(ms[0]));
  }

  /** Sample lines are chronological when each names a valid time later
      than every line before it. */
  predicate Chronological(ms: seq<SampleMatch>) {
    (forall i :: 0 <= i < |ms| ==> Timestamps.ValidCivil(CivilOf(ms[i])))
    && forall i, j :: 0 <= i < j < |ms| ==> Timestamps.CivilBefore(CivilOf(ms[i]), CivilOf(ms[j]))
  }

  /** A log whose sample lines are chronological keeps its line order:
      sorting by elapsed time moves nothing. */
  lemma ChronologicalKeepsLineOrder(lib: Timestamps.Lib, p: LinePatterns, lines: seq<string>, name: string,
                                    defaultTz: string)
    requires ParseDeviceLog(lib, p, Some(lines), name, defaultTz).Ok?
    requires Chronological(Matches(p, lines))
    ensures var zone := DetectZone(lib, p, lines, defaultTz).value;
            var ms := Matches(p, lines);
            var r := ParseDeviceLog(lib, p, Some(lines), name, defaultTz).value;
            |r| == |ms| && forall i :: 0 <= i < |ms| ==> r[i].timestamp == Some(lib.isoFormat(CivilOf(ms[i]), zone))
  {
    var zone := DetectZone(lib, p, lines, defaultTz).value;
    var ms := Matches(p, lines);
    var readings := LineReadings(lib, zone, ms).value;
    if |ms| > 0 {
      var f := m => ReadSample(lib, zone, CivilOf(ms[0]), m);
      assert forall i :: 0 <= i < |ms| ==> f(ms[i]) == Ok(readings[i]);
      forall i, j | 0 <= i < j < |readings|
        ensures ElapsedKey(readings[i]) <= ElapsedKey(readings[j])
      {
        Timestamps.WallSecondsMonotone(CivilOf(ms[i]), CivilOf(ms[j]));
      }
      Sorting.SortByKeyOfSorted(readings, ElapsedKey);
    }
  }

  // ------------------------------------------------------ sampling interval

  function Times(readings: seq<ReadingSample>): (r: seq<real>)
    ensures |r| == |readings| && forall i :: 0 <= i < |r| ==> r[i] == readings[i].tElapsedS
  {
    seq(|readings|, i requires 0 <= i < |readings| => readings[i].tElapsedS)
  }

  /** The consecutive differences that are not negative, in order. */
  function Deltas(ts: seq<real>): (r: seq<real>)
    ensures forall i :: 0 <= i < |r| ==> r[i] >= 0.0
    ensures |r| <= if |ts| < 2 then 0 else |ts| - 1
    ensures |r| == 0 <==> forall i :: 0 <= i < |ts| - 1 ==> ts[i + 1] < ts[i]
  {
    if |ts| < 2 then []
    else
      var rest := Deltas(ts[1..]);
      assert forall i :: 0 <= i < |ts| - 1 ==> ts[1..][i] == ts[i + 1];
      (if ts[1] >= ts[0] then [ts[1] - ts[0]] else []) + rest
  }

  function Sum(xs: seq<real>): real {
    if |xs| == 0 then 0.0 else xs[0] + Sum(xs[1..])
  }

  lemma {:induction false} SumNonNegative(xs: seq<real>)
    requires forall i :: 0 <= i < |xs| ==> xs[i] >= 0.0
    ensures Sum(xs) >= 0.0
  {
    if |xs| > 0 {
      assert forall i :: 0 <= i < |xs[1..]| ==> xs[1..][i] == xs[i + 1];
      SumNonNegative(xs[1..]);
    }
  }

  /** `_estimate_sampling_interval`: the mean of the non-negative
      consecutive differences of `t_elapsed_s`, absent for fewer than two
      readings or when every difference is negative. */
  function EstimateSamplingInterval(readings: seq<ReadingSample>): (r: Option<real>)
    ensures |readings| < 2 ==> r.None?
    ensures r.None? <==> forall i :: 0 <= i < |readings| - 1 ==> readings[i + 1].tElapsedS < readings[i].tElapsedS
    ensures r.Some? ==> r.value >= 0.0
  {
    if |readings| < 2 then None
    else
      var ds := Deltas(Times(readings));
      if |ds| == 0 then None
      else
        SumNonNegative(ds);
        Some(Sum(ds) / (|ds| as real))
  }

  /** On a sorted sequence every difference counts and the sum
      telescopes. */
  lemma {:induction false} DeltasOfSorted(ts: seq<real>)
    requires |ts| >= 2
    requires forall i, j :: 0 <= i < j < |ts| ==> ts[i] <= ts[j]
    ensures |Deltas(ts)| == |ts| - 1
    ensures Sum(Deltas(ts)) == ts[|ts| - 1] - ts[0]
  {
    var rest := ts[1..];
    if |ts| > 2 {
      DeltasOfSorted(rest);
    }
    assert Deltas(ts) == [ts[1] - ts[0]] + Deltas(rest);
    assert ([ts[1] - ts[0]] + Deltas(rest))[1..] == Deltas(rest);
  }

  /** For readings sorted by elapsed time the estimate is the whole span
      divided by the number of gaps. */
  lemma SamplingIntervalOfSorted(readings: seq<ReadingSample>)
    requires |readings| >= 2 && Sorting.SortedByKey(readings, ElapsedKey)
    ensures EstimateSamplingInterval(readings)
            == Some((readings[|readings| - 1].tElapsedS - readings[0].tElapsedS) / ((|readings| - 1) as real))
  {
    var ts := Times(readings);
    assert forall i, j :: 0 <= i < j < |ts| ==> ts[i] <= ts[j] by {
      forall i, j | 0 <= i < j < |ts| ensures ts[i] <= ts[j] {
        assert ElapsedKey(readings[i]) <= ElapsedKey(readings[j]);
      }
    }
    DeltasOfSorted(ts);
  }

  // ------------------------------------------------------------ reconcile

  /** The contents of an existing log file, both as a CSV table and as
      lines of text; which view is used depends on the suffix. */
  datatype LogContents = LogContents(table: CsvTable, lines: seq<string>)

  /** A log file: its base name and its contents, absent when the path
      does not exist. */
  datatype LogFile = LogFile(name: string, contents: Option<LogContents>)

  /** The arguments of `ingest_logs` other than the paths, with the
      library behaviours and line patterns the parsers use. */
  datatype Settings = Settings(lib: Timestamps.Lib, patterns: LinePatterns, deviceId: string, diaperType: string,
                               sensorLayout: string, runNotes: Option<string>, defaultTz: string)

  /** `_parse_log_file`: `.csv` (in any case) is a structured log, `.log`
      a device log; any other suffix is rejected before the file is
      opened. */
  function ParseLogFile(s: Settings, log: LogFile): (r: Result<seq<ReadingSample>, IngestError>)
    ensures r == Err(UnsupportedFormat(Text.Suffix(log.name)))
            <==> Text.Lower(Text.Suffix(log.name)) != ".csv" && Text.Lower(Text.Suffix(log.name)) != ".log"
    ensures r.Err? ==> !r.error.NoReadings? && !r.error.NoRegistryEntry? && !r.error.AlreadyLinked?
    ensures r.Ok? ==> Sorting.SortedByKey(r.value, ElapsedKey)
    ensures Text.Lower(Text.Suffix(log.name)) == ".csv"
            ==> r == ParseCsvLog(s.lib, if log.contents.Some? then Some(log.contents.value.table) else None,
                                 log.name, s.defaultTz)
    ensures Text.Lower(Text.Suffix(log.name)) == ".log"
            ==> r == ParseDeviceLog(s.lib, s.patterns, if log.contents.Some? then Some(log.contents.value.lines) else None,
                                    log.name, s.defaultTz)
  {
    var suffix := Text.Lower(Text.Suffix(log.name));
    if suffix == ".csv" then
      ParseCsvLog(s.lib, if log.contents.Some? then Some(log.contents.value.table) else None, log.name, s.defaultTz)
    else if suffix == ".log" then
      ParseDeviceLog(s.lib, s.patterns, if log.contents.Some? then Some(log.contents.value.lines) else None,
                     log.name, s.defaultTz)
    else Err(UnsupportedFormat(Text.Suffix(log.name)))
  }

  /** The metadata of the run a log file becomes. */
  function RunFor(s: Settings, entry: RunRegistryEntry, name: string, readings: seq<ReadingSample>): RunMetadata
    requires |readings| > 0
  {
    RunMetadata(s.deviceId, s.diaperType, s.sensorLayout, Some(entry.externalRunId), Some(name), s.runNotes,
                readings[0].timestamp, readings[|readings| - 1].timestamp, EstimateSamplingInterval(readings))
  }

  /** One iteration of the `ingest_logs` loop, up to and including its
      commit: the registry entry for the file's name must exist and have
      no run; the readings must be non-empty; then a run is created, the
      readings are stored under it and the entry is linked to it. On an
      error nothing of this file is kept. */
  function IngestFile(s: Settings, st: Repositories.Store, log: LogFile): (r: Result<(Repositories.Store, int), IngestError>)
    ensures r == Err(NoRegistryEntry(log.name)) <==> Repositories.FindByLogFileRef(st.registry, log.name).None?
    ensures Repositories.FindByLogFileRef(st.registry, log.name).Some?
            && st.registry[Repositories.FindByLogFileRef(st.registry, log.name).value].runId.Some?
            ==> r == Err(AlreadyLinked(log.name,
                                       st.registry[Repositories.FindByLogFileRef(st.registry, log.name).value].runId.value))
    ensures r.Ok? <==> Repositories.FindByLogFileRef(st.registry, log.name).Some?
                       && st.registry[Repositories.FindByLogFileRef(st.registry, log.name).value].runId.None?
                       && ParseLogFile(s, log).Ok? && |ParseLogFile(s, log).value| > 0
    ensures Repositories.FindByLogFileRef(st.registry, log.name).Some?
            && st.registry[Repositories.FindByLogFileRef(st.registry, log.name).value].runId.None?
            && ParseLogFile(s, log).Err?
            ==> r == Err(ParseLogFile(s, log).error)
    ensures Repositories.FindByLogFileRef(st.registry, log.name).Some?
            && st.registry[Repositories.FindByLogFileRef(st.registry, log.name).value].runId.None?
            && ParseLogFile(s, log) == Ok([])
            ==> r == Err(NoReadings(log.name))
  {
    match Repositories.FindByLogFileRef(st.registry, log.name)
    case None => Err(NoRegistryEntry(log.name))
    case Some(i) =>
      var row := st.registry[i];
      if row.runId.Some? then Err(AlreadyLinked(log.name, row.runId.value))
      else
        match ParseLogFile(s, log)
        case Err(e) => Err(e)
        case Ok(readings) =>
          if |readings| == 0 then Err(NoReadings(log.name))
          else
            var created := Repositories.CreateRun(st, RunFor(s, row.entry, log.name, readings));
            var stored := Repositories.InsertReadings(created.0, created.1, readings).value;
            Ok((Repositories.AttachRun(stored, row.registryId, created.1), created.1))
  }

  /** The steps of a successful file, spelled out. */
  lemma IngestFileSteps(s: Settings, st: Repositories.Store, log: LogFile)
    requires IngestFile(s, st, log).Ok?
    ensures var i := Repositories.FindByLogFileRef(st.registry, log.name).value;
            var readings := ParseLogFile(s, log).value;
            var created := Repositories.CreateRun(st, RunFor(s, st.registry[i].entry, log.name, readings));
            Repositories.InsertReadings(created.0, created.1, readings).Ok?
            && IngestFile(s, st, log).value
               == (Repositories.AttachRun(Repositories.InsertReadings(created.0, created.1, readings).value,
                                          st.registry[i].registryId, created.1),
                   created.1)
  {
  }

  /** A successful file in a valid store creates one run under a fresh id,
      described by its registry entry and its readings, keeps the store
      valid and leaves the labels alone. */
  lemma IngestFileCreatesRun(s: Settings, st: Repositories.Store, log: LogFile)
    requires Repositories.Valid(st)
    requires IngestFile(s, st, log).Ok?
    ensures var i := Repositories.FindByLogFileRef(st.registry, log.name).value;
            var readings := ParseLogFile(s, log).value;
            var (st', id) := IngestFile(s, st, log).value;
            && id !in st.runs
            && st'.runs == st.runs[id := st'.runs[id]]
            && st'.runs[id] == RunMetadata(s.deviceId, s.diaperType, s.sensorLayout,
                                           Some(st.registry[i].entry.externalRunId), Some(log.name), s.runNotes,
                                           readings[0].timestamp, readings[|readings| - 1].timestamp,
                                           EstimateSamplingInterval(readings))
            && st'.labels == st.labels
            && Repositories.Valid(st')
  {
    IngestFileSteps(s, st, log);
  }

  /** The run holds exactly the file's readings, and no other run's
      readings change. */
  lemma IngestFileStoresReadings(s: Settings, st: Repositories.Store, log: LogFile, other: int)
    requires Repositories.Valid(st)
    requires IngestFile(s, st, log).Ok?
    ensures var (st', id) := IngestFile(s, st, log).value;
            Repositories.ReadingsOf(st'.readings, id) == ParseLogFile(s, log).value
            && (other != id ==> Repositories.ReadingsOf(st'.readings, other) == Repositories.ReadingsOf(st.readings, other))
  {
    IngestFileSteps(s, st, log);
    var i := Repositories.FindByLogFileRef(st.registry, log.name).value;
    var readings := ParseLogFile(s, log).value;
    var created := Repositories.CreateRun(st, RunFor(s, st.registry[i].entry, log.name, readings));
    var id := created.1;
    assert forall k :: 0 <= k < |st.readings| ==> st.readings[k].runId != id;
    Repositories.ReadingsOfUnused(st.readings, id);
    Repositories.InsertReadingsThenRead(created.0, id, readings, other);
  }

  /** The matched registry row is linked to the new run and every other
      registry row is left as it was. */
  lemma IngestFileLinksEntry(s: Settings, st: Repositories.Store, log: LogFile)
    requires Repositories.RegistryValid(st.registry, st.nextRegistryId)
    requires IngestFile(s, st, log).Ok?
    ensures var i := Repositories.FindByLogFileRef(st.registry, log.name).value;
            var (st', id) := IngestFile(s, st, log).value;
            |st'.registry| == |st.registry|
            && st'.registry[i] == st.registry[i].(runId := Some(id))
            && forall j :: 0 <= j < |st.registry| && j != i ==> st'.registry[j] == st.registry[j]
  {
    IngestFileSteps(s, st, log);
    var i := Repositories.FindByLogFileRef(st.registry, log.name).value;
    forall j | 0 <= j < |st.registry| && j != i
      ensures st.registry[j].registryId != st.registry[i].registryId
    {
      if j < i {
        assert st.registry[j].registryId < st.registry[i].registryId;
      } else {
        assert st.registry[i].registryId < st.registry[j].registryId;
      }
    }
  }

  /** The outcome of `ingest_logs`: the store as last committed, the run
      ids created in file order, and the error that stopped the loop. When
      `error` is present, `ingest_logs` raises instead of returning, so its
      caller receives no ids at all; `runIds` then names the runs committed
      before the failing file. */
  datatype Batch = Batch(store: Repositories.Store, runIds: seq<int>, error: Option<IngestError>)

  /** `ingest_logs`: the files in order, each committed on success; the
      first failure ends the call, leaving the files before it committed
      and nothing of the failing file. */
  function IngestLogs(s: Settings, st: Repositories.Store, logs: seq<LogFile>): (r: Batch)
    ensures |r.runIds| <= |logs|
    ensures r.error.None? ==> |r.runIds| == |logs|
    decreases |logs|
  {
    if |logs| == 0 then Batch(st, [], None)
    else
      var first := IngestFile(s, st, logs[0]);
      if first.Err? then Batch(st, [], Some(first.error))
      else
        var rest := IngestLogs(s, first.value.0, logs[1..]);
        Batch(rest.store, [first.value.1] + rest.runIds, rest.error)
  }

  /** In a valid store every run id handed back is new and present in
      the resulting store, every earlier run survives, and the store the
      loop leaves is valid. */
  lemma {:induction false} IngestLogsFreshIds(s: Settings, st: Repositories.Store, logs: seq<LogFile>)
    requires Repositories.Valid(st)
    ensures FreshRuns(st, IngestLogs(s, st, logs))
    decreases |logs|
  {
    if |logs| > 0 {
      var first := IngestFile(s, st, logs[0]);
      if first.Ok? {
        var st' := first.value.0;
        IngestFileCreatesRun(s, st, logs[0]);
        IngestLogsFreshIds(s, st', logs[1..]);
        IngestLogsCons(s, st, logs);
        FreshRunsCons(st, st', first.value.1, IngestLogs(s, st', logs[1..]));
      }
    }
  }

  /** The batch leaves a valid store that keeps every run of `st`, and
      every run id it hands back is new to `st` and present afterwards. */
  predicate FreshRuns(st: Repositories.Store, r: Batch) {
    && Repositories.Valid(r.store)
    && st.runs.Keys <= r.store.runs.Keys
    && forall k :: 0 <= k < |r.runIds| ==> r.runIds[k] !in st.runs && r.runIds[k] in r.store.runs
  }

  lemma FreshRunsCons(st: Repositories.Store, st': Repositories.Store, id: int, rest: Batch)
    requires id !in st.runs && id in st'.runs && st.runs.Keys <= st'.runs.Keys
    requires FreshRuns(st', rest)
    ensures FreshRuns(st, Batch(rest.store, [id] + rest.runIds, rest.error))
  {
    var ids := [id] + rest.runIds;
    forall k | 0 <= k < |ids| ensures ids[k] !in st.runs && ids[k] in rest.store.runs {
      if k > 0 {
        assert ids[k] == rest.runIds[k - 1];
      }
    }
  }

  predicate Distinct(ids: seq<int>) {
    forall k, l :: 0 <= k < l < |ids| ==> ids[k] != ids[l]
  }

  lemma ConsDistinct(id: int, rest: seq<int>)
    requires Distinct(rest) && id !in rest
    ensures Distinct([id] + rest)
  {
    var ids := [id] + rest;
    forall k, l | 0 <= k < l < |ids| ensures ids[k] != ids[l] {
      assert ids[l] == rest[l - 1];
      if k > 0 {
        assert ids[k] == rest[k - 1];
      }
    }
  }

  /** The run ids handed back are pairwise different. */
  lemma {:induction false} IngestLogsDistinctIds(s: Settings, st: Repositories.Store, logs: seq<LogFile>)
    requires Repositories.Valid(st)
    ensures Distinct(IngestLogs(s, st, logs).runIds)
    decreases |logs|
  {
    if |logs| > 0 {
      var first := IngestFile(s, st, logs[0]);
      if first.Ok? {
        var st' := first.value.0;
        var id := first.value.1;
        IngestFileCreatesRun(s, st, logs[0]);
        IngestLogsFreshIds(s, st', logs[1..]);
        IngestLogsDistinctIds(s, st', logs[1..]);
        var restBatch := IngestLogs(s, st', logs[1..]);
        assert id in st'.runs;
        assert id !in restBatch.runIds;
        ConsDistinct(id, restBatch.runIds);
        assert IngestLogs(s, st, logs) == Batch(restBatch.store, [id] + restBatch.runIds, restBatch.error);
      }
    }
  }

  /** Per-file commits: when a file fails, the result is exactly what the
      files before it produced on their own, and the failing file, tried
      on that store, gives the error. */
  lemma {:induction false} IngestLogsKeepsCommitted(s: Settings, st: Repositories.Store, logs: seq<LogFile>)
    requires IngestLogs(s, st, logs).error.Some?
    ensures var r := IngestLogs(s, st, logs);
            |r.runIds| < |logs|
            && IngestLogs(s, st, logs[..|r.runIds|]) == Batch(r.store, r.runIds, None)
            && IngestFile(s, r.store, logs[|r.runIds|]) == Err(r.error.value)
    decreases |logs|
  {
    var r := IngestLogs(s, st, logs);
    var first := IngestFile(s, st, logs[0]);
    if first.Ok? {
      var rest := IngestLogs(s, first.value.0, logs[1..]);
      IngestLogsCons(s, st, logs);
      IngestLogsKeepsCommitted(s, first.value.0, logs[1..]);
      var k := |rest.runIds|;
      var prefix := logs[..k + 1];
      PrefixTail(logs, k);
      IngestLogsCons(s, st, prefix);
      assert logs[|r.runIds|] == logs[1..][k];
    } else {
      assert logs[..0] == [];
    }
  }

  /** A successful first file, then the rest of the files. */
  lemma IngestLogsCons(s: Settings, st: Repositories.Store, logs: seq<LogFile>)
    requires |logs| > 0 && IngestFile(s, st, logs[0]).Ok?
    ensures var first := IngestFile(s, st, logs[0]).value;
            var rest := IngestLogs(s, first.0, logs[1..]);
            IngestLogs(s, st, logs) == Batch(rest.store, [first.1] + rest.runIds, rest.error)
  {
  }

  /** At most one run per registry entry: the same log file given twice
      is ingested once, and the second attempt is refused because the
      entry is already linked to the new run. */
  lemma SameLogTwice(s: Settings, st: Repositories.Store, log: LogFile)
    requires IngestFile(s, st, log).Ok?
    ensures var (st', id) := IngestFile(s, st, log).value;
            IngestLogs(s, st, [log, log]) == Batch(st', [id], Some(AlreadyLinked(log.name, id)))
  {
    var (st', id) := IngestFile(s, st, log).value;
    SecondAttemptRefused(s, st, log);
    IngestLogsCons(s, st, [log, log]);
    assert [log, log][1..] == [log];
    assert [log][1..] == [];
  }

  /** Once a log is ingested, ingesting it again is refused. */
  lemma SecondAttemptRefused(s: Settings, st: Repositories.Store, log: LogFile)
    requires IngestFile(s, st, log).Ok?
    ensures IngestFile(s, IngestFile(s, st, log).value.0, log)
            == Err(AlreadyLinked(log.name, IngestFile(s, st, log).value.1))
  {
    IngestFileSteps(s, st, log);
    var i := Repositories.FindByLogFileRef(st.registry, log.name).value;
    var readings := ParseLogFile(s, log).value;
    var created := Repositories.CreateRun(st, RunFor(s, st.registry[i].entry, log.name, readings));
    var stored := Repositories.InsertReadings(created.0, created.1, readings).value;
    assert stored.registry == st.registry;
    Repositories.AttachThenFind(stored, log.name, created.1);
  }
}
