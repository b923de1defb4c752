/** The label import service (`import_labels_csv`): a CSV file of
    annotated events is read row by row into labels, each attached to the
    run its own `run_id` cell names or, when that cell is absent or blank,
    to the run the caller supplies. A file that yields no labels is
    refused; otherwise all labels are inserted in one transaction.

    Rows are looked up by their raw header names while the header check
    compares stripped names, so a header cell such as ` event_type`
    passes the check and then leaves every row without an event type;
    `PaddedHeaderLeavesFieldMissing` states this. */
module LabelImport {
  import opened Common
  import opened Models
  import Text
  import Fields
  import Repositories

  datatype LabelError =
    | LabelFileMissing(path: string)
    | MissingHeaderRow(path: string)
    | MissingEventColumns
    | RunIdMissing
    | BadField(fieldError: Fields.FieldError)
    | NoLabels(path: string)
    | Rejected(dbError: Repositories.DbError)

  /** Whether the header has a `run_id` column (after stripping). */
  predicate HasRunIdColumn(header: seq<string>) {
    "run_id" in Text.StrippedNames(header)
  }

  /** Whether a row names its own run: the column exists and the cell is
      present and not blank. */
  predicate OwnRunId(row: map<string, string>, hasColumn: bool) {
    hasColumn && "run_id" in row && !Text.AllSpace(row["run_id"])
  }

  /** The run a row belongs to: its own `run_id` when it names one,
      otherwise the caller's run, which must then be given. */
  function EffectiveRunId(row: map<string, string>, hasColumn: bool, runId: Option<int>)
    : (r: Result<int, LabelError>)
    ensures r.Err? <==> (OwnRunId(row, hasColumn) && Text.ParseInt(row["run_id"]).None?)
                        || (!OwnRunId(row, hasColumn) && runId.None?)
    ensures r.Err? ==> r.error == (if OwnRunId(row, hasColumn) then BadField(Fields.InvalidRunId(row["run_id"]))
                                   else RunIdMissing)
    ensures r.Ok? && OwnRunId(row, hasColumn) ==> Text.ParseInt(row["run_id"]) == Some(r.value)
    ensures r.Ok? && !OwnRunId(row, hasColumn) ==> runId == Some(r.value)
  {
    var own := if hasColumn then Fields.ToInt(Get(row, "run_id")) else Ok(None);
    match own
    case Err(e) => Err(BadField(e))
    case Ok(Some(n)) => Ok(n)
    case Ok(None) => if runId.Some? then Ok(runId.value) else Err(RunIdMissing)
  }

  /** A run id written out in decimal in the row wins over the caller's. */
  lemma WrittenRunIdWins(row: map<string, string>, n: int, runId: Option<int>)
    requires "run_id" in row && row["run_id"] == Text.IntToString(n)
    ensures EffectiveRunId(row, true, runId) == Ok(n)
  {
    Fields.ToIntRoundTrip(n);
  }

  /** An optional numeric cell read as `_to_float(..., allow_empty=True)`
      reads it: nothing for an absent or blank cell, else the number. */
  predicate OptionalNumber(parse: string -> Option<real>, row: map<string, string>, key: string, x: Option<real>) {
    (x.None? <==> key !in row || Text.AllSpace(row[key]))
    && (x.Some? ==> parse(Text.Strip(row[key])) == x)
  }

  /** The four optional measurements of a label. */
  datatype Measures = Measures(volumeMl: Option<real>, distanceCm: Option<real>,
                               waterTempC: Option<real>, confidence: Option<real>)

  /** `volume_ml`, `distance_cm`, `water_temp_c` and `confidence`, read in
      that order; blanks are allowed, so only an unparsable cell fails. */
  function ReadMeasures(parse: string -> Option<real>, row: map<string, string>): (r: Result<Measures, Fields.FieldError>)
    ensures r.Ok? <==> Fields.ToFloat(parse, Get(row, "volume_ml"), "volume_ml", true).Ok?
                       && Fields.ToFloat(parse, Get(row, "distance_cm"), "distance_cm", true).Ok?
                       && Fields.ToFloat(parse, Get(row, "water_temp_c"), "water_temp_c", true).Ok?
                       && Fields.ToFloat(parse, Get(row, "confidence"), "confidence", true).Ok?
    ensures r.Ok? ==> OptionalNumber(parse, row, "volume_ml", r.value.volumeMl)
                      && OptionalNumber(parse, row, "distance_cm", r.value.distanceCm)
                      && OptionalNumber(parse, row, "water_temp_c", r.value.waterTempC)
                      && OptionalNumber(parse, row, "confidence", r.value.confidence)
    ensures r.Err? ==> r.error.InvalidValue?
                       && (r.error.field == "volume_ml" || r.error.field == "distance_cm"
                           || r.error.field == "water_temp_c" || r.error.field == "confidence")
  {
    match ReadOptional(parse, row, "volume_ml")
    case Err(e) => Err(e)
    case Ok(volume) =>
      match ReadOptional(parse, row, "distance_cm")
      case Err(e) => Err(e)
      case Ok(distance) =>
        match ReadOptional(parse, row, "water_temp_c")
        case Err(e) => Err(e)
        case Ok(water) =>
          match ReadOptional(parse, row, "confidence")
          case Err(e) => Err(e)
          case Ok(confidence) => Ok(Measures(volume, distance, water, confidence))
  }

  /** One optional measurement; only an unparsable cell fails. */
  function ReadOptional(parse: string -> Option<real>, row: map<string, string>, key: string)
    : (r: Result<Option<real>, Fields.FieldError>)
    ensures r.Ok? ==> OptionalNumber(parse, row, key, r.value)
    ensures r.Err? ==> r.error.InvalidValue? && r.error.field == key
  {
    Fields.ToFloat(parse, Get(row, key), key, true)
  }

  /** One data row: the run is settled first, then `event_type` and
      `event_time_s` (both required), then the optional measurements;
      the first failure is the error. */
  function ParseLabelRow(parse: string -> Option<real>, hasColumn: bool, runId: Option<int>, row: map<string, string>)
    : (r: Result<LabelEvent, LabelError>)
    ensures r.Ok? <==> EffectiveRunId(row, hasColumn, runId).Ok?
                       && Text.CleanStr(Get(row, "event_type")).Some?
                       && Fields.ToFloat(parse, Get(row, "event_time_s"), "event_time_s", false).Ok?
                       && ReadMeasures(parse, row).Ok?
    ensures r.Err? ==> r.error.RunIdMissing? || r.error.BadField?
    ensures EffectiveRunId(row, hasColumn, runId).Err? ==> r == Err(EffectiveRunId(row, hasColumn, runId).error)
    ensures r.Err? && !r.error.RunIdMissing? && !(r.error.BadField? && r.error.fieldError.InvalidRunId?)
            ==> EffectiveRunId(row, hasColumn, runId).Ok?
    ensures r.Ok? ==> r.value.runId == EffectiveRunId(row, hasColumn, runId).value
    ensures r.Ok? ==> r.value.eventType == Text.Strip(row["event_type"]) && |r.value.eventType| > 0
    ensures r.Ok? ==> "event_time_s" in row && parse(Text.Strip(row["event_time_s"])) == Some(r.value.eventTimeS)
    ensures r.Ok? ==> r.value.eventTs == Text.CleanStr(Get(row, "event_ts"))
                      && r.value.locationLabel == Text.CleanStr(Get(row, "location_label"))
                      && r.value.source == Text.CleanStr(Get(row, "source"))
                      && r.value.notes == Text.CleanStr(Get(row, "notes"))
    ensures r.Ok? ==> OptionalNumber(parse, row, "volume_ml", r.value.volumeMl)
                      && OptionalNumber(parse, row, "distance_cm", r.value.distanceCm)
                      && OptionalNumber(parse, row, "water_temp_c", r.value.waterTempC)
                      && OptionalNumber(parse, row, "confidence", r.value.confidence)
  {
    match EffectiveRunId(row, hasColumn, runId)
    case Err(e) => Err(e)
    case Ok(id) =>
      match Fields.RequiredStr(Get(row, "event_type"), "event_type")
      case Err(e) => Err(BadField(e))
      case Ok(eventType) =>
        match Fields.ToFloat(parse, Get(row, "event_time_s"), "event_time_s", false)
        case Err(e) => Err(BadField(e))
        case Ok(t) =>
          match ReadMeasures(parse, row)
          case Err(e) => Err(BadField(e))
          case Ok(m) =>
            Ok(LabelEvent(eventType, t.value, id, Text.CleanStr(Get(row, "event_ts")), m.volumeMl,
                          Text.CleanStr(Get(row, "location_label")), m.distanceCm, m.waterTempC,
                          m.confidence, Text.CleanStr(Get(row, "source")), Text.CleanStr(Get(row, "notes"))))
  }

  /** A row keyed by a padded header name has no `event_type` cell: once
      its run is settled it fails as a missing value. */
  lemma PaddedHeaderLeavesFieldMissing(parse: string -> Option<real>, hasColumn: bool, runId: Option<int>,
                                       row: map<string, string>)
    requires "event_type" !in row
    requires EffectiveRunId(row, hasColumn, runId).Ok?
    ensures ParseLabelRow(parse, hasColumn, runId, row) == Err(BadField(Fields.MissingValue("event_type")))
  {
  }

  /** Whether the (stripped) header has both event columns. */
  predicate HasEventColumns(header: seq<string>) {
    "event_type" in Text.StrippedNames(header) && "event_time_s" in Text.StrippedNames(header)
  }

  /** `_parse_labels_csv`: the file must exist, have a header row and both
      event columns; the rows are then read in file order. */
  function ParseLabelsCsv(parse: string -> Option<real>, file: Option<CsvTable>, path: string, runId: Option<int>)
    : (r: Result<seq<LabelEvent>, LabelError>)
    ensures r == Err(LabelFileMissing(path)) <==> file.None?
    ensures r == Err(MissingHeaderRow(path)) <==> file.Some? && file.value.header.None?
    ensures r == Err(MissingEventColumns) <==> file.Some? && file.value.header.Some?
                                               && !HasEventColumns(file.value.header.value)
    ensures r.Ok? ==> file.Some? && file.value.header.Some? && |r.value| == |file.value.rows|
    ensures r.Ok? ==> forall i :: 0 <= i < |r.value| ==>
                        ParseLabelRow(parse, HasRunIdColumn(file.value.header.value), runId, file.value.rows[i])
                        == Ok(r.value[i])
    ensures r.Err? && !r.error.LabelFileMissing? && !r.error.MissingHeaderRow? && !r.error.MissingEventColumns?
            ==> file.Some? && file.value.header.Some?
                && (exists k :: 0 <= k < |file.value.rows|
                      && ParseLabelRow(parse, HasRunIdColumn(file.value.header.value), runId, file.value.rows[k])
                         == Err(r.error))
  {
    match file
    case None => Err(LabelFileMissing(path))
    case Some(t) =>
      match t.header
      case None => Err(MissingHeaderRow(path))
      case Some(header) =>
        if !HasEventColumns(header) then Err(MissingEventColumns)
        else ParseLabelRows(parse, HasRunIdColumn(header), runId, t.rows)
  }

  /** The data rows read in file order, stopping at the first failure. */
  function ParseLabelRows(parse: string -> Option<real>, hasColumn: bool, runId: Option<int>,
                          rows: seq<map<string, string>>)
    : (r: Result<seq<LabelEvent>, LabelError>)
    ensures r.Ok? ==> |r.value| == |rows|
                      && forall i :: 0 <= i < |rows| ==> ParseLabelRow(parse, hasColumn, runId, rows[i]) == Ok(r.value[i])
    ensures r.Err? ==> exists k :: 0 <= k < |rows| && ParseLabelRow(parse, hasColumn, runId, rows[k]) == Err(r.error)
                                   && forall j :: 0 <= j < k ==> ParseLabelRow(parse, hasColumn, runId, rows[j]).Ok?
    ensures r.Err? ==> r.error.RunIdMissing? || r.error.BadField?
  {
    match ParseAll(rows, row => ParseLabelRow(parse, hasColumn, runId, row))
    case Ok(labels) => Ok(labels)
    case Err(e) =>
      ghost var k :| 0 <= k < |rows| && ParseLabelRow(parse, hasColumn, runId, rows[k]) == Err(e);
      Err(e)
  }

  /** The store step of `import_labels_csv`: an empty batch is refused
      before the store is touched; otherwise every label is inserted, or,
      when one names a missing run, none is and the store is unchanged.
      The result carries the new store and the number of labels. */
  function StoreLabels(st: Repositories.Store, labels: seq<LabelEvent>, path: string)
    : (r: Result<(Repositories.Store, nat), LabelError>)
    ensures r.Ok? <==> |labels| > 0 && forall j :: 0 <= j < |labels| ==> labels[j].runId in st.runs
    ensures r == Err(NoLabels(path)) <==> |labels| == 0
    ensures r.Ok? ==> r.value.1 == |labels| && r.value.0 == st.(labels := st.labels + labels)
    ensures r.Ok? && Repositories.Valid(st) ==> Repositories.Valid(r.value.0)
    ensures r.Err? && r.error != NoLabels(path)
            ==> r.error.Rejected? && exists j :: 0 <= j < |labels| && labels[j].runId !in st.runs
                                                 && r.error.dbError == Repositories.ForeignKeyViolation(labels[j].runId)
  {
    if |labels| == 0 then Err(NoLabels(path))
    else match Repositories.InsertLabels(st, labels)
      case Err(e) => Err(Rejected(e))
      case Ok(st') => Ok((st', |labels|))
  }

  /** `import_labels_csv`: the file is read in full before the store is
      touched, so a file that fails to parse changes nothing; a file that
      parses is stored as `StoreLabels` says, counting one label per data
      row. */
  function ImportLabelsCsv(parse: string -> Option<real>, st: Repositories.Store, file: Option<CsvTable>,
                           path: string, runId: Option<int>)
    : (r: Result<(Repositories.Store, nat), LabelError>)
    ensures ParseLabelsCsv(parse, file, path, runId).Err? ==> r == Err(ParseLabelsCsv(parse, file, path, runId).error)
    ensures ParseLabelsCsv(parse, file, path, runId).Ok?
            ==> r == StoreLabels(st, ParseLabelsCsv(parse, file, path, runId).value, path)
    ensures r.Ok? ==> file.Some? && r.value.1 == |file.value.rows|
  {
    match ParseLabelsCsv(parse, file, path, runId)
    case Err(e) => Err(e)
    case Ok(labels) => StoreLabels(st, labels, path)
  }

  /** Without a `run_id` column and without a run from the caller, a file
      with any data row is refused for want of a run id, whatever the
      row holds. */
  lemma RunIdRequired(parse: string -> Option<real>, st: Repositories.Store, t: CsvTable, path: string)
    requires t.header.Some? && HasEventColumns(t.header.value) && !HasRunIdColumn(t.header.value)
    requires |t.rows| > 0
    ensures ImportLabelsCsv(parse, st, Some(t), path, None) == Err(RunIdMissing)
  {
    assert ParseLabelRow(parse, false, None, t.rows[0]) == Err(RunIdMissing);
  }

  /** The number of labels attached to a run
      (`SELECT COUNT(*) FROM labels WHERE run_id = ?`). */
  function CountFor(labels: seq<LabelEvent>, runId: int): nat {
    if |labels| == 0 then 0
    else CountFor(labels[..|labels| - 1], runId) + (if labels[|labels| - 1].runId == runId then 1 else 0)
  }

  lemma {:induction false} CountForAppend(a: seq<LabelEvent>, b: seq<LabelEvent>, runId: int)
    ensures CountFor(a + b, runId) == CountFor(a, runId) + CountFor(b, runId)
  {
    if |b| > 0 {
      assert (a + b)[..|a + b| - 1] == a + b[..|b| - 1];
      CountForAppend(a, b[..|b| - 1], runId);
    } else {
      assert a + b == a;
    }
  }

  lemma {:induction false} CountForAll(labels: seq<LabelEvent>, runId: int)
    requires forall i :: 0 <= i < |labels| ==> labels[i].runId == runId
    ensures CountFor(labels, runId) == |labels|
  {
    if |labels| > 0 {
      CountForAll(labels[..|labels| - 1], runId);
    }
  }

  /** Importing a file without a `run_id` column under the caller's run
      adds one label to that run per data row, and reports that count. */
  lemma ImportCountsLabels(parse: string -> Option<real>, st: Repositories.Store, t: CsvTable, path: string,
                           runId: int)
    requires t.header.Some? && !HasRunIdColumn(t.header.value)
    requires ImportLabelsCsv(parse, st, Some(t), path, Some(runId)).Ok?
    ensures var (st', count) := ImportLabelsCsv(parse, st, Some(t), path, Some(runId)).value;
            count == |t.rows| && CountFor(st'.labels, runId) == CountFor(st.labels, runId) + count
  {
    var labels := ParseLabelsCsv(parse, Some(t), path, Some(runId)).value;
    forall i | 0 <= i < |labels| ensures labels[i].runId == runId {
      assert ParseLabelRow(parse, false, Some(runId), t.rows[i]) == Ok(labels[i]);
    }
    CountForAll(labels, runId);
    CountForAppend(st.labels, labels, runId);
  }
}
