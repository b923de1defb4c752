/** `import_run_registry`: reading the lab's run-tracking sheet from a CSV
    export or an `.xlsx` workbook, mapping every row that carries a run id
    to a `RunRegistryEntry`, and upserting the entries by external run id. */
module RegistryImport {
  import opened Common
  import opened Models
  import Text
  import Timestamps
  import Xlsx
  import Repositories

  datatype RegistryError =
    | FileMissing(name: string)
    | MissingHeaderRow(name: string)
    | MissingHeaders(missing: seq<string>)
    | SheetError(sheetError: Xlsx.XlsxError)
    | UnsupportedFormat(suffix: string)
    | NoRows(name: string)
    | TimeError(timeError: Timestamps.TimeError)

  /** What the file at the import path holds, as the CSV reader and as the
      zip reader would each deliver it. */
  datatype RegistryFile = RegistryFile(table: CsvTable, workbook: Xlsx.Workbook)

  /** The normalised headers a sheet must have, in the order they are reported. */
  const RequiredHeaders: seq<string> := ["runid", "test status", "log file"]

  // ----------------------------------------------------------------- headers

  /** The workbook reader drops empty header cells; the CSV reader keeps them. */
  predicate Kept(h: string, skipEmpty: bool) {
    !(skipEmpty && h == "")
  }

  /** The normalised form of each header the reader keeps, `None` for one
      it drops. */
  function Forms(headers: seq<string>, skipEmpty: bool): (r: seq<Option<string>>)
    ensures |r| == |headers|
  {
    seq(|headers|, i requires 0 <= i < |headers| =>
          if Kept(headers[i], skipEmpty) then Some(Text.NormalizeHeader(headers[i])) else None)
  }

  /** A dictionary from headers paired with their keys, a later pair
      replacing an earlier one with the same key. */
  function Dict(headers: seq<string>, forms: seq<Option<string>>): map<string, string>
    requires |forms| == |headers|
  {
    if |headers| == 0 then map[]
    else
      var m := Dict(headers[..|headers| - 1], forms[..|headers| - 1]);
      match forms[|headers| - 1]
      case None => m
      case Some(k) => m[k := headers[|headers| - 1]]
  }

  /** The `normalized` dictionary: each kept header under its normalised
      form, a later header replacing an earlier one with the same form. */
  function NormalizedHeaders(headers: seq<string>, skipEmpty: bool): map<string, string> {
    Dict(headers, Forms(headers, skipEmpty))
  }

  /** The last position whose key is `key`. */
  function LastForm(forms: seq<Option<string>>, key: string): (r: Option<nat>)
    ensures r.Some? ==> r.value < |forms| && forms[r.value] == Some(key)
                        && forall j :: r.value < j < |forms| ==> forms[j] != Some(key)
    ensures r.None? ==> forall j :: 0 <= j < |forms| ==> forms[j] != Some(key)
  {
    if |forms| == 0 then None
    else if forms[|forms| - 1] == Some(key) then Some(|forms| - 1)
    else
      var init := forms[..|forms| - 1];
      assert forall j :: 0 <= j < |init| ==> forms[j] == init[j];
      LastForm(init, key)
  }

  lemma {:induction false} DictIsLast(headers: seq<string>, forms: seq<Option<string>>, key: string)
    requires |forms| == |headers|
    ensures key in Dict(headers, forms) <==> LastForm(forms, key).Some?
    ensures key in Dict(headers, forms) ==> Dict(headers, forms)[key] == headers[LastForm(forms, key).value]
  {
    if |headers| > 0 {
      var n := |headers| - 1;
      DictIsLast(headers[..n], forms[..n], key);
      if forms[n] != Some(key) {
        assert LastForm(forms, key) == LastForm(forms[..n], key);
        if LastForm(forms[..n], key).Some? {
          assert headers[LastForm(forms[..n], key).value] == headers[..n][LastForm(forms[..n], key).value];
        }
      }
    }
  }

  /** A normalised name is in the dictionary exactly when some kept header
      normalises to it, and it maps to the last such header. */
  lemma NormalizedHeadersIsLast(headers: seq<string>, skipEmpty: bool, key: string)
    ensures key in NormalizedHeaders(headers, skipEmpty)
            <==> exists i :: 0 <= i < |headers| && Kept(headers[i], skipEmpty) && Text.NormalizeHeader(headers[i]) == key
    ensures key in NormalizedHeaders(headers, skipEmpty)
            ==> exists i :: 0 <= i < |headers| && Kept(headers[i], skipEmpty) && Text.NormalizeHeader(headers[i]) == key
                            && NormalizedHeaders(headers, skipEmpty)[key] == headers[i]
                            && forall j :: i < j < |headers| && Kept(headers[j], skipEmpty)
                                           ==> Text.NormalizeHeader(headers[j]) != key
  {
    var forms := Forms(headers, skipEmpty);
    DictIsLast(headers, forms, key);
    match LastForm(forms, key)
    case None =>
      forall i | 0 <= i < |headers| && Kept(headers[i], skipEmpty)
        ensures Text.NormalizeHeader(headers[i]) != key
      {
        FormAt(headers, skipEmpty, i);
      }
    case Some(i) =>
      FormAt(headers, skipEmpty, i);
      forall j | i < j < |headers| && Kept(headers[j], skipEmpty)
        ensures Text.NormalizeHeader(headers[j]) != key
      {
        FormAt(headers, skipEmpty, j);
      }
  }

  lemma FormAt(headers: seq<string>, skipEmpty: bool, i: int)
    requires 0 <= i < |headers|
    ensures Forms(headers, skipEmpty)[i]
            == if Kept(headers[i], skipEmpty) then Some(Text.NormalizeHeader(headers[i])) else None
  {
  }

  /** Every key of the dictionary is already normalised, and so is what
      its header normalises to. */
  lemma NormalizedHeadersKeyIsNormal(headers: seq<string>, skipEmpty: bool, key: string)
    requires key in NormalizedHeaders(headers, skipEmpty)
    ensures Text.NormalizeHeader(key) == key
    ensures Text.NormalizeHeader(NormalizedHeaders(headers, skipEmpty)[key]) == key
  {
    NormalizedHeadersIsLast(headers, skipEmpty, key);
    var i :| 0 <= i < |headers| && Kept(headers[i], skipEmpty) && Text.NormalizeHeader(headers[i]) == key
             && NormalizedHeaders(headers, skipEmpty)[key] == headers[i];
    Text.NormalizeHeaderIdempotent(headers[i]);
  }

  /** The headers of `hs` that `normalized` lacks, kept in the order of `hs`. */
  function Absent(hs: seq<string>, normalized: map<string, string>): (r: seq<string>)
    ensures forall h :: h in r <==> h in hs && h !in normalized
  {
    if |hs| == 0 then []
    else (if hs[0] in normalized then [] else [hs[0]]) + Absent(hs[1..], normalized)
  }

  /** `_validate_required_headers`: passes the dictionary through when all
      three required headers are present, and otherwise reports exactly the
      absent ones, in the order `runid`, `test status`, `log file`. */
  function ValidateRequiredHeaders(normalized: map<string, string>): (r: Result<map<string, string>, RegistryError>)
    ensures r.Ok? <==> forall h :: h in RequiredHeaders ==> h in normalized
    ensures r.Ok? ==> r.value == normalized
    ensures r.Err? ==> r.error.MissingHeaders?
                       && forall h :: h in r.error.missing <==> h in RequiredHeaders && h !in normalized
    ensures r.Err? ==> r.error.missing == Absent(RequiredHeaders, normalized)
  {
    var missing := (if "runid" in normalized then [] else ["runid"])
                   + (if "test status" in normalized then [] else ["test status"])
                   + (if "log file" in normalized then [] else ["log file"]);
    assert Absent(["log file"], normalized) == if "log file" in normalized then [] else ["log file"] by {
      assert ["log file"][1..] == [];
    }
    assert Absent(["test status", "log file"], normalized)
           == (if "test status" in normalized then [] else ["test status"]) + Absent(["log file"], normalized) by {
      assert ["test status", "log file"][1..] == ["log file"];
    }
    assert Absent(RequiredHeaders, normalized) == missing by {
      assert RequiredHeaders[1..] == ["test status", "log file"];
    }
    if |missing| > 0 then Err(MissingHeaders(missing)) else Ok(normalized)
  }

  /** The missing headers are listed in the order of `RequiredHeaders`, so
      an export lacking only its run id column reports just `runid`. */
  lemma OnlyRunIdMissing(normalized: map<string, string>)
    requires "runid" !in normalized && "test status" in normalized && "log file" in normalized
    ensures ValidateRequiredHeaders(normalized) == Err(MissingHeaders(["runid"]))
  {
    assert ["runid"] + [] + [] == ["runid"];
  }

  // ---------------------------------------------------------------- row map

  /** `_clean_str` of the cell under the column whose normalised header
      is `name`, absent when the sheet has no such column. */
  function Column(row: map<string, string>, normalized: map<string, string>, name: string): Option<string> {
    if name in normalized then Text.CleanStr(Get(row, normalized[name])) else None
  }

  /** A column value is absent when the sheet has no such column, the row
      has no such cell, or the cell is blank; otherwise it is the cell
      without surrounding whitespace. */
  lemma ColumnMeaning(row: map<string, string>, normalized: map<string, string>, name: string)
    ensures Column(row, normalized, name).None?
            <==> name !in normalized || normalized[name] !in row || Text.AllSpace(row[normalized[name]])
    ensures Column(row, normalized, name).Some?
            ==> Column(row, normalized, name).value == Text.Strip(row[normalized[name]])
                && |Column(row, normalized, name).value| > 0
  {
  }

  /** The entry for a row with run id `externalRunId` and normalised timestamp `ts`. */
  function BuildEntry(row: map<string, string>, normalized: map<string, string>, externalRunId: string,
                      ts: Option<string>, sourceFile: string, rowNumber: int): RunRegistryEntry {
    RunRegistryEntry(
      externalRunId := externalRunId,
      sourceFile := sourceFile,
      sourceRowNumber := rowNumber,
      status := Column(row, normalized, "test status"),
      plannedOrRecordedTs := ts,
      testDevice := Column(row, normalized, "test device"),
      sensorCap := Column(row, normalized, "sensor cap"),
      diaperType := Column(row, normalized, "diaper type"),
      testProtocol := Column(row, normalized, "test protocol"),
      findingsComments := Column(row, normalized, "findings / comments"),
      testResultRef := Column(row, normalized, "test result"),
      logFileRef := Column(row, normalized, "log file"))
  }

  /** `_map_row`: no entry for a row whose run id cell is absent or blank;
      otherwise an entry whose every field is the cleaned cell of its
      column, whose timestamp is normalised, and whose provenance is the
      file name and row number. A timestamp error aborts the import. */
  function MapRow(lib: Timestamps.Lib, row: map<string, string>, normalized: map<string, string>,
                  sourceFile: string, rowNumber: int, defaultTz: string)
    : (r: Result<Option<RunRegistryEntry>, RegistryError>)
    requires "runid" in normalized
    ensures r == Ok(None) <==> Column(row, normalized, "runid").None?
    ensures r.Err? <==> Column(row, normalized, "runid").Some?
                        && Timestamps.NormalizeRegistryTimestamp(lib, Column(row, normalized, "timestamp"), defaultTz).Err?
    ensures r.Err? ==> r.error == TimeError(Timestamps.NormalizeRegistryTimestamp(lib, Column(row, normalized, "timestamp"), defaultTz).error)
    ensures r.Ok? && r.value.Some? ==>
              && Some(r.value.value.externalRunId) == Column(row, normalized, "runid")
              && r.value.value.sourceFile == sourceFile && r.value.value.sourceRowNumber == rowNumber
  {
    match Column(row, normalized, "runid")
    case None => Ok(None)
    case Some(externalRunId) =>
      match Timestamps.NormalizeRegistryTimestamp(lib, Column(row, normalized, "timestamp"), defaultTz)
      case Err(e) => Err(TimeError(e))
      case Ok(ts) => Ok(Some(BuildEntry(row, normalized, externalRunId, ts, sourceFile, rowNumber)))
  }

  /** Every other field of a mapped row is the cleaned cell of its column:
      the timestamp after normalisation, the rest as they are. */
  lemma MapRowFields(lib: Timestamps.Lib, row: map<string, string>, normalized: map<string, string>,
                     sourceFile: string, rowNumber: int, defaultTz: string)
    requires "runid" in normalized
    requires MapRow(lib, row, normalized, sourceFile, rowNumber, defaultTz).Ok?
    requires MapRow(lib, row, normalized, sourceFile, rowNumber, defaultTz).value.Some?
    ensures var e := MapRow(lib, row, normalized, sourceFile, rowNumber, defaultTz).value.value;
            && e.status == Column(row, normalized, "test status")
            && Timestamps.NormalizeRegistryTimestamp(lib, Column(row, normalized, "timestamp"), defaultTz) == Ok(e.plannedOrRecordedTs)
            && e.testDevice == Column(row, normalized, "test device")
            && e.sensorCap == Column(row, normalized, "sensor cap")
            && e.diaperType == Column(row, normalized, "diaper type")
            && e.findingsComments == Column(row, normalized, "findings / comments")
            && e.testProtocol == Column(row, normalized, "test protocol")
            && e.testResultRef == Column(row, normalized, "test result")
            && e.logFileRef == Column(row, normalized, "log file")
  {
  }

  /** The loop that gathers mapped rows: rows are taken in order, the
      first error stops it, and rows that yield nothing are skipped. */
  function Collect<T, E>(rs: seq<Result<Option<T>, E>>): (r: Result<seq<T>, E>)
    ensures r.Ok? ==> |r.value| <= |rs|
  {
    if |rs| == 0 then Ok([])
    else match rs[0]
      case Err(e) => Err(e)
      case Ok(head) =>
        match Collect(rs[1..])
        case Err(e) => Err(e)
        case Ok(rest) => Ok(if head.Some? then [head.value] + rest else rest)
  }

  /** Gathering fails exactly when some row fails, with the first failure. */
  lemma {:induction false} CollectFails<T, E>(rs: seq<Result<Option<T>, E>>)
    ensures Collect(rs).Err? <==> exists i :: 0 <= i < |rs| && rs[i].Err?
    ensures Collect(rs).Err? ==> exists i :: 0 <= i < |rs| && rs[i] == Err(Collect(rs).error)
                                             && forall j :: 0 <= j < i ==> rs[j].Ok?
  {
    if |rs| > 0 && rs[0].Ok? {
      CollectFails(rs[1..]);
      assert forall i :: 1 <= i < |rs| ==> rs[i] == rs[1..][i - 1];
      if Collect(rs[1..]).Err? {
        var i :| 0 <= i < |rs[1..]| && rs[1..][i] == Err(Collect(rs[1..]).error)
                 && forall j :: 0 <= j < i ==> rs[1..][j].Ok?;
        assert rs[i + 1] == Err(Collect(rs).error);
      }
    }
  }

  /** What is gathered is exactly what the rows yield. */
  lemma {:induction false} CollectMembers<T, E>(rs: seq<Result<Option<T>, E>>)
    requires Collect(rs).Ok?
    ensures forall x :: x in Collect(rs).value <==> exists i :: 0 <= i < |rs| && rs[i] == Ok(Some(x))
  {
    if |rs| > 0 {
      CollectMembers(rs[1..]);
      assert forall i :: 1 <= i < |rs| ==> rs[i] == rs[1..][i - 1];
      forall x | exists i :: 0 <= i < |rs| && rs[i] == Ok(Some(x))
        ensures x in Collect(rs).value
      {
        var i :| 0 <= i < |rs| && rs[i] == Ok(Some(x));
        if i > 0 {
          assert rs[1..][i - 1] == Ok(Some(x));
        }
      }
    }
  }

  /** A value a row yields is gathered. */
  lemma CollectHas<T, E>(rs: seq<Result<Option<T>, E>>, i: int) returns (j: nat)
    requires Collect(rs).Ok? && 0 <= i < |rs| && rs[i].Ok? && rs[i].value.Some?
    ensures j < |Collect(rs).value| && Collect(rs).value[j] == rs[i].value.value
  {
    CollectMembers(rs);
    assert rs[i].value.value in Collect(rs).value;
    j :| j < |Collect(rs).value| && Collect(rs).value[j] == rs[i].value.value;
  }

  /** When the row at position `i` can only yield a value with key
      `base + i`, the gathered values have strictly increasing keys in
      that range. */
  lemma {:induction false} CollectOrder<T, E>(rs: seq<Result<Option<T>, E>>, key: T -> int, base: int)
    requires Collect(rs).Ok?
    requires forall i :: 0 <= i < |rs| && rs[i].Ok? && rs[i].value.Some? ==> key(rs[i].value.value) == base + i
    ensures forall j :: 0 <= j < |Collect(rs).value| ==> base <= key(Collect(rs).value[j]) < base + |rs|
    ensures forall a, b :: 0 <= a < b < |Collect(rs).value| ==> key(Collect(rs).value[a]) < key(Collect(rs).value[b])
  {
    if |rs| > 0 {
      assert forall i :: 1 <= i < |rs| ==> rs[i] == rs[1..][i - 1];
      CollectOrder(rs[1..], key, base + 1);
    }
  }

  /** A property every yielded value has holds of everything gathered. */
  lemma {:induction false} CollectKeeps<T, E>(rs: seq<Result<Option<T>, E>>, p: T -> bool)
    requires Collect(rs).Ok?
    requires forall i :: 0 <= i < |rs| && rs[i].Ok? && rs[i].value.Some? ==> p(rs[i].value.value)
    ensures forall j :: 0 <= j < |Collect(rs).value| ==> p(Collect(rs).value[j])
  {
    if |rs| > 0 {
      assert forall i :: 1 <= i < |rs| ==> rs[i] == rs[1..][i - 1];
      CollectKeeps(rs[1..], p);
    }
  }

  /** The outcome of `_map_row` for each data row; row `i` is sheet row `first + i`. */
  function Outcomes(lib: Timestamps.Lib, rows: seq<map<string, string>>, normalized: map<string, string>,
                    sourceFile: string, first: int, defaultTz: string)
    : seq<Result<Option<RunRegistryEntry>, RegistryError>>
    requires "runid" in normalized
  {
    seq(|rows|, i requires 0 <= i < |rows| => MapRow(lib, rows[i], normalized, sourceFile, first + i, defaultTz))
  }

  /** Each outcome is an error of the timestamp, or nothing, or an entry
      from this file carrying its row number. */
  lemma OutcomesShape(lib: Timestamps.Lib, rows: seq<map<string, string>>, normalized: map<string, string>,
                      sourceFile: string, first: int, defaultTz: string)
    requires "runid" in normalized
    ensures var outs := Outcomes(lib, rows, normalized, sourceFile, first, defaultTz);
            |outs| == |rows|
            && (forall i :: 0 <= i < |outs| && outs[i].Err? ==> outs[i].error.TimeError?)
            && (forall i :: 0 <= i < |outs| && outs[i].Ok? && outs[i].value.Some?
                           ==> outs[i].value.value.sourceRowNumber == first + i
                               && outs[i].value.value.sourceFile == sourceFile)
  {
    var outs := Outcomes(lib, rows, normalized, sourceFile, first, defaultTz);
    forall i | 0 <= i < |outs|
      ensures outs[i].Err? ==> outs[i].error.TimeError?
      ensures outs[i].Ok? && outs[i].value.Some?
              ==> outs[i].value.value.sourceRowNumber == first + i && outs[i].value.value.sourceFile == sourceFile
    {
      OutcomeAt(lib, rows, normalized, sourceFile, first, defaultTz, i);
    }
  }

  /** The outcome gathered for data row `i`. */
  lemma OutcomeAt(lib: Timestamps.Lib, rows: seq<map<string, string>>, normalized: map<string, string>,
                  sourceFile: string, first: int, defaultTz: string, i: int)
    requires "runid" in normalized && 0 <= i < |rows|
    ensures |Outcomes(lib, rows, normalized, sourceFile, first, defaultTz)| == |rows|
    ensures Outcomes(lib, rows, normalized, sourceFile, first, defaultTz)[i]
            == MapRow(lib, rows[i], normalized, sourceFile, first + i, defaultTz)
  {
  }

  /** The data-row loop: rows without a run id are skipped and the first
      timestamp error stops the import. */
  function MapRows(lib: Timestamps.Lib, rows: seq<map<string, string>>, normalized: map<string, string>,
                   sourceFile: string, first: int, defaultTz: string)
    : (r: Result<seq<RunRegistryEntry>, RegistryError>)
    requires "runid" in normalized
    ensures r.Err? ==> r.error.TimeError?
    ensures r.Ok? ==> |r.value| <= |rows|
    ensures r.Ok? ==> forall j :: 0 <= j < |r.value| ==> r.value[j].sourceFile == sourceFile
    ensures r.Ok? ==> forall j :: 0 <= j < |r.value| ==> first <= r.value[j].sourceRowNumber < first + |rows|
    ensures r.Ok? ==> forall i, j :: 0 <= i < j < |r.value| ==> r.value[i].sourceRowNumber < r.value[j].sourceRowNumber
  {
    var outs := Outcomes(lib, rows, normalized, sourceFile, first, defaultTz);
    OutcomesShape(lib, rows, normalized, sourceFile, first, defaultTz);
    match Collect(outs)
    case Err(e) =>
      CollectFails(outs);
      Err(e)
    case Ok(es) =>
      CollectOrder(outs, (e: RunRegistryEntry) => e.sourceRowNumber, first);
      CollectKeeps(outs, (e: RunRegistryEntry) => e.sourceFile == sourceFile);
      Ok(es)
  }

  /** Every entry is what `_map_row` made of the row it names. */
  lemma MapRowsEntryAt(lib: Timestamps.Lib, rows: seq<map<string, string>>, normalized: map<string, string>,
                       sourceFile: string, first: int, defaultTz: string, es: seq<RunRegistryEntry>, j: int)
    requires "runid" in normalized
    requires MapRows(lib, rows, normalized, sourceFile, first, defaultTz) == Ok(es)
    requires 0 <= j < |es|
    ensures first <= es[j].sourceRowNumber < first + |rows|
    ensures MapRow(lib, rows[es[j].sourceRowNumber - first], normalized, sourceFile, es[j].sourceRowNumber, defaultTz)
            == Ok(Some(es[j]))
  {
    var i := EntryOrigin(lib, rows, normalized, sourceFile, first, defaultTz, es, j);
    OutcomeAt(lib, rows, normalized, sourceFile, first, defaultTz, i);
    ShiftedIndex(rows, es[j].sourceRowNumber, first, i);
  }

  lemma ShiftedIndex<T>(xs: seq<T>, n: int, base: int, i: int)
    requires n == base + i && 0 <= i < |xs|
    ensures 0 <= n - base < |xs| && xs[n - base] == xs[i]
  {
  }

  /** The data row an entry came from. */
  lemma EntryOrigin(lib: Timestamps.Lib, rows: seq<map<string, string>>, normalized: map<string, string>,
                    sourceFile: string, first: int, defaultTz: string, es: seq<RunRegistryEntry>, j: int)
    returns (i: nat)
    requires "runid" in normalized
    requires MapRows(lib, rows, normalized, sourceFile, first, defaultTz) == Ok(es)
    requires 0 <= j < |es|
    ensures i < |rows| && es[j].sourceRowNumber == first + i
    ensures Outcomes(lib, rows, normalized, sourceFile, first, defaultTz)[i] == Ok(Some(es[j]))
  {
    var outs := Outcomes(lib, rows, normalized, sourceFile, first, defaultTz);
    OutcomesShape(lib, rows, normalized, sourceFile, first, defaultTz);
    assert Collect(outs) == Ok(es);
    CollectMembers(outs);
    assert es[j] in Collect(outs).value;
    i :| 0 <= i < |outs| && outs[i] == Ok(Some(es[j]));
  }

  /** No row with a run id is lost: each one has an entry carrying its row number. */
  lemma MapRowsComplete(lib: Timestamps.Lib, rows: seq<map<string, string>>, normalized: map<string, string>,
                        sourceFile: string, first: int, defaultTz: string)
    requires "runid" in normalized
    requires MapRows(lib, rows, normalized, sourceFile, first, defaultTz).Ok?
    ensures var es := MapRows(lib, rows, normalized, sourceFile, first, defaultTz).value;
            forall i :: 0 <= i < |rows| && Column(rows[i], normalized, "runid").Some?
                        ==> exists j :: 0 <= j < |es| && es[j].sourceRowNumber == first + i
  {
    forall i | 0 <= i < |rows| && Column(rows[i], normalized, "runid").Some?
      ensures exists j :: 0 <= j < |MapRows(lib, rows, normalized, sourceFile, first, defaultTz).value|
                          && MapRows(lib, rows, normalized, sourceFile, first, defaultTz).value[j].sourceRowNumber == first + i
    {
      var j := RowKept(lib, rows, normalized, sourceFile, first, defaultTz, i);
    }
  }

  /** Where the entry of a data row with a run id ends up. */
  lemma RowKept(lib: Timestamps.Lib, rows: seq<map<string, string>>, normalized: map<string, string>,
                sourceFile: string, first: int, defaultTz: string, i: int)
    returns (j: nat)
    requires "runid" in normalized
    requires MapRows(lib, rows, normalized, sourceFile, first, defaultTz).Ok?
    requires 0 <= i < |rows| && Column(rows[i], normalized, "runid").Some?
    ensures j < |MapRows(lib, rows, normalized, sourceFile, first, defaultTz).value|
    ensures MapRows(lib, rows, normalized, sourceFile, first, defaultTz).value[j].sourceRowNumber == first + i
  {
    var outs := Outcomes(lib, rows, normalized, sourceFile, first, defaultTz);
    OutcomeAt(lib, rows, normalized, sourceFile, first, defaultTz, i);
    assert MapRows(lib, rows, normalized, sourceFile, first, defaultTz) == Collect(outs);
    CollectFails(outs);
    assert outs[i].Ok?;
    j := CollectHas(outs, i);
  }

  /** The import fails exactly when some row with a run id has a timestamp
      that cannot be normalised. */
  lemma MapRowsFails(lib: Timestamps.Lib, rows: seq<map<string, string>>, normalized: map<string, string>,
                     sourceFile: string, first: int, defaultTz: string)
    requires "runid" in normalized
    ensures MapRows(lib, rows, normalized, sourceFile, first, defaultTz).Err?
            <==> exists i :: 0 <= i < |rows| && MapRow(lib, rows[i], normalized, sourceFile, first + i, defaultTz).Err?
  {
    var outs := Outcomes(lib, rows, normalized, sourceFile, first, defaultTz);
    assert MapRows(lib, rows, normalized, sourceFile, first, defaultTz) == Collect(outs);
    CollectFails(outs);
    if exists i :: 0 <= i < |rows| && MapRow(lib, rows[i], normalized, sourceFile, first + i, defaultTz).Err? {
      var i :| 0 <= i < |rows| && MapRow(lib, rows[i], normalized, sourceFile, first + i, defaultTz).Err?;
      OutcomeAt(lib, rows, normalized, sourceFile, first, defaultTz, i);
    }
    if Collect(outs).Err? {
      var i :| 0 <= i < |outs| && outs[i].Err?;
      OutcomeAt(lib, rows, normalized, sourceFile, first, defaultTz, i);
    }
  }

  /** The error reported is that of the first row that fails. */
  lemma MapRowsFirstError(lib: Timestamps.Lib, rows: seq<map<string, string>>, normalized: map<string, string>,
                          sourceFile: string, first: int, defaultTz: string)
    requires "runid" in normalized
    requires MapRows(lib, rows, normalized, sourceFile, first, defaultTz).Err?
    ensures exists i :: 0 <= i < |rows|
              && MapRow(lib, rows[i], normalized, sourceFile, first + i, defaultTz)
                 == Err(MapRows(lib, rows, normalized, sourceFile, first, defaultTz).error)
              && forall k :: 0 <= k < i ==> MapRow(lib, rows[k], normalized, sourceFile, first + k, defaultTz).Ok?
  {
    var outs := Outcomes(lib, rows, normalized, sourceFile, first, defaultTz);
    assert MapRows(lib, rows, normalized, sourceFile, first, defaultTz) == Collect(outs);
    CollectFails(outs);
    var i :| 0 <= i < |outs| && outs[i] == Err(Collect(outs).error) && forall j :: 0 <= j < i ==> outs[j].Ok?;
    OutcomeAt(lib, rows, normalized, sourceFile, first, defaultTz, i);
    forall k | 0 <= k < i
      ensures MapRow(lib, rows[k], normalized, sourceFile, first + k, defaultTz).Ok?
    {
      OutcomeAt(lib, rows, normalized, sourceFile, first, defaultTz, k);
    }
  }

  // ------------------------------------------------------------ the readers

  /** `_parse_registry_csv`: the file must exist and have a header row; all
      headers count, and data rows are numbered from 2. */
  function ParseRegistryCsv(lib: Timestamps.Lib, file: Option<CsvTable>, name: string, defaultTz: string)
    : (r: Result<seq<RunRegistryEntry>, RegistryError>)
    ensures r == Err(FileMissing(name)) <==> file.None?
    ensures r == Err(MissingHeaderRow(name)) <==> file.Some? && file.value.header.None?
    ensures file.Some? && file.value.header.Some?
            ==> var n := NormalizedHeaders(file.value.header.value, false);
                (r.Err? && r.error.MissingHeaders? <==> ValidateRequiredHeaders(n).Err?)
                && (ValidateRequiredHeaders(n).Err? ==> r == Err(ValidateRequiredHeaders(n).error))
    ensures r.Err? ==> !r.error.UnsupportedFormat? && !r.error.NoRows?
    ensures r.Ok? ==> forall j :: 0 <= j < |r.value|
                        ==> r.value[j].sourceFile == name && 2 <= r.value[j].sourceRowNumber < 2 + |file.value.rows|
    ensures file.Some? && file.value.header.Some?
            && ValidateRequiredHeaders(NormalizedHeaders(file.value.header.value, false)).Ok?
            ==> r == MapRows(lib, file.value.rows, NormalizedHeaders(file.value.header.value, false), name, 2, defaultTz)
  {
    match file
    case None => Err(FileMissing(name))
    case Some(t) =>
      match t.header
      case None => Err(MissingHeaderRow(name))
      case Some(headers) =>
        match ValidateRequiredHeaders(NormalizedHeaders(headers, false))
        case Err(e) => Err(e)
        case Ok(normalized) => MapRows(lib, t.rows, normalized, name, 2, defaultTz)
  }

  /** `header_to_pos`: each header at the last position it occupies. */
  function HeaderPositions(headers: seq<string>): (r: map<string, nat>)
    ensures forall h :: h in r <==> h in headers
    ensures forall h :: h in r ==> r[h] < |headers| && headers[r[h]] == h
                                   && forall j :: r[h] < j < |headers| ==> headers[j] != h
  {
    if |headers| == 0 then map[]
    else
      var init := headers[..|headers| - 1];
      var m := HeaderPositions(init);
      var r := m[headers[|headers| - 1] := |headers| - 1];
      assert headers == init + [headers[|headers| - 1]];
      LastPositionsStep(init, headers[|headers| - 1], m, r);
      r
  }

  lemma LastPositionsStep<T>(init: seq<T>, last: T, m: map<T, nat>, r: map<T, nat>)
    requires forall h :: h in m <==> h in init
    requires forall h :: h in m ==> (m[h] < |init| && init[m[h]] == h
                                     && forall j :: m[h] < j < |init| ==> init[j] != h)
    requires r == m[last := |init|]
    ensures forall h :: h in r <==> h in init + [last]
    ensures forall h :: h in r ==> (r[h] < |init| + 1 && (init + [last])[r[h]] == h
                                     && forall j :: r[h] < j < |init| + 1 ==> (init + [last])[j] != h)
  {
    var xs := init + [last];
    assert forall j :: 0 <= j < |init| ==> xs[j] == init[j];
    forall h | h in r
      ensures r[h] < |xs| && xs[r[h]] == h && forall j :: r[h] < j < |xs| ==> xs[j] != h
    {
      if h != last {
        assert r[h] == m[h];
      }
    }
  }

  /** `row_dict`: every header of the sheet mapped to the value at its
      position, `""` past the end of a short row. */
  function RowDict(headers: seq<string>, values: seq<string>): (r: map<string, string>)
    ensures forall h :: h in r <==> h in headers
    ensures forall k :: 0 <= k < |headers| && LastOccurrence(headers, k)
                        ==> r[headers[k]] == if k < |values| then values[k] else ""
  {
    var pos := HeaderPositions(headers);
    var r := map h | h in pos :: if pos[h] < |values| then values[pos[h]] else "";
    forall k | 0 <= k < |headers| && LastOccurrence(headers, k)
      ensures pos[headers[k]] == k
    {
    }
    r
  }

  /** No header after position `k` repeats the header at `k`. */
  predicate LastOccurrence(headers: seq<string>, k: int)
    requires 0 <= k < |headers|
  {
    forall j :: k < j < |headers| ==> headers[j] != headers[k]
  }

  /** `_parse_registry_xlsx`: the file must exist and hold the sheet; an
      empty sheet has no entries; otherwise the first row is the header
      row (empty header cells dropped) and the rows after it are numbered
      from 2. */
  function ParseRegistryXlsx(lib: Timestamps.Lib, file: Option<Xlsx.Workbook>, name: string,
                             sheetName: string, defaultTz: string)
    : (r: Result<seq<RunRegistryEntry>, RegistryError>)
    ensures r == Err(FileMissing(name)) <==> file.None?
    ensures file.Some? && Xlsx.ReadSheetRows(file.value, sheetName).Err?
            ==> r == Err(SheetError(Xlsx.ReadSheetRows(file.value, sheetName).error))
    ensures file.Some? && Xlsx.ReadSheetRows(file.value, sheetName) == Ok([]) ==> r == Ok([])
    ensures r.Err? ==> !r.error.UnsupportedFormat? && !r.error.NoRows?
    ensures r.Ok? ==> forall j :: 0 <= j < |r.value|
                        ==> r.value[j].sourceFile == name && 2 <= r.value[j].sourceRowNumber
    ensures file.Some? && Xlsx.ReadSheetRows(file.value, sheetName).Ok?
            && |Xlsx.ReadSheetRows(file.value, sheetName).value| > 0
            ==> r == SheetEntries(lib, Xlsx.ReadSheetRows(file.value, sheetName).value, name, defaultTz)
  {
    match file
    case None => Err(FileMissing(name))
    case Some(wb) =>
      match Xlsx.ReadSheetRows(wb, sheetName)
      case Err(e) => Err(SheetError(e))
      case Ok(rows) =>
        if |rows| == 0 then Ok([]) else SheetEntries(lib, rows, name, defaultTz)
  }

  /** The entries of a non-empty sheet: its first row names the columns
      and the rows after it are sheet rows 2, 3, ... */
  function SheetEntries(lib: Timestamps.Lib, rows: seq<seq<string>>, name: string, defaultTz: string)
    : (r: Result<seq<RunRegistryEntry>, RegistryError>)
    requires |rows| > 0
    ensures r.Err? ==> r.error.MissingHeaders? || r.error.TimeError?
    ensures r.Err? && r.error.MissingHeaders? <==> ValidateRequiredHeaders(NormalizedHeaders(rows[0], true)).Err?
    ensures r.Ok? ==> forall j :: 0 <= j < |r.value|
                        ==> r.value[j].sourceFile == name && 2 <= r.value[j].sourceRowNumber < |rows| + 1
    ensures ValidateRequiredHeaders(NormalizedHeaders(rows[0], true)).Ok?
            ==> r == MapRows(lib, SheetDicts(rows), NormalizedHeaders(rows[0], true), name, 2, defaultTz)
  {
    match ValidateRequiredHeaders(NormalizedHeaders(rows[0], true))
    case Err(e) => Err(e)
    case Ok(normalized) => MapRows(lib, SheetDicts(rows), normalized, name, 2, defaultTz)
  }

  /** The data rows of a sheet as dictionaries keyed by the header row:
      sheet row `i + 2` becomes entry `i`, holding every header, and each
      header reads the cell of its last column in that row, or "" where
      the row is too short. */
  function SheetDicts(rows: seq<seq<string>>): (r: seq<map<string, string>>)
    requires |rows| > 0
    ensures |r| == |rows| - 1
    ensures forall i :: 0 <= i < |r| ==> r[i] == RowDict(rows[0], rows[i + 1])
    ensures forall i, h :: 0 <= i < |r| ==> (h in r[i] <==> h in rows[0])
    ensures forall i, k :: 0 <= i < |r| && 0 <= k < |rows[0]| && LastOccurrence(rows[0], k)
                           ==> rows[0][k] in r[i]
                               && r[i][rows[0][k]] == if k < |rows[i + 1]| then rows[i + 1][k] else ""
  {
    seq(|rows| - 1, i requires 0 <= i < |rows| - 1 => RowDict(rows[0], rows[i + 1]))
  }

  // ------------------------------------------------------------------ import

  /** The entries the file yields, chosen by its lower-cased suffix. */
  function ReadEntries(lib: Timestamps.Lib, name: string, file: Option<RegistryFile>,
                       sheetName: string, defaultTz: string)
    : (r: Result<seq<RunRegistryEntry>, RegistryError>)
    ensures r == Err(UnsupportedFormat(Text.Suffix(name)))
            <==> Text.Lower(Text.Suffix(name)) != ".csv" && Text.Lower(Text.Suffix(name)) != ".xlsx"
    ensures r.Err? ==> !r.error.NoRows?
    ensures r.Ok? ==> forall j :: 0 <= j < |r.value|
                        ==> r.value[j].sourceFile == name && 2 <= r.value[j].sourceRowNumber
    ensures Text.Lower(Text.Suffix(name)) == ".csv"
            ==> r == ParseRegistryCsv(lib, if file.Some? then Some(file.value.table) else None, name, defaultTz)
    ensures Text.Lower(Text.Suffix(name)) == ".xlsx"
            ==> r == ParseRegistryXlsx(lib, if file.Some? then Some(file.value.workbook) else None, name,
                                       sheetName, defaultTz)
  {
    var suffix := Text.Lower(Text.Suffix(name));
    if suffix == ".csv" then
      ParseRegistryCsv(lib, if file.Some? then Some(file.value.table) else None, name, defaultTz)
    else if suffix == ".xlsx" then
      ParseRegistryXlsx(lib, if file.Some? then Some(file.value.workbook) else None, name, sheetName, defaultTz)
    else Err(UnsupportedFormat(Text.Suffix(name)))
  }

  /** `import_run_registry` on the file called `name`: the entries are read,
      at least one is required, and they are upserted in one commit. The
      count is the number of entries read, and on any error the store is
      left as it was. */
  function ImportRunRegistry(lib: Timestamps.Lib, st: Repositories.Store, name: string, file: Option<RegistryFile>,
                             sheetName: string, defaultTz: string)
    : (r: Result<(Repositories.Store, int), RegistryError>)
    requires Repositories.RegistryValid(st.registry, st.nextRegistryId)
    ensures r.Ok? <==> ReadEntries(lib, name, file, sheetName, defaultTz).Ok?
                       && |ReadEntries(lib, name, file, sheetName, defaultTz).value| > 0
    ensures r.Ok? ==> var es := ReadEntries(lib, name, file, sheetName, defaultTz).value;
                      && r.value.1 == |es| > 0
                      && Repositories.Keys(r.value.0.registry) == Repositories.Keys(st.registry) + Repositories.EntryKeys(es)
                      && Repositories.CarriesLast(r.value.0.registry, es)
                      && Repositories.Extends(st.registry, st.nextRegistryId, r.value.0.registry, r.value.0.nextRegistryId)
                      && r.value.0.runs == st.runs && r.value.0.readings == st.readings && r.value.0.labels == st.labels
    ensures r.Ok? && Repositories.Valid(st) ==> Repositories.Valid(r.value.0)
    ensures r == Err(NoRows(name)) <==> ReadEntries(lib, name, file, sheetName, defaultTz) == Ok([])
  {
    var es :- ReadEntries(lib, name, file, sheetName, defaultTz);
    if |es| == 0 then Err(NoRows(name))
    else Ok(Repositories.UpsertEntries(st, es))
  }

  /** Importing the same file again leaves the store as the first import
      left it, and reports the same count. */
  lemma ReimportChangesNothing(lib: Timestamps.Lib, st: Repositories.Store, name: string, file: Option<RegistryFile>,
                               sheetName: string, defaultTz: string)
    requires Repositories.RegistryValid(st.registry, st.nextRegistryId)
    requires ImportRunRegistry(lib, st, name, file, sheetName, defaultTz).Ok?
    ensures var once := ImportRunRegistry(lib, st, name, file, sheetName, defaultTz).value;
            ImportRunRegistry(lib, once.0, name, file, sheetName, defaultTz) == Ok(once)
  {
    var es := ReadEntries(lib, name, file, sheetName, defaultTz).value;
    Repositories.UpsertIdempotent(st, es);
  }

  /** Every data row of a CSV export whose run id is filled in reaches
      the entries read, numbered by its row in the file. */
  lemma CsvRowsAllRead(lib: Timestamps.Lib, name: string, t: CsvTable, wb: Xlsx.Workbook,
                       sheetName: string, defaultTz: string, i: int)
    requires Text.Lower(Text.Suffix(name)) == ".csv"
    requires t.header.Some? && ValidateRequiredHeaders(NormalizedHeaders(t.header.value, false)).Ok?
    requires ReadEntries(lib, name, Some(RegistryFile(t, wb)), sheetName, defaultTz).Ok?
    requires 0 <= i < |t.rows| && Column(t.rows[i], NormalizedHeaders(t.header.value, false), "runid").Some?
    ensures var es := ReadEntries(lib, name, Some(RegistryFile(t, wb)), sheetName, defaultTz).value;
            exists j :: 0 <= j < |es| && es[j].sourceRowNumber == 2 + i
  {
    var n := NormalizedHeaders(t.header.value, false);
    assert ReadEntries(lib, name, Some(RegistryFile(t, wb)), sheetName, defaultTz)
           == MapRows(lib, t.rows, n, name, 2, defaultTz);
    var j := RowKept(lib, t.rows, n, name, 2, defaultTz, i);
  }

  /** Every data row of a workbook sheet whose run id is filled in reaches
      the entries read, numbered by its row in the sheet. */
  lemma SheetRowsAllRead(lib: Timestamps.Lib, name: string, t: CsvTable, wb: Xlsx.Workbook,
                         sheetName: string, defaultTz: string, i: int)
    requires Text.Lower(Text.Suffix(name)) == ".xlsx"
    requires Xlsx.ReadSheetRows(wb, sheetName).Ok? && |Xlsx.ReadSheetRows(wb, sheetName).value| > 0
    requires ValidateRequiredHeaders(NormalizedHeaders(Xlsx.ReadSheetRows(wb, sheetName).value[0], true)).Ok?
    requires ReadEntries(lib, name, Some(RegistryFile(t, wb)), sheetName, defaultTz).Ok?
    requires 0 <= i < |Xlsx.ReadSheetRows(wb, sheetName).value| - 1
    requires Column(SheetDicts(Xlsx.ReadSheetRows(wb, sheetName).value)[i],
                    NormalizedHeaders(Xlsx.ReadSheetRows(wb, sheetName).value[0], true), "runid").Some?
    ensures var es := ReadEntries(lib, name, Some(RegistryFile(t, wb)), sheetName, defaultTz).value;
            exists j :: 0 <= j < |es| && es[j].sourceRowNumber == 2 + i
  {
    var rows := Xlsx.ReadSheetRows(wb, sheetName).value;
    var n := NormalizedHeaders(rows[0], true);
    assert ReadEntries(lib, name, Some(RegistryFile(t, wb)), sheetName, defaultTz)
           == MapRows(lib, SheetDicts(rows), n, name, 2, defaultTz);
    var j := RowKept(lib, SheetDicts(rows), n, name, 2, defaultTz, i);
  }

  /** A CSV export without a column whose header normalises to `runid` is
      rejected, and `runid` is among the headers reported missing; when
      the other two required headers are there, it is the only one. */
  lemma CsvWithoutRunId(lib: Timestamps.Lib, st: Repositories.Store, name: string, t: CsvTable, wb: Xlsx.Workbook,
                        sheetName: string, defaultTz: string)
    requires Repositories.RegistryValid(st.registry, st.nextRegistryId)
    requires Text.Lower(Text.Suffix(name)) == ".csv"
    requires t.header.Some?
    requires forall i :: 0 <= i < |t.header.value| ==> Text.NormalizeHeader(t.header.value[i]) != "runid"
    ensures var r := ImportRunRegistry(lib, st, name, Some(RegistryFile(t, wb)), sheetName, defaultTz);
            r.Err? && r.error.MissingHeaders? && "runid" in r.error.missing
    ensures var n := NormalizedHeaders(t.header.value, false);
            "test status" in n && "log file" in n
            ==> ImportRunRegistry(lib, st, name, Some(RegistryFile(t, wb)), sheetName, defaultTz)
                == Err(MissingHeaders(["runid"]))
  {
    var n := NormalizedHeaders(t.header.value, false);
    NormalizedHeadersIsLast(t.header.value, false, "runid");
    assert "runid" !in n;
    var v := ValidateRequiredHeaders(n);
    assert v.Err?;
    assert ParseRegistryCsv(lib, Some(t), name, defaultTz) == Err(v.error);
    assert ReadEntries(lib, name, Some(RegistryFile(t, wb)), sheetName, defaultTz) == Err(v.error);
    assert "runid" in v.error.missing;
    if "test status" in n && "log file" in n {
      OnlyRunIdMissing(n);
    }
  }
}
