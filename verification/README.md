# LUNA test-bench core, modelled in Dafny

This project models the core of the LUNA test-bench data tool (`luna_tb`). The tool keeps a SQLite store of:

- humidity/temperature **runs**;
- each run's **readings**;
- **label events** recorded against a run;
- a **run registry** imported from the lab's planning sheet.

The model covers six parts of that core:

- **Registry import** (`RegistryImport`, `Xlsx`).
  - A registry file is a CSV or XLSX file.
  - Headers are normalised (trimmed, lower-cased, whitespace collapsed). The required `RunID`, `Test Status` and `Log File` columns are checked.
  - Each row is mapped to a `RunRegistryEntry`. Rows without a run id are skipped. Timestamps are normalised to ISO text.
  - The entries are upserted by external run id.
  - XLSX support covers resolving the sheet through the workbook relationships. Each row is rebuilt from cells addressed by their `A1`-style references, using the shared-string table.
- **Log ingest** (`Ingest`).
  - A log file is found in the registry by its base name, and it must not be linked yet.
  - The file is parsed as a structured CSV or as a device `.log` whose sample lines carry wall-clock time. The time zone comes from a `tz(q)`/`+CCLK` hint or a default zone.
  - The readings are sorted by elapsed seconds, and a sampling interval is estimated.
  - Then the ingest creates a run, stores the readings and links the registry entry, committing once per file.
- **Label import** (`LabelImport`).
  - Label events are read from a CSV file.
  - The run id comes either from a `run_id` column or from the caller.
  - The events are stored subject to the foreign key to runs.
- **Store** (`Repositories`).
  - The store is an immutable value.
  - Runs, readings and labels obey foreign-key integrity.
  - The registry holds unique keys, and `registry_id` grows.
  - Operations: insert, the ON CONFLICT upsert, lookup by trimmed log-file reference, and attach.
- **Migrations** (`Migrations`). The `.sql` scripts of a directory are applied in name order. Each is applied once, tracked by its version (the file stem), and the run stops at the first failing script.
- **Domain records** (`Models`) and shared helpers:
  - `Common`: Option/Result and first-failure parsing;
  - `Text`: Python `str.strip`, header normalisation, `int()` parsing over ASCII digits, path suffix and stem;
  - `Sorting`: stable sort by a key and string sort;
  - `Timestamps`: calendar arithmetic and the timestamp normalisers;
  - `Fields`: the `_to_float`/`_required_str`/`_to_int` field readers.

Things the original delegates to Python's runtime are parameters of the model. These are `float()`, `strptime`, `fromisoformat`, the XLSX serial-date arithmetic, `isoformat` and the zone database. They are bundled in `Timestamps.Lib` and in the regex matchers of `Ingest.LinePatterns`. Every property is proved for all such parameters.

There is one behaviour of the source that the model keeps as written. Both CSV readers check for required columns using *stripped* header names, but they read cells by the *raw* header key. A header such as `" event_type "` therefore passes the column check, yet every row then fails as if the value were missing (`LabelImport.PaddedHeaderLeavesFieldMissing`). The same applies to `t_elapsed_s` in the ingest CSV reader (`Ingest.MissingElapsedRejected`).

## Model

| member | source | states |
|---|---|---|
| Text.StripEmptyIffBlank | luna_tb/services/label_import.py:97-101 | a value strips to nothing exactly when every character is Python whitespace, which is when `_empty_to_none` yields None |
| Text.StripIdempotent | luna_tb/services/label_import.py:91-94 | stripping an already stripped value changes nothing |
| Text.CleanStr | luna_tb/services/registry_import.py:249-253 | None exactly for an absent or all-whitespace value; otherwise the stripped text, which is non-empty |
| Text.NormalizeHeaderIsNormal | luna_tb/services/registry_import.py:241-242 | a normalised header has no upper-case ASCII letter, only plain single spaces, and no space at either end |
| Text.NormalHeaderIsFixed | luna_tb/services/registry_import.py:241-242 | a header already in normal form is left unchanged by normalisation |
| Text.NormalizeHeaderIdempotent | luna_tb/services/registry_import.py:241-242 | normalising a header twice equals normalising it once |
| Text.NormalizeSheetName | luna_tb/services/registry_import.py:245-246 | without underscores, a sheet name normalises exactly like a header |
| Text.SheetNameUnderscoreIsSpace | luna_tb/services/registry_import.py:245-246 | two sheet names that differ only by `_` versus space normalise to the same key |
| Text.SqlTrimIsSlice | luna_tb/storage/repositories.py:181-189 | SQL `TRIM` removes only spaces at both ends and keeps the middle as a contiguous slice |
| Text.SuffixShape | luna_tb/services/ingest.py:90-96 | a non-empty suffix starts with its only dot, ends the name and is shorter than it; an empty suffix means there is no dot, or a leading or trailing one |
| Text.Stem | luna_tb/storage/db.py:52-55 | stem followed by suffix gives back the file name |
| Text.ReplaceAllAppend | luna_tb/services/ingest.py:207 | replacing a character in two texts put together equals replacing it in each and putting the results together |
| Text.ParseIntOfIntToString | luna_tb/services/label_import.py:126-135 | `int()` reads back every integer's decimal text |
| Text.ParseIntRejectsBlank | luna_tb/services/label_import.py:126-135 | blank text is not an integer |
| Text.LexLeTotal | luna_tb/storage/db.py:49-51 | the code-point order used by `sorted` compares any two names |
| Text.LexLeTransitive | luna_tb/storage/db.py:49-51 | that order is transitive |
| Text.LexLeAntisymmetric | luna_tb/storage/db.py:49-51 | that order only ties equal names |
| Sorting.SortByKey | luna_tb/services/ingest.py:130 | the result is ordered by the key, is a permutation of the input, and keeps the input order of equal keys, so the sort is stable |
| Sorting.SortByKeyOfSorted | luna_tb/services/ingest.py:172 | sorting an already ordered sequence returns it unchanged |
| Sorting.SortStrings | luna_tb/storage/db.py:49-51 | the result is ordered and is a permutation of the input |
| Timestamps.ZoneFromName | luna_tb/services/registry_import.py:290-299 | a zone is produced exactly when the zone database knows the name; otherwise the error is unknown-timezone |
| Timestamps.ZoneFromQuarters | luna_tb/services/ingest.py:230-231 | a fixed offset of q quarter hours exists exactly when it lies strictly inside ±24 h; it is a multiple of 15 minutes |
| Timestamps.ZoneFromQuartersInverse | luna_tb/services/ingest.py:230-231 | the quarter count can be recovered from the offset |
| Timestamps.WallSecondsMonotone | luna_tb/services/ingest.py:150-164 | for valid dates, a strictly later wall-clock time gives strictly more elapsed seconds |
| Timestamps.ElapsedOfSame | luna_tb/services/ingest.py:159-164 | the base sample is at elapsed time 0 |
| Timestamps.OrdinalMonotone | luna_tb/services/ingest.py:150-158 | a later valid calendar day has a larger day ordinal |
| Timestamps.FirstFormat | luna_tb/services/registry_import.py:273-279 | the first layout in list order that parses wins; there is no result only when none parses |
| Timestamps.NormalizeRegistryTimestamp | luna_tb/services/registry_import.py:256-287 | an absent value stays absent; a present one always yields text; it fails only for an unknown default zone or a serial number past the date range; a serial number above 1000 becomes its date's ISO text in the default zone, else a value matching the first format does, else an ISO value keeps its own offset or takes the default zone, and any other text is kept as it was |
| Timestamps.RegistryKeepsUnparsed | luna_tb/services/registry_import.py:281-287 | text that no layout and no ISO parse accept is kept verbatim |
| Timestamps.RegistryFirstLayoutWins | luna_tb/services/registry_import.py:273-279 | a value matching the first layout is rendered in ISO form in the default zone |
| Timestamps.RegistryNormalizeIdempotent | luna_tb/services/registry_import.py:256-287 | normalising an already normalised value leaves it unchanged, given that ISO output reads back as itself |
| Timestamps.IsoInput | luna_tb/services/ingest.py:206-209 | every `Z` of a value ending in `Z` becomes `+00:00`, so a single trailing `Z` becomes exactly `+00:00`; other text is left alone |
| Timestamps.NormalizeIngestTimestamp | luna_tb/services/ingest.py:197-215 | absent stays absent; non-ISO text is an invalid-timestamp error; an aware value is written with its own offset; a naive value is written in the default zone, and fails with unknown-timezone only when that zone is unknown |
| Timestamps.IngestAwareIgnoresDefault | luna_tb/services/ingest.py:213-215 | a value with its own offset does not depend on the default zone |
| Timestamps.IngestZuluIsUtc | luna_tb/services/ingest.py:206-207 | `…Z` and `…+00:00` normalise identically |
| Timestamps.IngestRejectsWhatRegistryKeeps | luna_tb/services/ingest.py:205-211 | free text that registry import keeps verbatim is rejected by log ingest |
| Fields.ToFloat | luna_tb/services/ingest.py:246-265 | absent and blank values are None when allowed and missing/empty errors otherwise; any other value is the parse of its stripped text, or an invalid-value error naming the raw value |
| Fields.ToFloatIgnoresMargins | luna_tb/services/label_import.py:115-121 | surrounding whitespace does not change an accepted value |
| Fields.RequiredStr | luna_tb/services/label_import.py:88-94 | succeeds exactly when the cleaned value exists and returns it; otherwise the error says missing or empty |
| Fields.RequiredStrIsTrimmed | luna_tb/services/label_import.py:88-94 | a required string is non-empty and already stripped |
| Fields.ToInt | luna_tb/services/label_import.py:126-135 | None for absent or blank; the parsed integer when `int()` accepts; otherwise an invalid-run-id error |
| Fields.ToIntRoundTrip | luna_tb/services/label_import.py:126-135 | the decimal text of every integer reads back as that integer |
| Repositories.CreateRun | luna_tb/storage/repositories.py:14-51 | the new id is unused; only that run is added; readings, labels and registry are untouched; integrity is kept |
| Repositories.CreateRunIdsDistinct | luna_tb/storage/repositories.py:14-51 | two successive runs get different ids |
| Repositories.InsertReadings | luna_tb/storage/repositories.py:58-82 | fails with a foreign-key violation exactly when there are samples and the run does not exist; otherwise it appends the samples tagged with the run |
| Repositories.InsertReadingsThenRead | luna_tb/storage/repositories.py:58-82 | after inserting, the run's readings are its old readings followed by the new ones, and no other run's readings change |
| Repositories.InsertLabels | luna_tb/storage/repositories.py:89-123 | succeeds exactly when every label's run exists and then appends all of them; otherwise it names an orphan run id and stores nothing |
| Repositories.UpsertOneShape | luna_tb/storage/repositories.py:164-175 | one upsert keeps keys unique and ids increasing, changes no existing id, link or key, and adds exactly the entry's key |
| Repositories.UpsertAllShape | luna_tb/storage/repositories.py:130-179 | the same holds for a whole batch; the key set grows by the batch's keys |
| Repositories.UpsertAllLaterWins | luna_tb/storage/repositories.py:164-175 | every row whose key is in the batch carries the batch's last entry for that key |
| Repositories.UpsertAllKeepsOthers | luna_tb/storage/repositories.py:164-175 | rows whose key is not in the batch are unchanged |
| Repositories.UpsertEntries | luna_tb/storage/repositories.py:130-179 | returns the batch size, keeps unique keys, carries the last entry per key, keeps other rows, preserves `run_id` links and integrity, and touches no other table |
| Repositories.UpsertAllIsOverlay | luna_tb/storage/repositories.py:164-175 | when every key already exists, an upsert equals the reference overlay (each row replaced by the last entry with its key) and allocates no id |
| Repositories.UpsertIdempotent | luna_tb/storage/repositories.py:130-179 | upserting the same batch twice gives the same registry as once |
| Repositories.FindByLogFileRef | luna_tb/storage/repositories.py:181-189 | returns the first row whose trimmed log-file reference equals the name; nothing exactly when no row matches |
| Repositories.AttachRun | luna_tb/storage/repositories.py:191-195 | sets the run link on the row with that registry id and on no other; all else is unchanged; integrity holds when the run exists |
| Repositories.AttachThenFind | luna_tb/storage/repositories.py:181-195 | after attaching, the same lookup finds the same row, now linked to the run |
| Repositories.FindSameEntries | luna_tb/storage/repositories.py:181-189 | lookup depends only on entries, not on ids or links |
| Migrations.ScriptNames | luna_tb/storage/db.py:49-51 | the result is ordered, contains only `.sql` names, and contains every `.sql` file of the directory |
| Migrations.MemberOfSqlFile | luna_tb/storage/db.py:49-51 | every listed name is a `.sql` file of the directory |
| Migrations.Pending | luna_tb/storage/db.py:52-55 | exactly the scripts whose version is not yet applied |
| Migrations.RunScripts | luna_tb/storage/db.py:59-68 | runs a prefix of the scripts; all of them when none fails; otherwise it stops at the first failing one |
| Migrations.ApplyMigrations | luna_tb/storage/db.py:35-68 | a missing directory changes nothing; the applied set grows by exactly the versions run; no applied version is re-run; on success every `.sql` file's version is applied |
| Migrations.RanInNameOrder | luna_tb/storage/db.py:49-65 | scripts run in sorted name order |
| Migrations.SecondRunIsNoOp | luna_tb/storage/db.py:35-68 | after a successful run, a second run executes nothing |
| Migrations.FailureStopsTheRun | luna_tb/storage/db.py:59-68 | on failure, the scripts run are a proper prefix of the pending ones and the error names the next pending script |
| Ingest.MissingRequiredMeaning | luna_tb/services/ingest.py:108-111 | reported columns are exactly the required ones absent after stripping header names, listed sorted |
| Ingest.ParseCsvRow | luna_tb/services/ingest.py:114-128 | a row parses exactly when its timestamp, elapsed time, temperature and humidity all read; the timestamp is the normalised cleaned cell, the elapsed time, temperature and humidity are `float()` of the stripped cells, and blanks become None |
| Ingest.MissingElapsedRejected | luna_tb/services/ingest.py:122 | a row without an elapsed-time cell fails as missing |
| Ingest.ParseCsvLog | luna_tb/services/ingest.py:99-131 | missing file, missing header and missing columns each give their own error; with the columns present, the log reads exactly when every row parses, a failing log reports the error of its first failing row, and success yields one reading per row, ordered by elapsed time |
| Ingest.ParseCsvRows | luna_tb/services/ingest.py:113-131 | the rows read exactly when each one parses; otherwise the error is that of the first failing row; success gives one reading per row, ordered by elapsed time |
| Ingest.CsvLogIsStableSort | luna_tb/services/ingest.py:113-131 | the result is the parsed rows, stably sorted by elapsed time |
| Ingest.DetectZone | luna_tb/services/ingest.py:218-227 | the first line with a zone hint decides the zone; without any hint the default zone is used |
| Ingest.MatchesAppend | luna_tb/services/ingest.py:144-147 | sample lines of concatenated text are the sample lines of each part, in order |
| Ingest.ReadSample | luna_tb/services/ingest.py:149-170 | succeeds exactly when the date is valid and both numbers parse; it gives seconds since the base sample, the parsed values and the ISO time in the detected zone |
| Ingest.ParseDeviceLog | luna_tb/services/ingest.py:134-173 | a missing file or bad zone gives its error; once the zone resolves, the log reads exactly when every sample line gives a valid date and both numbers, and otherwise reports the error of the first line that does not; success gives one reading per sample line, ordered by elapsed time |
| Ingest.LineReadings | luna_tb/services/ingest.py:141-170 | the sample lines read exactly when each one does, giving each line's reading in line order, timed from the first sample line; otherwise the error is that of the first failing line |
| Ingest.DeviceLogReadings | luna_tb/services/ingest.py:144-172 | the readings are a permutation of the per-line samples measured from the first one, and include that first sample at time 0 |
| Ingest.FirstReadingStarts | luna_tb/services/ingest.py:159-167 | the first sample line has elapsed time 0 and carries its own wall-clock time |
| Ingest.ChronologicalKeepsLineOrder | luna_tb/services/ingest.py:144-172 | for a log in strictly increasing time, sorting keeps line order |
| Ingest.EstimateSamplingInterval | luna_tb/services/ingest.py:176-187 | None for fewer than two readings or when no step is non-decreasing; otherwise a non-negative mean step |
| Ingest.DeltasOfSorted | luna_tb/services/ingest.py:180-184 | for ordered times every step counts, and the steps sum to last minus first |
| Ingest.SamplingIntervalOfSorted | luna_tb/services/ingest.py:176-187 | for sorted readings the interval is the total span divided by the number of steps |
| Ingest.ParseLogFile | luna_tb/services/ingest.py:90-96 | the format is unsupported exactly when the lower-cased suffix is neither `.csv` nor `.log`; a `.csv` file is read as a structured log and a `.log` file as a device log; the result is ordered by elapsed time |
| Ingest.IngestFile | luna_tb/services/ingest.py:46-84 | no registry entry and an already linked entry each fail with their own error; for an unlinked entry, a parse error is reported unchanged and an empty parse is a no-readings error naming the file; the ingest succeeds exactly when the entry is unlinked and the file yields readings |
| Ingest.IngestFileSteps | luna_tb/services/ingest.py:80-83 | a successful ingest is create-run, then insert-readings, then attach |
| Ingest.IngestFileCreatesRun | luna_tb/services/ingest.py:65-80 | the new run is fresh and the only one added; its record is exactly the device id, diaper type, sensor layout, the entry's external run id, the file name, the run notes, the first and last readings' times and the estimated interval; labels are untouched; integrity holds |
| Ingest.IngestFileStoresReadings | luna_tb/services/ingest.py:81 | the new run's readings are exactly the parsed ones; other runs keep theirs |
| Ingest.IngestFileLinksEntry | luna_tb/services/ingest.py:82 | exactly the matched registry row gets linked to the new run |
| Ingest.IngestLogs | luna_tb/services/ingest.py:30-87 | at most one run per file; one run per file when there is no error |
| Ingest.IngestLogsFreshIds | luna_tb/services/ingest.py:46-84 | every returned run id is new and stored, and integrity holds |
| Ingest.IngestLogsDistinctIds | luna_tb/services/ingest.py:46-84 | returned run ids are pairwise distinct |
| Ingest.IngestLogsKeepsCommitted | luna_tb/services/ingest.py:46-84 | on failure, files before the failing one stay committed, exactly as a batch of only those files |
| Ingest.SameLogTwice | luna_tb/services/ingest.py:55-59 | listing one log twice ingests it once and then fails as already linked |
| Ingest.SecondAttemptRefused | luna_tb/services/ingest.py:55-59 | ingesting a file again is refused, naming the run it is linked to |
| LabelImport.EffectiveRunId | luna_tb/services/label_import.py:62-67 | a row's own non-blank `run_id` is used when the column exists, else the caller's; it fails when neither exists or the own value is not an integer |
| LabelImport.WrittenRunIdWins | luna_tb/services/label_import.py:62-63 | a written run id overrides the caller's |
| LabelImport.ReadMeasures | luna_tb/services/label_import.py:75-79 | each optional measure is None when absent or blank, and otherwise the parse of its stripped text; an error names one of those fields |
| LabelImport.ParseLabelRow | luna_tb/services/label_import.py:61-83 | a row yields an event exactly when its run id, event type, event time and measures all read; the fields are the cleaned cells; a run-id problem is reported first |
| LabelImport.PaddedHeaderLeavesFieldMissing | luna_tb/services/label_import.py:54-72 | a row with no raw `event_type` key fails as missing, even when the stripped header passed the check |
| LabelImport.ParseLabelsCsv | luna_tb/services/label_import.py:45-85 | missing file, missing header and missing event columns each give their own error; success gives one event per row; any other error is some row's error |
| LabelImport.ParseLabelRows | luna_tb/services/label_import.py:60-85 | either every row parses, in order, or the error is the first failing row's |
| LabelImport.StoreLabels | luna_tb/services/label_import.py:33-42 | an empty list fails; otherwise the labels are stored and counted exactly when every run exists, and a foreign-key error names an orphan |
| LabelImport.ImportLabelsCsv | luna_tb/services/label_import.py:20-42 | the import is parse-then-store, and on success the count is the number of data rows |
| LabelImport.RunIdRequired | luna_tb/services/label_import.py:62-67 | without a `run_id` column or argument, a non-empty file is refused |
| LabelImport.ImportCountsLabels | luna_tb/services/label_import.py:20-42 | with a caller run id, the run gains exactly as many labels as the file has rows |
| RegistryImport.NormalizedHeadersIsLast | luna_tb/services/registry_import.py:71 | a normalised name maps to the last original header with that form, and exists exactly when some kept header has it |
| RegistryImport.NormalizedHeadersKeyIsNormal | luna_tb/services/registry_import.py:71 | keys are in normal form and are the normal form of their header |
| RegistryImport.ValidateRequiredHeaders | luna_tb/services/registry_import.py:235-238 | passes exactly when `runid`, `test status` and `log file` are present; the error lists exactly the absent ones, in that order |
| RegistryImport.Absent | luna_tb/services/registry_import.py:236 | the headers a map lacks, order kept: a header is listed exactly when it is in the list and not in the map |
| RegistryImport.OnlyRunIdMissing | luna_tb/services/registry_import.py:235-238 | a missing `runid` alone is reported as just that column |
| RegistryImport.ColumnMeaning | luna_tb/services/registry_import.py:207-212 | a column value is None when the column or cell is absent or blank, and otherwise the stripped, non-empty cell |
| RegistryImport.MapRow | luna_tb/services/registry_import.py:194-232 | a row without a run id is skipped; it fails only on its timestamp; an entry keeps the run id, source file and row number |
| RegistryImport.MapRowFields | luna_tb/services/registry_import.py:207-231 | each entry field is the cleaned cell of its mapped column, and the timestamp is normalised |
| RegistryImport.MapRowsEntryAt | luna_tb/services/registry_import.py:75-78 | every entry came from the row at its row number |
| RegistryImport.MapRowsComplete | luna_tb/services/registry_import.py:75-78 | every row with a run id produces an entry |
| RegistryImport.MapRowsFails | luna_tb/services/registry_import.py:75-78 | mapping fails exactly when some row fails |
| RegistryImport.MapRowsFirstError | luna_tb/services/registry_import.py:75-78 | the error reported is the first failing row's |
| RegistryImport.MapRows | luna_tb/services/registry_import.py:75-78 | entries carry the source file, row numbers within the rows' range, in increasing order |
| RegistryImport.ParseRegistryCsv | luna_tb/services/registry_import.py:62-80 | missing file, missing header and missing required headers each give their own error; once the headers validate, the entries are the row mapping of the data rows numbered from 2 |
| RegistryImport.HeaderPositions | luna_tb/services/registry_import.py:143 | each header maps to its last position |
| RegistryImport.RowDict | luna_tb/services/registry_import.py:143-150 | a row dictionary has exactly the sheet's header names as keys, and each header reads the cell at its last column, or "" where the row is too short |
| RegistryImport.ParseRegistryXlsx | luna_tb/services/registry_import.py:83-155 | missing file and sheet errors propagate; an empty sheet gives no entries; a non-empty sheet gives the entries of its rows; entry rows are numbered from 2 |
| RegistryImport.SheetEntries | luna_tb/services/registry_import.py:136-155 | header validation over non-empty headers fails exactly when a required header is absent; otherwise the entries are the row mapping of the data rows, each read as a dictionary keyed by the header row and numbered from 2 |
| RegistryImport.SheetDicts | luna_tb/services/registry_import.py:143-151 | data row i + 2 of the sheet becomes dictionary i; it holds every header, and each header reads that row's cell at its last column, or "" past the row's end |
| RegistryImport.ReadEntries | luna_tb/services/registry_import.py:44-50 | the format is unsupported exactly when the lower-cased suffix is neither `.csv` nor `.xlsx`; a `.csv` file is read by the CSV reader and an `.xlsx` file by the workbook reader |
| RegistryImport.CsvRowsAllRead | luna_tb/services/registry_import.py:62-80 | every data row of a CSV export with its run id filled in reaches the entries read, numbered by its row in the file |
| RegistryImport.SheetRowsAllRead | luna_tb/services/registry_import.py:136-155 | every data row of a workbook sheet with its run id filled in reaches the entries read, numbered by its row in the sheet |
| RegistryImport.ImportRunRegistry | luna_tb/services/registry_import.py:35-59 | an import with no rows fails; otherwise it upserts all entries, returns their count, carries the last entry per key, keeps links and integrity, and touches no other table |
| RegistryImport.ReimportChangesNothing | luna_tb/services/registry_import.py:35-59 | importing the same file twice leaves the store as after the first import |
| RegistryImport.CsvWithoutRunId | luna_tb/services/registry_import.py:62-80 | a CSV without a RunID header is refused, listing `runid` |
| Xlsx.ColumnIndexZeroIffNoLetter | luna_tb/services/registry_import.py:186-191 | a reference has column 0 exactly when it has no letter |
| Xlsx.ColumnLettersValue | luna_tb/services/registry_import.py:186-191 | the base-26 letters of column n read back as n |
| Xlsx.CellRefColumn | luna_tb/services/registry_import.py:186-191 | the column of reference `<letters(n)><row>` is n |
| Xlsx.LettersValueInverse | luna_tb/services/registry_import.py:186-191 | upper-case column letters are the canonical spelling of their value |
| Xlsx.ColumnIndexIgnoresCase | luna_tb/services/registry_import.py:186-191 | lower-case letters give the same column |
| Xlsx.LoadSharedStrings | luna_tb/services/registry_import.py:158-167 | one entry per shared item, each the concatenation of its text runs; an item without runs is "" and an item with one run is that run; none without the part |
| Xlsx.ConcatAppend | luna_tb/services/registry_import.py:165 | joining two lists of runs gives the join of the first followed by the join of the second |
| Xlsx.SharedLookup | luna_tb/services/registry_import.py:178-182 | an index resolves exactly when it parses and lies within the table; a non-negative index gives that string, a negative one the string that far from the end |
| Xlsx.CellValue | luna_tb/services/registry_import.py:170-183 | a cell without a value gives its inline text or ""; a non-shared value is used as is; a shared value shows the string it indexes, or itself when the lookup fails |
| Xlsx.SharedCellRoundTrip | luna_tb/services/registry_import.py:178-182 | a shared cell holding index i shows shared string i |
| Xlsx.SharedCellOutOfRange | luna_tb/services/registry_import.py:178-182 | an index past the table falls back to the raw value |
| Xlsx.SharedCellFromEnd | luna_tb/services/registry_import.py:178-182 | a shared cell holding -i shows the i-th string from the end |
| Xlsx.MaxColumn | luna_tb/services/registry_import.py:121-134 | the width is the largest referenced column, and is attained by some cell |
| Xlsx.CellMapIsLast | luna_tb/services/registry_import.py:124-130 | a column's value is that of the last cell referencing it |
| Xlsx.CollectCells | luna_tb/services/registry_import.py:121-131 | the loop collects the column map and the width |
| Xlsx.DenseRow | luna_tb/services/registry_import.py:132-134 | the dense row has one value per column up to the width, "" for gaps, and the last cell's value otherwise |
| Xlsx.RebuildRow | luna_tb/services/registry_import.py:121-134 | the rebuilt row equals the reference dense row |
| Xlsx.FindSheet | luna_tb/services/registry_import.py:104-117 | sheet-not-found exactly when no sheet name normalises to the requested one; otherwise the first matching sheet decides: the part path of its relationship, or a missing-relationship error naming its id |
| Xlsx.FirstMatchExists | luna_tb/services/registry_import.py:104-111 | whenever some sheet answers to the name, a first such sheet exists |
| Xlsx.FirstMatchUnique | luna_tb/services/registry_import.py:104-111 | at most one sheet is the first to answer to the name, so the loop's `break` picks a single sheet |
| Xlsx.PartPath | luna_tb/services/registry_import.py:113 | a target already under `xl/` is kept as it is; any other target is placed under `xl/` |
| Xlsx.PartPathIdempotent | luna_tb/services/registry_import.py:113 | resolving a part path a second time changes nothing |
| Xlsx.PartPathEndsWithTarget | luna_tb/services/registry_import.py:113 | the relationship target is kept in full at the end of the part path |
| Xlsx.FindSheetIgnoresSpelling | luna_tb/services/registry_import.py:104-117 | sheet names equal up to case, spacing and `_` find the same sheet |
| Xlsx.ReadSheetRows | luna_tb/services/registry_import.py:104-134 | one dense row per sheet row, built with the shared strings; lookup errors propagate, and a sheet whose part is absent is a missing-part error naming that path |

## Left out

- File I/O and path existence. A file's content is an `Option` parameter, and None means the path does not exist.
- CSV tokenising (`csv.DictReader`). A CSV file is given as its header and its row dictionaries (`Common.CsvTable`).
- ZIP and XML decoding of XLSX files. A workbook is given as its sheets, relationships, shared-string items and cell lists (`Xlsx.Workbook`).
- Turning a path into its base name. Log files and registry files are given by name.
- The regular-expression engine. Sample and zone-hint matchers are parameters (`Ingest.LinePatterns`).
- Python's `float()`, `strptime`, `fromisoformat`, `isoformat`, the XLSX serial-date arithmetic and the `ZoneInfo` database. They are parameters (`Timestamps.Lib`), and properties hold for every choice of them.
- The `ZoneInfo` ImportError branch, because it depends on the Python version.
- Floating-point rounding. Floats are `real`, so the sampling interval is an exact mean.
- Non-finite floats. Python's `float()` accepts `nan`, `inf` and `infinity`, but a `real` cannot hold them, so `Timestamps.Lib.parseFloat` is taken to return None for such text. In Python a `nan` elapsed time would leave the sample sort unordered and the interval `nan`, and an infinite registry serial date would raise `OverflowError`; none of this is modelled.
- Text.ParseInt: reads ASCII digits only. Python's `int()` also accepts other Unicode decimal digits and refuses texts longer than 4300 digits. This affects Fields.ToInt and Xlsx.SharedLookup.
- Fields.ToInt: inherits the ASCII-digit reading of Text.ParseInt.
- Xlsx.SharedLookup: inherits the ASCII-digit reading of Text.ParseInt.
- Non-ASCII letters in `lower()` and `isalpha()`. Only ASCII case folding and ASCII column letters are modelled.
- SQLite itself. This covers DDL, the creation of `schema_migrations`, connections and transactions, logging, the CLI and configuration.
  - Each operation returns the new store. A failing file or script leaves its earlier committed state.
  - The migration SQL scripts that define the schema are not part of this model. The foreign keys and the unique key are stated as the invariant `Repositories.Valid`.
- The `applied_at` clock (luna_tb/storage/db.py:71-72).
- Row order of queries without `ORDER BY`. It is modelled as insertion order.
- Automatic row ids. They are modelled as counters.
- The baseline columns of `create_run`, which are always NULL.
- Dataclass defaults. All fields are given explicitly.
- Exception message texts. Errors carry their data instead.
- `datetime()` and `float()` failures inside the device-log loop. They are the `InvalidDate`/`InvalidNumber` errors.
- Repositories.AttachRun: never fails. A link to a run that does not exist would be a foreign-key error in the database. Every caller attaches a run it has just created, so integrity is instead stated conditionally.
- RegistryImport.ImportRunRegistry: requires the registry to satisfy the unique-key and increasing-id invariant, which the database schema guarantees for every stored state.
- RegistryImport.MapRow: requires the `runid` column to be present, because the source indexes it without a check and only calls the function after header validation.
