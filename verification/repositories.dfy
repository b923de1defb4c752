/** The SQLite store as the repositories see it: runs keyed by their
    row id, readings and labels that must name an existing run (foreign
    keys are switched on for every connection), and the run registry
    keyed by `external_run_id`. A failed statement leaves the store as
    it was, since the enclosing transaction is rolled back. */
module Repositories {
  import opened Common
  import opened Models
  import Text

  datatype ReadingRow = ReadingRow(runId: int, sample: ReadingSample)

  /** A `run_registry` row: its row id, the imported entry and the run the
      entry has been linked to, if any. */
  datatype RegistryRow = RegistryRow(registryId: int, entry: RunRegistryEntry, runId: Option<int>)

  /** The tables `runs`, `readings`, `labels` and `run_registry`, with the
      next row id of each keyed table. */
  datatype Store = Store(
    runs: map<int, RunMetadata>,
    nextRunId: int,
    readings: seq<ReadingRow>,
    labels: seq<LabelEvent>,
    registry: seq<RegistryRow>,
    nextRegistryId: int)

  datatype DbError = ForeignKeyViolation(runId: int)

  function KeyOf(row: RegistryRow): string {
    row.entry.externalRunId
  }

  /** Row ids increase along the table and stay below the counter, and no
      two rows share an `external_run_id` (it carries a unique index). */
  predicate RegistryValid(rows: seq<RegistryRow>, next: int) {
    (forall i :: 0 <= i < |rows| ==> rows[i].registryId < next)
    && (forall i, j :: 0 <= i < j < |rows| ==> rows[i].registryId < rows[j].registryId)
    && (forall i, j :: 0 <= i < j < |rows| ==> KeyOf(rows[i]) != KeyOf(rows[j]))
  }

  /** The store's integrity constraints: fresh run ids, and every foreign
      key pointing at an existing run. */
  predicate Valid(st: Store) {
    (forall id :: id in st.runs ==> id < st.nextRunId)
    && (forall i :: 0 <= i < |st.readings| ==> st.readings[i].runId in st.runs)
    && (forall i :: 0 <= i < |st.labels| ==> st.labels[i].runId in st.runs)
    && (forall i :: 0 <= i < |st.registry| && st.registry[i].runId.Some?
                    ==> st.registry[i].runId.value in st.runs)
    && RegistryValid(st.registry, st.nextRegistryId)
  }

  // -------------------------------------------------------------------- runs

  /** `RunRepository.create_run`: a new `runs` row under a fresh id; the
      baseline columns start empty and are not part of the metadata. */
  function CreateRun(st: Store, meta: RunMetadata): (r: (Store, int))
    ensures Valid(st) ==> r.1 !in st.runs
    ensures r.0.runs == st.runs[r.1 := meta]
    ensures r.0.readings == st.readings && r.0.labels == st.labels && r.0.registry == st.registry
    ensures Valid(st) ==> Valid(r.0)
  {
    var id := if st.nextRunId < 1 then 1 else st.nextRunId;
    (st.(runs := st.runs[id := meta], nextRunId := id + 1), id)
  }

  /** Two runs created one after the other get different ids. */
  lemma CreateRunIdsDistinct(st: Store, m1: RunMetadata, m2: RunMetadata)
    requires Valid(st)
    ensures CreateRun(CreateRun(st, m1).0, m2).1 != CreateRun(st, m1).1
  {
  }

  // ---------------------------------------------------------------- readings

  /** The readings stored for one run, in insertion order. */
  function ReadingsOf(rows: seq<ReadingRow>, runId: int): seq<ReadingSample> {
    if |rows| == 0 then []
    else ReadingsOf(rows[..|rows| - 1], runId)
         + (if rows[|rows| - 1].runId == runId then [rows[|rows| - 1].sample] else [])
  }

  function Tag(runId: int, samples: seq<ReadingSample>): (r: seq<ReadingRow>)
    ensures |r| == |samples| && forall i :: 0 <= i < |r| ==> r[i] == ReadingRow(runId, samples[i])
  {
    seq(|samples|, i requires 0 <= i < |samples| => ReadingRow(runId, samples[i]))
  }

  /** `ReadingRepository.insert_readings`: every sample becomes a row of the
      run, in order. A run that does not exist violates the foreign key
      (an empty batch inserts nothing and cannot fail). */
  function InsertReadings(st: Store, runId: int, samples: seq<ReadingSample>): (r: Result<Store, DbError>)
    ensures r.Err? <==> |samples| > 0 && runId !in st.runs
    ensures r.Err? ==> r.error == ForeignKeyViolation(runId)
    ensures r.Ok? ==> r.value == st.(readings := st.readings + Tag(runId, samples))
    ensures r.Ok? && Valid(st) ==> Valid(r.value)
  {
    if |samples| > 0 && runId !in st.runs then Err(ForeignKeyViolation(runId))
    else Ok(st.(readings := st.readings + Tag(runId, samples)))
  }

  lemma {:induction false} ReadingsOfAppend(rows: seq<ReadingRow>, runId: int, samples: seq<ReadingSample>)
    ensures ReadingsOf(rows + Tag(runId, samples), runId) == ReadingsOf(rows, runId) + samples
    decreases |samples|
  {
    if |samples| > 0 {
      var n := |samples| - 1;
      var all := rows + Tag(runId, samples);
      assert all[..|all| - 1] == rows + Tag(runId, samples[..n]);
      ReadingsOfAppend(rows, runId, samples[..n]);
      assert samples == samples[..n] + [samples[n]];
    } else {
      assert rows + Tag(runId, samples) == rows;
    }
  }

  lemma {:induction false} ReadingsOfOther(rows: seq<ReadingRow>, runId: int, other: int, samples: seq<ReadingSample>)
    requires other != runId
    ensures ReadingsOf(rows + Tag(runId, samples), other) == ReadingsOf(rows, other)
    decreases |samples|
  {
    if |samples| > 0 {
      var n := |samples| - 1;
      var all := rows + Tag(runId, samples);
      assert all[..|all| - 1] == rows + Tag(runId, samples[..n]);
      ReadingsOfOther(rows, runId, other, samples[..n]);
    } else {
      assert rows + Tag(runId, samples) == rows;
    }
  }

  /** A run no row refers to has no readings. */
  lemma {:induction false} ReadingsOfUnused(rows: seq<ReadingRow>, runId: int)
    requires forall i :: 0 <= i < |rows| ==> rows[i].runId != runId
    ensures ReadingsOf(rows, runId) == []
  {
    if |rows| > 0 {
      ReadingsOfUnused(rows[..|rows| - 1], runId);
    }
  }

  /** Reading back a run's readings after inserting them gives the run's
      earlier readings followed by the batch, and no other run's readings
      change. */
  lemma InsertReadingsThenRead(st: Store, runId: int, samples: seq<ReadingSample>, other: int)
    requires InsertReadings(st, runId, samples).Ok?
    ensures ReadingsOf(InsertReadings(st, runId, samples).value.readings, runId)
            == ReadingsOf(st.readings, runId) + samples
    ensures other != runId ==> ReadingsOf(InsertReadings(st, runId, samples).value.readings, other)
                               == ReadingsOf(st.readings, other)
  {
    ReadingsOfAppend(st.readings, runId, samples);
    if other != runId {
      ReadingsOfOther(st.readings, runId, other, samples);
    }
  }

  // ------------------------------------------------------------------ labels

  /** The first label whose run does not exist, if any. */
  function FirstOrphan(st: Store, labels: seq<LabelEvent>): (r: Option<nat>)
    ensures r.Some? ==> r.value < |labels| && labels[r.value].runId !in st.runs
                        && forall j :: 0 <= j < r.value ==> labels[j].runId in st.runs
    ensures r.None? ==> forall j :: 0 <= j < |labels| ==> labels[j].runId in st.runs
  {
    if |labels| == 0 then None
    else if labels[0].runId !in st.runs then Some(0)
    else
      var r := FirstOrphan(st, labels[1..]);
      if r.Some? then
        assert forall j :: 1 <= j <= r.value ==> labels[j] == labels[1..][j - 1];
        Some(r.value + 1)
      else
        assert forall j :: 1 <= j < |labels| ==> labels[j] == labels[1..][j - 1];
        None
  }

  /** `LabelRepository.insert_labels`: all labels are appended, or, if any
      names a missing run, none is and the first such run is reported. */
  function InsertLabels(st: Store, labels: seq<LabelEvent>): (r: Result<Store, DbError>)
    ensures r.Ok? <==> forall j :: 0 <= j < |labels| ==> labels[j].runId in st.runs
    ensures r.Ok? ==> r.value == st.(labels := st.labels + labels)
    ensures r.Err? ==> exists j :: 0 <= j < |labels| && labels[j].runId !in st.runs
                                   && r.error == ForeignKeyViolation(labels[j].runId)
    ensures r.Ok? && Valid(st) ==> Valid(r.value)
  {
    match FirstOrphan(st, labels)
    case Some(j) => Err(ForeignKeyViolation(labels[j].runId))
    case None =>
      var st' := st.(labels := st.labels + labels);
      assert forall i :: |st.labels| <= i < |st'.labels| ==> st'.labels[i] == labels[i - |st.labels|];
      Ok(st')
  }

  // ---------------------------------------------------------------- registry

  /** The position of the row with external id `key`. */
  function IndexOfKey(rows: seq<RegistryRow>, key: string): (r: Option<nat>)
    ensures r.Some? ==> r.value < |rows| && KeyOf(rows[r.value]) == key
    ensures r.None? <==> forall i :: 0 <= i < |rows| ==> KeyOf(rows[i]) != key
  {
    if |rows| == 0 then None
    else if KeyOf(rows[|rows| - 1]) == key then Some(|rows| - 1)
    else IndexOfKey(rows[..|rows| - 1], key)
  }

  function Keys(rows: seq<RegistryRow>): set<string> {
    set i | 0 <= i < |rows| :: KeyOf(rows[i])
  }

  function EntryKeys(es: seq<RunRegistryEntry>): set<string> {
    set i | 0 <= i < |es| :: es[i].externalRunId
  }

  /** The last of `es` with external id `key`: the one an upsert leaves. */
  function LastWith(es: seq<RunRegistryEntry>, key: string): (r: Option<RunRegistryEntry>)
    ensures r.Some? ==> r.value.externalRunId == key
    ensures r.None? <==> key !in EntryKeys(es)
  {
    if |es| == 0 then None
    else if es[|es| - 1].externalRunId == key then Some(es[|es| - 1])
    else
      var r := LastWith(es[..|es| - 1], key);
      EntryKeysLast(es);
      r
  }

  lemma EntryKeysLast(es: seq<RunRegistryEntry>)
    requires |es| > 0
    ensures EntryKeys(es) == EntryKeys(es[..|es| - 1]) + {es[|es| - 1].externalRunId}
  {
    var init := es[..|es| - 1];
    forall k | k in EntryKeys(es)
      ensures k in EntryKeys(init) + {es[|es| - 1].externalRunId}
    {
      var i :| 0 <= i < |es| && es[i].externalRunId == k;
      if i < |es| - 1 {
        assert init[i] == es[i];
      }
    }
    forall k | k in EntryKeys(init)
      ensures k in EntryKeys(es)
    {
      var i :| 0 <= i < |init| && init[i].externalRunId == k;
      assert es[i] == init[i];
    }
  }

  /** One `INSERT ... ON CONFLICT(external_run_id) DO UPDATE`: an existing
      row takes the new entry and keeps its row id and run link; otherwise
      a new, unlinked row is appended. */
  function UpsertOne(rows: seq<RegistryRow>, next: int, e: RunRegistryEntry): (r: (seq<RegistryRow>, int))
    ensures |rows| <= |r.0|
  {
    match IndexOfKey(rows, e.externalRunId)
    case Some(i) => (rows[i := rows[i].(entry := e)], next)
    case None => (rows + [RegistryRow(if next < 1 then 1 else next, e, None)], if next < 1 then 2 else next + 1)
  }

  /** `executemany` of the upsert over `es`, first to last. */
  function UpsertAll(rows: seq<RegistryRow>, next: int, es: seq<RunRegistryEntry>): (r: (seq<RegistryRow>, int))
    ensures |rows| <= |r.0|
    decreases |es|
  {
    if |es| == 0 then (rows, next)
    else
      var p := UpsertAll(rows, next, es[..|es| - 1]);
      UpsertOne(p.0, p.1, es[|es| - 1])
  }

  /** The shape every upsert keeps: existing rows stay in place with their
      ids, keys and run links; rows are only ever appended, unlinked,
      under fresh ids; the table stays valid. */
  predicate Extends(rows: seq<RegistryRow>, next: int, rows': seq<RegistryRow>, next': int) {
    |rows| <= |rows'| && next <= next'
    && (forall j :: 0 <= j < |rows| ==> rows'[j].registryId == rows[j].registryId
                                        && rows'[j].runId == rows[j].runId
                                        && KeyOf(rows'[j]) == KeyOf(rows[j]))
    && (forall j :: |rows| <= j < |rows'| ==> rows'[j].runId.None? && rows'[j].registryId >= next)
  }

  lemma UpsertOneShape(rows: seq<RegistryRow>, next: int, e: RunRegistryEntry)
    requires RegistryValid(rows, next)
    ensures RegistryValid(UpsertOne(rows, next, e).0, UpsertOne(rows, next, e).1)
    ensures Extends(rows, next, UpsertOne(rows, next, e).0, UpsertOne(rows, next, e).1)
    ensures Keys(UpsertOne(rows, next, e).0) == Keys(rows) + {e.externalRunId}
  {
    match IndexOfKey(rows, e.externalRunId)
    case Some(i) => UpdateShape(rows, next, i, e, rows[i := rows[i].(entry := e)]);
    case None =>
      var id := if next < 1 then 1 else next;
      AppendShape(rows, next, id, e, rows + [RegistryRow(id, e, None)]);
  }

  /** Overwriting the entry of the row with the same key. */
  lemma UpdateShape(rows: seq<RegistryRow>, next: int, i: nat, e: RunRegistryEntry, rows': seq<RegistryRow>)
    requires RegistryValid(rows, next)
    requires i < |rows| && KeyOf(rows[i]) == e.externalRunId
    requires rows' == rows[i := rows[i].(entry := e)]
    ensures RegistryValid(rows', next) && Extends(rows, next, rows', next)
    ensures Keys(rows') == Keys(rows) + {e.externalRunId}
  {
    assert forall j :: 0 <= j < |rows| ==> KeyOf(rows'[j]) == KeyOf(rows[j]);
    assert Keys(rows') == Keys(rows);
  }

  /** Appending a row for a new key under the next free id. */
  lemma AppendShape(rows: seq<RegistryRow>, next: int, id: int, e: RunRegistryEntry, rows': seq<RegistryRow>)
    requires RegistryValid(rows, next)
    requires forall i :: 0 <= i < |rows| ==> KeyOf(rows[i]) != e.externalRunId
    requires id == (if next < 1 then 1 else next)
    requires rows' == rows + [RegistryRow(id, e, None)]
    ensures RegistryValid(rows', id + 1) && Extends(rows, next, rows', id + 1)
    ensures Keys(rows') == Keys(rows) + {e.externalRunId}
  {
    assert rows'[|rows|] == RegistryRow(id, e, None);
    assert forall j :: 0 <= j < |rows| ==> rows'[j] == rows[j];
    assert Keys(rows') == Keys(rows) + {e.externalRunId};
  }

  lemma ExtendsTransitive(r1: seq<RegistryRow>, n1: int, r2: seq<RegistryRow>, n2: int, r3: seq<RegistryRow>, n3: int)
    requires Extends(r1, n1, r2, n2) && Extends(r2, n2, r3, n3)
    ensures Extends(r1, n1, r3, n3)
  {
  }

  /** `upsert_entries` keeps the table valid, extends it, and its keys are
      the old keys together with the imported ones. */
  lemma {:induction false} UpsertAllShape(rows: seq<RegistryRow>, next: int, es: seq<RunRegistryEntry>)
    requires RegistryValid(rows, next)
    ensures RegistryValid(UpsertAll(rows, next, es).0, UpsertAll(rows, next, es).1)
    ensures Extends(rows, next, UpsertAll(rows, next, es).0, UpsertAll(rows, next, es).1)
    ensures Keys(UpsertAll(rows, next, es).0) == Keys(rows) + EntryKeys(es)
    decreases |es|
  {
    if |es| > 0 {
      var init := es[..|es| - 1];
      var q := UpsertAll(rows, next, init);
      UpsertAllShape(rows, next, init);
      UpsertOneShape(q.0, q.1, es[|es| - 1]);
      var p := UpsertAll(rows, next, es);
      assert p == UpsertOne(q.0, q.1, es[|es| - 1]);
      ExtendsTransitive(rows, next, q.0, q.1, p.0, p.1);
      EntryKeysLast(es);
      assert Keys(p.0) == (Keys(rows) + EntryKeys(init)) + {es[|es| - 1].externalRunId};
    } else {
      assert EntryKeys(es) == {};
    }
  }

  /** Every row whose key was imported carries the last imported entry
      with that key: a later row of the sheet wins over an earlier one. */
  predicate CarriesLast(rows: seq<RegistryRow>, es: seq<RunRegistryEntry>) {
    forall j :: 0 <= j < |rows| && LastWith(es, KeyOf(rows[j])).Some?
                ==> rows[j].entry == LastWith(es, KeyOf(rows[j])).value
  }

  lemma {:induction false} UpsertAllLaterWins(rows: seq<RegistryRow>, next: int, es: seq<RunRegistryEntry>)
    requires RegistryValid(rows, next)
    ensures CarriesLast(UpsertAll(rows, next, es).0, es)
    decreases |es|
  {
    if |es| > 0 {
      var init := es[..|es| - 1];
      var q := UpsertAll(rows, next, init);
      UpsertAllLaterWins(rows, next, init);
      UpsertAllShape(rows, next, init);
      UpsertOneCarries(q.0, q.1, es);
    }
  }

  /** One upsert step keeps every row on the last entry of its key. */
  lemma UpsertOneCarries(rows: seq<RegistryRow>, next: int, es: seq<RunRegistryEntry>)
    requires RegistryValid(rows, next) && |es| > 0
    requires CarriesLast(rows, es[..|es| - 1])
    ensures CarriesLast(UpsertOne(rows, next, es[|es| - 1]).0, es)
  {
    var e := es[|es| - 1];
    var p := UpsertOne(rows, next, e);
    forall j | 0 <= j < |p.0| && LastWith(es, KeyOf(p.0[j])).Some?
      ensures p.0[j].entry == LastWith(es, KeyOf(p.0[j])).value
    {
      if KeyOf(p.0[j]) != e.externalRunId {
        assert j < |rows| && p.0[j] == rows[j];
        assert LastWith(es, KeyOf(p.0[j])) == LastWith(es[..|es| - 1], KeyOf(p.0[j]));
      }
    }
  }

  /** Rows whose key was not imported are untouched. */
  lemma {:induction false} UpsertAllKeepsOthers(rows: seq<RegistryRow>, next: int, es: seq<RunRegistryEntry>)
    requires RegistryValid(rows, next)
    ensures forall j :: 0 <= j < |rows| && LastWith(es, KeyOf(rows[j])).None?
                        ==> UpsertAll(rows, next, es).0[j] == rows[j]
    decreases |es|
  {
    if |es| > 0 {
      var init := es[..|es| - 1];
      var e := es[|es| - 1];
      var q := UpsertAll(rows, next, init);
      UpsertAllKeepsOthers(rows, next, init);
      UpsertAllShape(rows, next, init);
      var p := UpsertOne(q.0, q.1, e);
      forall j | 0 <= j < |rows| && LastWith(es, KeyOf(rows[j])).None?
        ensures p.0[j] == rows[j]
      {
        assert KeyOf(rows[j]) != e.externalRunId;
        assert LastWith(init, KeyOf(rows[j])).None?;
        assert KeyOf(q.0[j]) == KeyOf(rows[j]);
        assert p.0[j] == q.0[j];
      }
    }
  }

  /** The count `upsert_entries` returns. */
  function UpsertEntries(st: Store, es: seq<RunRegistryEntry>): (r: (Store, int))
    requires RegistryValid(st.registry, st.nextRegistryId)
    ensures r.1 == |es|
    ensures RegistryValid(r.0.registry, r.0.nextRegistryId)
    ensures Keys(r.0.registry) == Keys(st.registry) + EntryKeys(es)
    ensures CarriesLast(r.0.registry, es)
    ensures Extends(st.registry, st.nextRegistryId, r.0.registry, r.0.nextRegistryId)
    ensures forall j :: 0 <= j < |st.registry| && LastWith(es, KeyOf(st.registry[j])).None?
                        ==> r.0.registry[j] == st.registry[j]
    ensures r.0.runs == st.runs && r.0.readings == st.readings && r.0.labels == st.labels
    ensures Valid(st) ==> Valid(r.0)
  {
    var p := UpsertAll(st.registry, st.nextRegistryId, es);
    UpsertAllShape(st.registry, st.nextRegistryId, es);
    UpsertAllLaterWins(st.registry, st.nextRegistryId, es);
    UpsertAllKeepsOthers(st.registry, st.nextRegistryId, es);
    var st' := st.(registry := p.0, nextRegistryId := p.1);
    assert forall i :: 0 <= i < |st'.registry| && st'.registry[i].runId.Some?
                       ==> i < |st.registry| && st'.registry[i].runId == st.registry[i].runId;
    (st', |es|)
  }

  /** Reference definition of an upsert over rows that already hold every
      key: each row whose key was imported takes the last such entry. */
  function Overlay(rows: seq<RegistryRow>, es: seq<RunRegistryEntry>): (r: seq<RegistryRow>)
    ensures |r| == |rows|
    ensures forall j :: 0 <= j < |rows| ==> r[j] == OverlayRow(rows[j], es)
  {
    seq(|rows|, j requires 0 <= j < |rows| => OverlayRow(rows[j], es))
  }

  function OverlayRow(row: RegistryRow, es: seq<RunRegistryEntry>): RegistryRow {
    match LastWith(es, KeyOf(row))
    case Some(e) => row.(entry := e)
    case None => row
  }

  lemma OverlayStep(rows: seq<RegistryRow>, next: int, es: seq<RunRegistryEntry>)
    requires RegistryValid(rows, next)
    requires |es| > 0 && es[|es| - 1].externalRunId in Keys(rows)
    ensures UpsertOne(Overlay(rows, es[..|es| - 1]), next, es[|es| - 1]) == (Overlay(rows, es), next)
  {
    var init := es[..|es| - 1];
    var e := es[|es| - 1];
    var ov := Overlay(rows, init);
    var full := Overlay(rows, es);
    forall j | 0 <= j < |rows|
      ensures KeyOf(ov[j]) == KeyOf(rows[j])
      ensures full[j] == if KeyOf(rows[j]) == e.externalRunId then ov[j].(entry := e) else ov[j]
    {
      OverlayRowStep(rows[j], es);
    }
    var w :| 0 <= w < |rows| && KeyOf(rows[w]) == e.externalRunId;
    var i := IndexOfKey(ov, e.externalRunId).value;
    assert i == w;
    var r := ov[i := ov[i].(entry := e)];
    assert forall j :: 0 <= j < |rows| ==> r[j] == full[j];
    assert r == full;
    assert UpsertOne(ov, next, e) == (r, next);
  }

  /** One more entry changes a row only when it carries the row's key. */
  lemma OverlayRowStep(row: RegistryRow, es: seq<RunRegistryEntry>)
    requires |es| > 0
    ensures KeyOf(OverlayRow(row, es[..|es| - 1])) == KeyOf(row)
    ensures OverlayRow(row, es) == if KeyOf(row) == es[|es| - 1].externalRunId
                                   then OverlayRow(row, es[..|es| - 1]).(entry := es[|es| - 1])
                                   else OverlayRow(row, es[..|es| - 1])
  {
  }

  /** With every imported key already present, an upsert overwrites in
      place, as `Overlay` describes, and appends nothing. */
  lemma {:induction false} UpsertAllIsOverlay(rows: seq<RegistryRow>, next: int, es: seq<RunRegistryEntry>)
    requires RegistryValid(rows, next)
    requires EntryKeys(es) <= Keys(rows)
    ensures UpsertAll(rows, next, es) == (Overlay(rows, es), next)
    decreases |es|
  {
    if |es| > 0 {
      var init := es[..|es| - 1];
      EntryKeysLast(es);
      UpsertAllIsOverlay(rows, next, init);
      OverlayStep(rows, next, es);
    } else {
      assert Overlay(rows, es) == rows;
    }
  }

  /** Rows that already carry the last imported entries are left as they are. */
  lemma OverlayOfCarried(rows: seq<RegistryRow>, es: seq<RunRegistryEntry>)
    requires CarriesLast(rows, es)
    ensures Overlay(rows, es) == rows
  {
  }

  /** Importing the same entries twice leaves the registry as one import
      does. */
  lemma UpsertIdempotent(st: Store, es: seq<RunRegistryEntry>)
    requires RegistryValid(st.registry, st.nextRegistryId)
    ensures UpsertEntries(UpsertEntries(st, es).0, es).0 == UpsertEntries(st, es).0
  {
    var once := UpsertEntries(st, es).0;
    UpsertAllIsOverlay(once.registry, once.nextRegistryId, es);
    OverlayOfCarried(once.registry, es);
  }

  // ---------------------------------------------------------- lookup & link

  /** `TRIM(log_file_ref) = name`; a NULL reference matches nothing. */
  predicate RefMatches(row: RegistryRow, name: string) {
    row.entry.logFileRef.Some? && Text.SqlTrim(row.entry.logFileRef.value) == name
  }

  /** `find_by_log_file_ref`: the first matching row in table order. */
  function FindByLogFileRef(rows: seq<RegistryRow>, name: string): (r: Option<nat>)
    ensures r.Some? ==> r.value < |rows| && RefMatches(rows[r.value], name)
                        && forall j :: 0 <= j < r.value ==> !RefMatches(rows[j], name)
    ensures r.None? <==> forall j :: 0 <= j < |rows| ==> !RefMatches(rows[j], name)
  {
    FirstWhere(rows, MatchesRef(name))
  }

  function MatchesRef(name: string): RegistryRow -> bool {
    row => RefMatches(row, name)
  }

  /** `attach_run`: links the row with the given registry id to a run. */
  function AttachRun(st: Store, registryId: int, runId: int): (r: Store)
    ensures |r.registry| == |st.registry|
    ensures forall j :: 0 <= j < |st.registry| ==>
              r.registry[j] == (if st.registry[j].registryId == registryId
                                then st.registry[j].(runId := Some(runId)) else st.registry[j])
    ensures r.runs == st.runs && r.readings == st.readings && r.labels == st.labels
    ensures r.nextRunId == st.nextRunId && r.nextRegistryId == st.nextRegistryId
    ensures Valid(st) && runId in st.runs ==> Valid(r)
  {
    var rows := seq(|st.registry|, j requires 0 <= j < |st.registry| =>
                      if st.registry[j].registryId == registryId
                      then st.registry[j].(runId := Some(runId)) else st.registry[j]);
    st.(registry := rows)
  }

  /** Linking changes no entry, so the same log file still finds the same
      row, which now reports the run. */
  lemma AttachThenFind(st: Store, name: string, runId: int)
    requires FindByLogFileRef(st.registry, name).Some?
    ensures var i := FindByLogFileRef(st.registry, name).value;
            var st' := AttachRun(st, st.registry[i].registryId, runId);
            FindByLogFileRef(st'.registry, name) == Some(i) && st'.registry[i].runId == Some(runId)
  {
    var i := FindByLogFileRef(st.registry, name).value;
    var st' := AttachRun(st, st.registry[i].registryId, runId);
    assert forall j :: 0 <= j < |st.registry| ==> st'.registry[j].entry == st.registry[j].entry;
    FindSameEntries(st.registry, st'.registry, name);
  }

  /** The lookup reads only the entries. */
  lemma FindSameEntries(rows: seq<RegistryRow>, rows': seq<RegistryRow>, name: string)
    requires |rows'| == |rows|
    requires forall j :: 0 <= j < |rows| ==> rows'[j].entry == rows[j].entry
    ensures FindByLogFileRef(rows', name) == FindByLogFileRef(rows, name)
  {
    var p := MatchesRef(name);
    assert forall j :: 0 <= j < |rows| ==> p(rows'[j]) == p(rows[j]);
    FirstWhereSame(rows, rows', p);
  }
}
