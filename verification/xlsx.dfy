/** The part of the registry importer that reads an `.xlsx` workbook:
    locating the sheet, A1-style column letters, cell values (shared,
    inline and plain), and rebuilding a row's values from its sparse
    cells. The zip container and the XML parser are outside the model: a
    `Workbook` is what they would have delivered. */
module Xlsx {
  import opened Common
  import Text

  /** A `<c>` element: its `r` and `t` attributes, the text of its `<v>`
      child and of its inline `<is><t>` child. A child that is present
      without text reads as `""`. */
  datatype Cell = Cell(ref: Option<string>, cellType: Option<string>, value: Option<string>, inline: Option<string>)

  /** A `<sheet>` of `xl/workbook.xml`: its display name and relationship id. */
  datatype SheetEntry = SheetEntry(name: string, relId: string)

  /** The workbook parts the importer reads: the sheet list, the
      relationship targets by id, the shared-string items (`None` when
      `xl/sharedStrings.xml` is absent; each item is the texts of its
      `<t>` nodes) and the rows of each worksheet part by path. */
  datatype Workbook = Workbook(
    sheets: seq<SheetEntry>,
    rels: map<string, string>,
    sharedStrings: Option<seq<seq<string>>>,
    parts: map<string, seq<seq<Cell>>>)

  datatype XlsxError =
    | SheetNotFound(name: string)
    | MissingRelationship(relId: string)
    | MissingPart(path: string)

  // ---------------------------------------------------------------- columns

  predicate IsLetter(c: char) {
    'A' <= c <= 'Z' || 'a' <= c <= 'z'
  }

  /** `ord(ch.upper()) - ord("A") + 1`: 1 for `A`/`a` up to 26 for `Z`/`z`. */
  function LetterValue(c: char): int
    requires IsLetter(c)
  {
    if 'a' <= c <= 'z' then c as int - 'a' as int + 1 else c as int - 'A' as int + 1
  }

  /** The letters of a reference, in order; digits and everything else dropped. */
  function Letters(s: string): (r: string)
    ensures forall i :: 0 <= i < |r| ==> IsLetter(r[i])
  {
    if |s| == 0 then ""
    else Letters(s[..|s| - 1]) + (if IsLetter(s[|s| - 1]) then [s[|s| - 1]] else "")
  }

  /** Bijective base 26 read left to right. */
  function LettersValue(s: string): (r: nat)
    requires forall i :: 0 <= i < |s| ==> IsLetter(s[i])
    ensures |s| > 0 ==> r >= 1
  {
    if |s| == 0 then 0
    else LettersValue(s[..|s| - 1]) * 26 + LetterValue(s[|s| - 1])
  }

  /** `_column_index`: the 1-based column of a cell reference such as `B12`;
      0 when the reference has no letter. */
  function ColumnIndex(ref: string): nat {
    LettersValue(Letters(ref))
  }

  /** A reference names column 0 exactly when it has no letter at all;
      any letter makes the column at least 1. */
  lemma {:induction false} ColumnIndexZeroIffNoLetter(ref: string)
    ensures ColumnIndex(ref) == 0 <==> forall i :: 0 <= i < |ref| ==> !IsLetter(ref[i])
  {
    if |ref| > 0 {
      var init := ref[..|ref| - 1];
      ColumnIndexZeroIffNoLetter(init);
      assert forall i :: 0 <= i < |init| ==> init[i] == ref[i];
    }
  }

  /** The column letters of a 1-based column number: `A`..`Z`, `AA`, ... */
  function ColumnLetters(n: nat): (r: string)
    requires n >= 1
    ensures |r| > 0 && forall i :: 0 <= i < |r| ==> 'A' <= r[i] <= 'Z'
  {
    if n <= 26 then [(('A' as int) + n - 1) as char]
    else ColumnLetters((n - 1) / 26) + [(('A' as int) + (n - 1) % 26) as char]
  }

  lemma {:induction false} LettersOfLetters(s: string)
    requires forall i :: 0 <= i < |s| ==> IsLetter(s[i])
    ensures Letters(s) == s
  {
    if |s| > 0 {
      LettersOfLetters(s[..|s| - 1]);
    }
  }

  lemma {:induction false} LettersAppend(s: string, t: string)
    ensures Letters(s + t) == Letters(s) + Letters(t)
    decreases |t|
  {
    if |t| == 0 {
      assert s + t == s;
    } else {
      assert (s + t)[..|s + t| - 1] == s + t[..|t| - 1];
      LettersAppend(s, t[..|t| - 1]);
    }
  }

  lemma {:induction false} LettersOfDigits(s: string)
    requires forall i :: 0 <= i < |s| ==> Text.IsDigit(s[i])
    ensures Letters(s) == ""
  {
    if |s| > 0 {
      LettersOfDigits(s[..|s| - 1]);
    }
  }

  /** Column letters read back as their column number. */
  lemma {:induction false} ColumnLettersValue(n: nat)
    requires n >= 1
    ensures LettersValue(ColumnLetters(n)) == n
  {
    if n > 26 {
      var s := ColumnLetters(n);
      ColumnLettersValue((n - 1) / 26);
      assert s[..|s| - 1] == ColumnLetters((n - 1) / 26);
    }
  }

  /** The column of a reference written as letters then a row number is
      the column the letters name: `_column_index("AB7") == 28`. */
  lemma CellRefColumn(n: nat, row: nat)
    requires n >= 1
    ensures ColumnIndex(ColumnLetters(n) + Text.NatToString(row)) == n
  {
    var l := ColumnLetters(n);
    LettersAppend(l, Text.NatToString(row));
    LettersOfLetters(l);
    LettersOfDigits(Text.NatToString(row));
    assert l + "" == l;
    ColumnLettersValue(n);
  }

  /** Upper-case letters are the column letters of their value: the
      numbering is a bijection between letter strings and columns. */
  lemma {:induction false} LettersValueInverse(s: string)
    requires |s| > 0 && forall i :: 0 <= i < |s| ==> 'A' <= s[i] <= 'Z'
    ensures ColumnLetters(LettersValue(s)) == s
  {
    var n := |s|;
    var d := LetterValue(s[n - 1]);
    if n > 1 {
      var v := LettersValue(s[..n - 1]);
      LettersValueInverse(s[..n - 1]);
      var total := v * 26 + d;
      assert (total - 1) / 26 == v && (total - 1) % 26 == d - 1;
      assert s == s[..n - 1] + [s[n - 1]];
    }
  }

  /** Lower-case letters name the same column as upper-case ones. */
  lemma {:induction false} ColumnIndexIgnoresCase(s: string)
    ensures ColumnIndex(Text.Lower(s)) == ColumnIndex(s)
  {
    ColumnIndexLowerAux(s);
  }

  lemma {:induction false} ColumnIndexLowerAux(s: string)
    ensures |Letters(Text.Lower(s))| == |Letters(s)|
    ensures LettersValue(Letters(Text.Lower(s))) == LettersValue(Letters(s))
  {
    if |s| > 0 {
      var init := s[..|s| - 1];
      var c := s[|s| - 1];
      var ls := Text.Lower(s);
      assert ls[..|s| - 1] == Text.Lower(init);
      assert ls[|s| - 1] == Text.LowerChar(c);
      ColumnIndexLowerAux(init);
      assert IsLetter(Text.LowerChar(c)) <==> IsLetter(c);
      var l := Letters(ls);
      var u := Letters(s);
      if IsLetter(c) {
        assert LetterValue(Text.LowerChar(c)) == LetterValue(c);
        assert l == Letters(Text.Lower(init)) + [Text.LowerChar(c)];
        assert u == Letters(init) + [c];
        assert l[..|l| - 1] == Letters(Text.Lower(init));
        assert u[..|u| - 1] == Letters(init);
      } else {
        assert l == Letters(Text.Lower(init));
        assert u == Letters(init);
      }
    }
  }

  // ------------------------------------------------------------- cell values

  /** `_load_shared_strings`: each item's texts joined; no part, no strings. */
  function LoadSharedStrings(items: Option<seq<seq<string>>>): (r: seq<string>)
    ensures items.None? ==> r == []
    ensures items.Some? ==> |r| == |items.value|
                            && forall i :: 0 <= i < |r| ==> r[i] == Concat(items.value[i])
    ensures items.Some? ==> forall i :: 0 <= i < |r| && |items.value[i]| == 0 ==> r[i] == ""
    ensures items.Some? ==> forall i :: 0 <= i < |r| && |items.value[i]| == 1 ==> r[i] == items.value[i][0]
  {
    match items
    case None => []
    case Some(sis) =>
      assert forall i :: 0 <= i < |sis| && |sis[i]| == 1 ==> Concat(sis[i]) == sis[i][0] by {
        forall i | 0 <= i < |sis| && |sis[i]| == 1
          ensures Concat(sis[i]) == sis[i][0]
        {
          assert sis[i] == [sis[i][0]];
          ConcatSingle(sis[i][0]);
        }
      }
      seq(|sis|, i requires 0 <= i < |sis| => Concat(sis[i]))
  }

  /** `"".join(parts)`: the texts one after another, with no separator. */
  function Concat(parts: seq<string>): string {
    if |parts| == 0 then "" else Concat(parts[..|parts| - 1]) + parts[|parts| - 1]
  }

  /** Joining two lists of runs is joining each and putting them together. */
  lemma {:induction false} ConcatAppend(a: seq<string>, b: seq<string>)
    ensures Concat(a + b) == Concat(a) + Concat(b)
    decreases |b|
  {
    if |b| == 0 {
      assert a + b == a;
    } else {
      var init := b[..|b| - 1];
      ConcatAppend(a, init);
      var ab := a + b;
      assert ab[..|ab| - 1] == a + init;
      assert ab[|ab| - 1] == b[|b| - 1];
      Text.AppendAssoc(Concat(a), Concat(init), b[|b| - 1]);
    }
  }

  /** An item with a single run shows exactly that run. */
  lemma ConcatSingle(t: string)
    ensures Concat([t]) == t
  {
    assert [t][..0] == [];
  }

  /** `shared_strings[int(raw)]` as Python evaluates it: a negative index
      counts from the end; `None` where `int()` or the indexing raises. */
  function SharedLookup(raw: string, shared: seq<string>): (r: Option<string>)
    ensures r.Some? <==> Text.ParseInt(raw).Some? && -|shared| <= Text.ParseInt(raw).value < |shared|
    ensures r.Some? && Text.ParseInt(raw).value >= 0 ==> r.value == shared[Text.ParseInt(raw).value]
    ensures r.Some? && Text.ParseInt(raw).value < 0 ==> r.value == shared[|shared| + Text.ParseInt(raw).value]
  {
    match Text.ParseInt(raw)
    case None => None
    case Some(n) =>
      if 0 <= n < |shared| then Some(shared[n])
      else if -|shared| <= n < 0 then Some(shared[|shared| + n])
      else None
  }

  /** `_xlsx_cell_value`: a cell without `<v>` shows its inline text (or
      nothing); a shared-string cell shows the string its index selects,
      falling back to the raw text; any other cell shows its raw text. */
  function CellValue(cell: Cell, shared: seq<string>): (r: string)
    ensures cell.value.None? ==> r == cell.inline.GetOr("")
    ensures cell.value.Some? && cell.cellType != Some("s") ==> r == cell.value.value
    ensures cell.value.Some? && cell.cellType == Some("s")
            ==> r == SharedLookup(cell.value.value, shared).GetOr(cell.value.value)
  {
    match cell.value
    case None => cell.inline.GetOr("")
    case Some(raw) =>
      if cell.cellType == Some("s") then SharedLookup(raw, shared).GetOr(raw) else raw
  }

  /** A shared-string cell whose index was written out by a writer selects
      exactly that string. */
  lemma SharedCellRoundTrip(ref: Option<string>, i: nat, shared: seq<string>, inline: Option<string>)
    requires i < |shared|
    ensures CellValue(Cell(ref, Some("s"), Some(Text.IntToString(i)), inline), shared) == shared[i]
  {
    Text.ParseIntOfIntToString(i);
  }

  /** A negative index counts from the end: `-i` shows the i-th string
      from the back. */
  lemma SharedCellFromEnd(i: nat, shared: seq<string>)
    requires 1 <= i <= |shared|
    ensures CellValue(Cell(Some("A1"), Some("s"), Some(Text.IntToString(-(i as int))), None), shared) == shared[|shared| - i]
  {
    Text.ParseIntOfIntToString(-(i as int));
  }

  /** An index outside the table is shown as the raw text, not an error. */
  lemma SharedCellOutOfRange(raw: string, shared: seq<string>)
    requires Text.ParseInt(raw).Some? && Text.ParseInt(raw).value >= |shared|
    ensures CellValue(Cell(Some("A1"), Some("s"), Some(raw), None), shared) == raw
  {
  }

  // ------------------------------------------------------------ row rebuild

  /** Cells whose `r` attribute is missing or empty are skipped. */
  predicate HasRef(c: Cell) {
    c.ref.Some? && c.ref.value != ""
  }

  function ColumnOf(c: Cell): nat
    requires HasRef(c)
  {
    ColumnIndex(c.ref.value)
  }

  /** The highest column any referenced cell names (0 for none). */
  function MaxColumn(cells: seq<Cell>): (r: nat)
    ensures forall k :: 0 <= k < |cells| && HasRef(cells[k]) ==> ColumnOf(cells[k]) <= r
    ensures r == 0 || exists k :: 0 <= k < |cells| && HasRef(cells[k]) && ColumnOf(cells[k]) == r
  {
    if |cells| == 0 then 0
    else
      var init := cells[..|cells| - 1];
      var m := MaxColumn(init);
      var last := cells[|cells| - 1];
      assert forall k :: 0 <= k < |init| ==> cells[k] == init[k];
      if HasRef(last) && ColumnOf(last) > m then ColumnOf(last) else m
  }

  /** The last referenced cell in column `col`, which is the one whose
      value the row keeps. */
  function LastAt(cells: seq<Cell>, col: nat): (r: Option<nat>)
    ensures r.Some? ==> r.value < |cells| && HasRef(cells[r.value]) && ColumnOf(cells[r.value]) == col
                        && forall k :: r.value < k < |cells| && HasRef(cells[k]) ==> ColumnOf(cells[k]) != col
    ensures r.None? ==> forall k :: 0 <= k < |cells| && HasRef(cells[k]) ==> ColumnOf(cells[k]) != col
  {
    if |cells| == 0 then None
    else
      var last := cells[|cells| - 1];
      if HasRef(last) && ColumnOf(last) == col then Some(|cells| - 1)
      else
        var init := cells[..|cells| - 1];
        assert forall k :: 0 <= k < |init| ==> cells[k] == init[k];
        LastAt(init, col)
  }

  /** What the rebuilt row holds at a 1-based column. */
  function ColumnValue(cells: seq<Cell>, col: nat, shared: seq<string>): string {
    match LastAt(cells, col)
    case Some(k) => CellValue(cells[k], shared)
    case None => ""
  }

  /** The dense row: every column from 1 to the highest one referenced,
      blank where no cell names it. */
  function RowValues(cells: seq<Cell>, shared: seq<string>): (r: seq<string>)
    ensures |r| == MaxColumn(cells)
    ensures forall i :: 0 <= i < |r| ==> r[i] == ColumnValue(cells, i + 1, shared)
  {
    var n := MaxColumn(cells);
    var r := seq(n, i requires 0 <= i < n => ColumnValue(cells, i + 1, shared));
    assert forall i :: 0 <= i < |r| ==> r[i] == ColumnValue(cells, i + 1, shared);
    r
  }

  /** The column-to-value dictionary after reading `cells` in order. */
  function CellMap(cells: seq<Cell>, shared: seq<string>): map<nat, string> {
    if |cells| == 0 then map[]
    else
      var m := CellMap(cells[..|cells| - 1], shared);
      var last := cells[|cells| - 1];
      if HasRef(last) then m[ColumnOf(last) := CellValue(last, shared)] else m
  }

  /** The dictionary holds, for each column named, the value of the last
      cell naming it. */
  lemma {:induction false} CellMapIsLast(cells: seq<Cell>, shared: seq<string>, col: nat)
    ensures col in CellMap(cells, shared) <==> LastAt(cells, col).Some?
    ensures col in CellMap(cells, shared) ==> CellMap(cells, shared)[col] == ColumnValue(cells, col, shared)
  {
    if |cells| > 0 {
      var init := cells[..|cells| - 1];
      CellMapIsLast(init, shared, col);
      var last := cells[|cells| - 1];
      if !(HasRef(last) && ColumnOf(last) == col) {
        assert LastAt(cells, col) == LastAt(init, col);
        if LastAt(init, col).Some? {
          assert cells[LastAt(init, col).value] == init[LastAt(init, col).value];
        }
      }
    }
  }

  /** The importer's loop over a `<row>`: a dictionary from column to
      value, where a later cell overwrites an earlier one, plus the highest
      column seen; then the list of columns 1 up to that maximum. */
  method RebuildRow(cells: seq<Cell>, shared: seq<string>) returns (values: seq<string>)
    ensures |values| == MaxColumn(cells)
    ensures forall c :: 1 <= c <= |values| ==> values[c - 1] == ColumnValue(cells, c, shared)
  {
    var rowCells, maxCol := CollectCells(cells, shared);
    values := DenseRow(cells, shared, rowCells, maxCol);
  }

  /** First loop of `RebuildRow`: the dictionary and the highest column. */
  method CollectCells(cells: seq<Cell>, shared: seq<string>) returns (rowCells: map<nat, string>, maxCol: nat)
    ensures rowCells == CellMap(cells, shared) && maxCol == MaxColumn(cells)
  {
    rowCells := map[];
    maxCol := 0;
    var k := 0;
    while k < |cells|
      invariant 0 <= k <= |cells|
      invariant maxCol == MaxColumn(cells[..k])
      invariant rowCells == CellMap(cells[..k], shared)
    {
      var cell := cells[k];
      assert cells[..k + 1][..k] == cells[..k];
      if HasRef(cell) {
        var col := ColumnIndex(cell.ref.value);
        maxCol := if col > maxCol then col else maxCol;
        rowCells := rowCells[col := CellValue(cell, shared)];
      }
      k := k + 1;
    }
    assert cells[..|cells|] == cells;
  }

  /** Second loop of `RebuildRow`: columns 1 to `maxCol`, blank where the
      dictionary has nothing. */
  method DenseRow(cells: seq<Cell>, shared: seq<string>, rowCells: map<nat, string>, maxCol: nat)
    returns (values: seq<string>)
    requires rowCells == CellMap(cells, shared)
    ensures |values| == maxCol
    ensures forall c :: 1 <= c <= |values| ==> values[c - 1] == ColumnValue(cells, c, shared)
  {
    values := [];
    var i := 1;
    while i <= maxCol
      invariant 1 <= i <= maxCol + 1
      invariant |values| == i - 1
      invariant forall c :: 1 <= c < i ==> values[c - 1] == ColumnValue(cells, c, shared)
    {
      CellMapIsLast(cells, shared, i);
      var v := if i in rowCells then rowCells[i] else "";
      values := values + [v];
      i := i + 1;
    }
  }

  // ------------------------------------------------------------ sheet lookup

  /** The normalised names of the workbook's sheets, in workbook order. */
  function SheetKeys(wb: Workbook): (r: seq<string>)
    ensures |r| == |wb.sheets|
  {
    KeysOf(wb.sheets)
  }

  function KeysOf(sheets: seq<SheetEntry>): (r: seq<string>)
    ensures |r| == |sheets|
  {
    if |sheets| == 0 then []
    else KeysOf(sheets[..|sheets| - 1]) + [Text.NormalizeSheetName(sheets[|sheets| - 1].name)]
  }

  /** Each key is the normalised name of the sheet in its position. */
  lemma {:induction false} KeysOfAt(sheets: seq<SheetEntry>, i: nat)
    requires i < |sheets|
    ensures KeysOf(sheets)[i] == Text.NormalizeSheetName(sheets[i].name)
  {
    if i < |sheets| - 1 {
      KeysOfAt(sheets[..|sheets| - 1], i);
    }
  }

  /** Sheet `i` answers to the requested name once both are normalised. */
  predicate SheetMatches(wb: Workbook, i: nat, sheetName: string)
    requires i < |wb.sheets|
  {
    SheetKeys(wb)[i] == Text.NormalizeSheetName(sheetName)
  }

  /** Sheet `i` is the first to answer to the requested name. */
  predicate FirstMatch(wb: Workbook, i: nat, sheetName: string) {
    && i < |wb.sheets|
    && SheetMatches(wb, i, sheetName)
    && forall j :: 0 <= j < i ==> !SheetMatches(wb, j, sheetName)
  }

  /** The `sheet` loop: the first sheet whose normalised name equals the
      requested one, resolved through its relationship to a part path
      under `xl/`. */
  function FindSheet(wb: Workbook, sheetName: string): (r: Result<string, XlsxError>)
    ensures r == Err(SheetNotFound(sheetName)) <==> forall i :: 0 <= i < |wb.sheets| ==> !SheetMatches(wb, i, sheetName)
    ensures r.Ok? ==> forall i: nat :: FirstMatch(wb, i, sheetName)
                                  ==> wb.sheets[i].relId in wb.rels
                                      && r.value == PartPath(wb.rels[wb.sheets[i].relId])
    ensures r.Err? ==> r.error.SheetNotFound? || r.error.MissingRelationship?
    ensures r.Err? && r.error.MissingRelationship?
            ==> forall i: nat :: FirstMatch(wb, i, sheetName)
                                 ==> wb.sheets[i].relId !in wb.rels
                                     && r.error.relId == wb.sheets[i].relId
  {
    match FirstIndex(SheetKeys(wb), Text.NormalizeSheetName(sheetName), 0)
    case None =>
      assert forall i :: 0 <= i < |wb.sheets| ==> !SheetMatches(wb, i, sheetName);
      Err(SheetNotFound(sheetName))
    case Some(i) =>
      assert FirstMatch(wb, i, sheetName);
      var sheet := wb.sheets[i];
      if sheet.relId !in wb.rels then Err(MissingRelationship(sheet.relId))
      else Ok(PartPath(wb.rels[sheet.relId]))
  }

  /** At most one sheet is the first match. */
  lemma FirstMatchUnique(wb: Workbook, i: nat, k: nat, sheetName: string)
    requires FirstMatch(wb, i, sheetName) && FirstMatch(wb, k, sheetName)
    ensures i == k
  {
  }

  /** Whenever some sheet answers to the name, one of them is the first;
      with `FirstMatchUnique`, the universal clauses of `FindSheet` speak
      of exactly that sheet. */
  lemma FirstMatchExists(wb: Workbook, k: nat, sheetName: string)
    requires k < |wb.sheets| && SheetMatches(wb, k, sheetName)
    ensures exists i: nat :: FirstMatch(wb, i, sheetName)
  {
    match FirstIndex(SheetKeys(wb), Text.NormalizeSheetName(sheetName), 0)
    case None =>
      assert false;
    case Some(i) =>
      assert FirstMatch(wb, i, sheetName);
  }

  /** The first position from `from` on that holds `key`. */
  function FirstIndex(keys: seq<string>, key: string, from: nat): (r: Option<nat>)
    requires from <= |keys|
    ensures r.Some? ==> from <= r.value < |keys| && keys[r.value] == key
                        && forall j :: from <= j < r.value ==> keys[j] != key
    ensures r.None? <==> forall j :: from <= j < |keys| ==> keys[j] != key
    decreases |keys| - from
  {
    if from == |keys| then None
    else if keys[from] == key then Some(from)
    else FirstIndex(keys, key, from + 1)
  }

  /** A relationship target is relative to `xl/` unless it already starts there. */
  function PartPath(target: string): (r: string)
    ensures Text.StartsWith(r, "xl/")
    ensures Text.StartsWith(target, "xl/") ==> r == target
    ensures !Text.StartsWith(target, "xl/") ==> r == "xl/" + target
  {
    if Text.StartsWith(target, "xl/") then target
    else
      assert ("xl/" + target)[..3] == "xl/";
      "xl/" + target
  }
  /** Resolving a part path again leaves it as it is. */
  lemma PartPathIdempotent(target: string)
    ensures PartPath(PartPath(target)) == PartPath(target)
  {
  }

  /** The relationship target is kept in full at the end of its part path. */
  lemma PartPathEndsWithTarget(target: string)
    ensures Text.EndsWith(PartPath(target), target)
  {
    var r := PartPath(target);
    assert r[|r| - |target|..] == target;
  }


  /** Spelling the sheet name with underscores or in another case finds
      the same sheet. */
  lemma FindSheetIgnoresSpelling(wb: Workbook, a: string, b: string)
    requires Text.NormalizeSheetName(a) == Text.NormalizeSheetName(b)
    ensures FindSheet(wb, a).Ok? ==> FindSheet(wb, b) == FindSheet(wb, a)
  {
  }

  /** The rows of the requested sheet, each rebuilt densely. */
  function ReadSheetRows(wb: Workbook, sheetName: string): (r: Result<seq<seq<string>>, XlsxError>)
    ensures r.Ok? ==> FindSheet(wb, sheetName).Ok? && FindSheet(wb, sheetName).value in wb.parts
                      && |r.value| == |wb.parts[FindSheet(wb, sheetName).value]|
    ensures r.Ok? ==> forall i :: 0 <= i < |r.value|
                        ==> r.value[i] == RowValues(wb.parts[FindSheet(wb, sheetName).value][i],
                                                    LoadSharedStrings(wb.sharedStrings))
    ensures FindSheet(wb, sheetName).Err? ==> r == Err(FindSheet(wb, sheetName).error)
    ensures FindSheet(wb, sheetName).Ok? && FindSheet(wb, sheetName).value !in wb.parts
            ==> r == Err(MissingPart(FindSheet(wb, sheetName).value))
  {
    var shared := LoadSharedStrings(wb.sharedStrings);
    var target :- FindSheet(wb, sheetName);
    if target !in wb.parts then Err(MissingPart(target))
    else
      Ok(DenseRows(wb.parts[target], shared))
  }

  /** Every row of a sheet, each rebuilt densely. */
  function DenseRows(rows: seq<seq<Cell>>, shared: seq<string>): (r: seq<seq<string>>)
    ensures |r| == |rows|
    ensures forall i :: 0 <= i < |rows| ==> r[i] == RowValues(rows[i], shared)
  {
    seq(|rows|, i requires 0 <= i < |rows| => RowValues(rows[i], shared))
  }
}
