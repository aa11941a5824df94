/** The bookkeeping of `ExcelUtil`: how `listToExcel` splits a list over sheets of a thousand
    rows under a title row, and how `excelToList` reads a header row into a column map, checks
    the required columns and keeps the rows with content. A workbook is an abstract grid of
    cells; an entity is the map from its field names to the text stored in them. */
module ExcelUtil {
  import opened Wrappers
  import opened Text

  const SHEET_SIZE: nat := 1000

  datatype ExcelVersion = XLS | XLSX

  /** The ways the two conversions fail. */
  datatype ExcelError =
    | NoVersion                     // listToExcel: the format argument is null
    | NoData                        // listToExcel: the list is null or empty
    | NoSuchField(field: string)    // the entity class has no field of that name
    | NoSheets                      // excelToList: the workbook has no sheet
    | EmptyHeaderRow                // excelToList: the header row has no cell, so its length is -1
    | NullHeaderCell(column: nat)   // excelToList: a header cell is missing
    | HeaderCellNotText(column: nat) // excelToList: a header cell holds no text value
    | MissingColumn(name: string)   // excelToList: a required column is not in the header

  /** An object to export: its field values by field name; a field that is absent is null. */
  type Item = map<string, string>

  /** A written sheet: its rows of cell texts, the title row first. */
  type SheetCells = seq<seq<string>>

  /** The keys of a field map, in iteration order. */
  function KeysOf(fields: seq<(string, string)>): seq<string>
  {
    seq(|fields|, k requires 0 <= k < |fields| => fields[k].0)
  }

  /** The values of a field map, in iteration order. */
  function ValuesOf(fields: seq<(string, string)>): seq<string>
  {
    seq(|fields|, k requires 0 <= k < |fields| => fields[k].1)
  }

  /** The first key, in order, that is not present; None when all are. */
  function FirstAbsent(keys: seq<string>, present: set<string>): (r: Option<string>)
    ensures r.Some? ==> r.value !in present
  {
    if keys == [] then None
    else if keys[0] !in present then Some(keys[0])
    else FirstAbsent(keys[1..], present)
  }

  /** No key is reported exactly when every key is present; a reported key is one of the keys. */
  lemma {:induction false} FirstAbsentNoneIff(keys: seq<string>, present: set<string>)
    ensures FirstAbsent(keys, present).None? <==> forall k :: 0 <= k < |keys| ==> keys[k] in present
    ensures FirstAbsent(keys, present).Some? ==> FirstAbsent(keys, present).value in keys
  {
    if keys != [] && keys[0] in present {
      FirstAbsentNoneIff(keys[1..], present);
      assert forall k :: 1 <= k < |keys| ==> keys[k] == keys[1..][k - 1];
    }
  }

  /** The key found absent is the first absent one. */
  lemma {:induction false} FirstAbsentAt(keys: seq<string>, present: set<string>, h: nat)
    requires h < |keys| && keys[h] !in present
    requires forall c :: 0 <= c < h ==> keys[c] in present
    ensures FirstAbsent(keys, present) == Some(keys[h])
  {
    if h > 0 {
      assert keys[0] in present;
      FirstAbsentAt(keys[1..], present, h - 1);
    }
  }

  // ---- listToExcel ----

  /** The number of sheets: a thousand items to a sheet, the last one possibly shorter. */
  function Pages(n: nat): (pages: nat)
    ensures pages * SHEET_SIZE >= n
    ensures pages >= 1 ==> (pages - 1) * SHEET_SIZE < n
  {
    n / SHEET_SIZE + (if n % SHEET_SIZE > 0 then 1 else 0)
  }

  /** The end, exclusive, of the items sheet i receives, as written: (i + 1) * 1000 - 1 or the
      list size, whichever is smaller. */
  function EndAsWritten(i: nat, n: nat): int
  {
    if (i + 1) * SHEET_SIZE - 1 > n then n else (i + 1) * SHEET_SIZE - 1
  }

  /** Item j falls in sheet i's range, as written. */
  predicate InSheetAsWritten(j: nat, i: nat, n: nat)
  {
    i < Pages(n) && i * SHEET_SIZE <= j < EndAsWritten(i, n)
  }

  /** Every sheet starts inside the list and receives at least one item. */
  lemma SheetRange(i: nat, n: nat)
    requires i < Pages(n)
    ensures i * SHEET_SIZE < n && i * SHEET_SIZE < EndAsWritten(i, n) <= n
  {
    var p := Pages(n);
    assert i * SHEET_SIZE <= (p - 1) * SHEET_SIZE;
  }

  /** The column titles: the values of the field map, in its order. */
  function Titles(fields: seq<(string, string)>): seq<string>
  {
    ValuesOf(fields)
  }

  /** The text of one field of an item: empty for null. */
  function ItemValue(item: Item, field: string): string
  {
    if field in item then item[field] else ""
  }

  /** The row written for an item: one cell per key of the field map, in its order. */
  function RowOf(item: Item, fields: seq<(string, string)>): seq<string>
  {
    seq(|fields|, h requires 0 <= h < |fields| => ItemValue(item, fields[h].0))
  }

  /** Sheet i as written: the title row, then the rows of the items in its range. */
  function SheetAsWritten(items: seq<Item>, fields: seq<(string, string)>, i: nat): (sheet: SheetCells)
    requires i < Pages(|items|)
    ensures |sheet| == EndAsWritten(i, |items|) - i * SHEET_SIZE + 1
  {
    SheetRange(i, |items|);
    var start := i * SHEET_SIZE;
    [Titles(fields)] + seq(EndAsWritten(i, |items|) - start, k requires 0 <= k < EndAsWritten(i, |items|) - start =>
      RowOf(items[start + k], fields))
  }

  /** The workbook as written: one sheet per page. */
  function WorkbookAsWritten(items: seq<Item>, fields: seq<(string, string)>): (book: seq<SheetCells>)
    ensures |book| == Pages(|items|)
  {
    seq(Pages(|items|), i requires 0 <= i < Pages(|items|) => SheetAsWritten(items, fields, i))
  }

  /** `listToExcel` up to the output stream: a null format, then a null or empty list, are
      refused; a key of the field map that the item class does not declare fails on the first
      item; otherwise each sheet holds the titles in its first row and then the rows of the
      items in its range, as written. */
  method ListToExcel(data: Option<seq<Item>>, fields: seq<(string, string)>, declared: set<string>, version: Option<ExcelVersion>)
    returns (r: Result<seq<SheetCells>, ExcelError>)
    ensures version.None? ==> r == Err(NoVersion)
    ensures version.Some? && (data.None? || data.value == []) ==> r == Err(NoData)
    ensures version.Some? && data.Some? && data.value != [] && FirstAbsent(KeysOf(fields), declared).Some? ==>
      r == Err(NoSuchField(FirstAbsent(KeysOf(fields), declared).value))
    ensures version.Some? && data.Some? && data.value != [] && FirstAbsent(KeysOf(fields), declared).None? ==>
      r == Ok(WorkbookAsWritten(data.value, fields))
  {
    if version.None? {
      return Err(NoVersion);
    }
    if data.None? || |data.value| == 0 {
      return Err(NoData);
    }
    var items := data.value;
    var pages := |items| / SHEET_SIZE;
    if |items| % SHEET_SIZE > 0 {
      pages := pages + 1;
    }
    assert pages == Pages(|items|);
    var egTitles := new string[|fields|];
    var cnTitles := new string[|fields|];
    var count := 0;
    while count < |fields|
      invariant 0 <= count <= |fields|
      invariant forall k :: 0 <= k < count ==> egTitles[k] == fields[k].0 && cnTitles[k] == fields[k].1
    {
      egTitles[count] := fields[count].0;
      cnTitles[count] := fields[count].1;
      count := count + 1;
    }
    assert egTitles[..] == KeysOf(fields) && cnTitles[..] == Titles(fields);
    var sheets: seq<SheetCells> := [];
    for i := 0 to pages
      invariant sheets == WorkbookAsWritten(items, fields)[..i]
      invariant egTitles[..] == KeysOf(fields) && cnTitles[..] == Titles(fields)
      invariant i > 0 ==> FirstAbsent(KeysOf(fields), declared).None?
    {
      var sheet := WriteSheet(items, fields, egTitles, cnTitles, declared, i);
      if sheet.Err? {
        return Err(sheet.error);
      }
      assert WorkbookAsWritten(items, fields)[..i + 1] == sheets + [sheet.value];
      sheets := sheets + [sheet.value];
    }
    assert sheets == WorkbookAsWritten(items, fields);
    return Ok(sheets);
  }

  /** One sheet of `listToExcel`: the title row, then one row per item in the sheet's range,
      as written; a key the item class does not declare fails on the sheet's first item. */
  method WriteSheet(items: seq<Item>, fields: seq<(string, string)>, egTitles: array<string>, cnTitles: array<string>, declared: set<string>, i: nat)
    returns (r: Result<SheetCells, ExcelError>)
    requires i < Pages(|items|)
    requires egTitles[..] == KeysOf(fields) && cnTitles[..] == Titles(fields)
    ensures FirstAbsent(KeysOf(fields), declared).Some? ==>
      r == Err(NoSuchField(FirstAbsent(KeysOf(fields), declared).value))
    ensures FirstAbsent(KeysOf(fields), declared).None? ==> r == Ok(SheetAsWritten(items, fields, i))
  {
    SheetRange(i, |items|);
    var startIndex := i * SHEET_SIZE;
    var endIndex := if (i + 1) * SHEET_SIZE - 1 > |items| then |items| else (i + 1) * SHEET_SIZE - 1;
    var titleRow := WriteTitles(fields, cnTitles);
    var rows := WriteRows(items, fields, egTitles, declared, startIndex, endIndex);
    if rows.Err? {
      return Err(rows.error);
    }
    assert [titleRow] + rows.value == SheetAsWritten(items, fields, i);
    return Ok([titleRow] + rows.value);
  }

  /** The title row: the values of the field map, in order. */
  method WriteTitles(fields: seq<(string, string)>, cnTitles: array<string>) returns (titleRow: seq<string>)
    requires cnTitles[..] == Titles(fields)
    ensures titleRow == Titles(fields)
  {
    titleRow := [];
    for f := 0 to cnTitles.Length
      invariant titleRow == Titles(fields)[..f]
    {
      assert cnTitles[f] == cnTitles[..][f];
      titleRow := titleRow + [cnTitles[f]];
    }
    assert titleRow == cnTitles[..];
  }

  /** The rows of the items from `startIndex` up to `endIndex`, exclusive, in order; a key the
      item class does not declare fails on the first of them. */
  method WriteRows(items: seq<Item>, fields: seq<(string, string)>, egTitles: array<string>, declared: set<string>,
                   startIndex: nat, endIndex: nat)
    returns (r: Result<SheetCells, ExcelError>)
    requires startIndex < endIndex <= |items|
    requires egTitles[..] == KeysOf(fields)
    ensures FirstAbsent(KeysOf(fields), declared).Some? ==>
      r == Err(NoSuchField(FirstAbsent(KeysOf(fields), declared).value))
    ensures FirstAbsent(KeysOf(fields), declared).None? ==>
      r.Ok? && |r.value| == endIndex - startIndex &&
      forall k :: 0 <= k < |r.value| ==> r.value[k] == RowOf(items[startIndex + k], fields)
  {
    var rows: SheetCells := [];
    for j := startIndex to endIndex
      invariant |rows| == j - startIndex
      invariant forall k :: 0 <= k < |rows| ==> rows[k] == RowOf(items[startIndex + k], fields)
      invariant j > startIndex ==> FirstAbsent(KeysOf(fields), declared).None?
    {
      var row := WriteRow(items[j], fields, egTitles, declared);
      if row.Err? {
        return Err(row.error);
      }
      rows := rows + [row.value];
    }
    return Ok(rows);
  }

  /** The row of one item: for each key of the field map, the text of that field, empty for
      null; a key the item class does not declare fails at that key. */
  method WriteRow(item: Item, fields: seq<(string, string)>, egTitles: array<string>, declared: set<string>)
    returns (r: Result<seq<string>, ExcelError>)
    requires egTitles[..] == KeysOf(fields)
    ensures FirstAbsent(KeysOf(fields), declared).Some? ==>
      r == Err(NoSuchField(FirstAbsent(KeysOf(fields), declared).value))
    ensures FirstAbsent(KeysOf(fields), declared).None? ==> r == Ok(RowOf(item, fields))
  {
    assert egTitles.Length == |fields|;
    var row: seq<string> := [];
    for h := 0 to egTitles.Length
      invariant row == RowOf(item, fields)[..h]
      invariant forall c :: 0 <= c < h ==> KeysOf(fields)[c] in declared
    {
      assert egTitles[h] == egTitles[..][h] == KeysOf(fields)[h];
      if egTitles[h] !in declared {
        FirstAbsentAt(KeysOf(fields), declared, h);
        return Err(NoSuchField(egTitles[h]));
      }
      var value := if egTitles[h] in item then item[egTitles[h]] else "";
      row := row + [value];
    }
    assert row == RowOf(item, fields);
    FirstAbsentNoneIff(KeysOf(fields), declared);
    return Ok(row);
  }

  /** Sheet i, as written, holds the titles in its first row and, in row k >= 1, item
      i * 1000 + k - 1. */
  lemma SheetAsWrittenRows(items: seq<Item>, fields: seq<(string, string)>, i: nat)
    requires i < Pages(|items|)
    ensures SheetAsWritten(items, fields, i)[0] == ValuesOf(fields)
    ensures forall k :: 1 <= k < |SheetAsWritten(items, fields, i)| ==>
      i * SHEET_SIZE + k - 1 < |items| && SheetAsWritten(items, fields, i)[k] == RowOf(items[i * SHEET_SIZE + k - 1], fields)
  {
    SheetRange(i, |items|);
  }

  /** As written, item j lands in some sheet exactly when j mod 1000 is not 999: the last item
      of every full thousand is never written. */
  lemma AsWrittenCoverage(n: nat, j: nat)
    requires j < n
    ensures (exists i: nat :: InSheetAsWritten(j, i, n)) <==> j % SHEET_SIZE != SHEET_SIZE - 1
  {
    var q := j / SHEET_SIZE;
    assert j == q * SHEET_SIZE + j % SHEET_SIZE;
    if j % SHEET_SIZE != SHEET_SIZE - 1 {
      assert q < Pages(n);
      assert InSheetAsWritten(j, q, n);
    } else {
      forall i: nat | InSheetAsWritten(j, i, n)
        ensures false
      {
      }
    }
  }

  /** Every item outside those skipped lands in sheet j / 1000, at row j mod 1000 + 1. */
  lemma AsWrittenPlacement(items: seq<Item>, fields: seq<(string, string)>, j: nat)
    requires j < |items| && j % SHEET_SIZE != SHEET_SIZE - 1
    ensures j / SHEET_SIZE < Pages(|items|)
    ensures var sheet := WorkbookAsWritten(items, fields)[j / SHEET_SIZE];
      j % SHEET_SIZE + 1 < |sheet| && sheet[j % SHEET_SIZE + 1] == RowOf(items[j], fields)
  {
    AsWrittenCoverage(|items|, j);
    var i: nat :| InSheetAsWritten(j, i, |items|);
    var q := j / SHEET_SIZE;
    assert j == q * SHEET_SIZE + j % SHEET_SIZE;
    assert i == q;
    SheetAsWrittenRows(items, fields, q);
  }

  /** A thousand items give one sheet of a thousand rows: the titles and 999 items. */
  lemma ThousandItemsLoseOne(items: seq<Item>, fields: seq<(string, string)>)
    requires |items| == SHEET_SIZE
    ensures |WorkbookAsWritten(items, fields)| == 1
    ensures |WorkbookAsWritten(items, fields)[0]| == SHEET_SIZE
    ensures !InSheetAsWritten(SHEET_SIZE - 1, 0, SHEET_SIZE)
  {
  }

  /** The end, exclusive, of the items sheet i should receive: (i + 1) * 1000 or the list
      size, whichever is smaller. */
  function EndCorrected(i: nat, n: nat): nat
  {
    if (i + 1) * SHEET_SIZE > n then n else (i + 1) * SHEET_SIZE
  }

  /** Item j falls in sheet i's range, corrected. */
  predicate InSheetCorrected(j: nat, i: nat, n: nat)
  {
    i < Pages(n) && i * SHEET_SIZE <= j < EndCorrected(i, n)
  }

  /** Sheet i with the corrected range: the title row, then the rows of items i * 1000 up to
      (i + 1) * 1000. */
  function SheetCorrected(items: seq<Item>, fields: seq<(string, string)>, i: nat): (sheet: SheetCells)
    requires i < Pages(|items|)
    ensures |sheet| == EndCorrected(i, |items|) - i * SHEET_SIZE + 1
    ensures sheet[0] == ValuesOf(fields)
  {
    SheetRange(i, |items|);
    var start := i * SHEET_SIZE;
    [Titles(fields)] + seq(EndCorrected(i, |items|) - start, k requires 0 <= k < EndCorrected(i, |items|) - start =>
      RowOf(items[start + k], fields))
  }

  function WorkbookCorrected(items: seq<Item>, fields: seq<(string, string)>): (book: seq<SheetCells>)
    ensures |book| == Pages(|items|)
  {
    seq(Pages(|items|), i requires 0 <= i < Pages(|items|) => SheetCorrected(items, fields, i))
  }

  /** With the corrected range, every item lands in exactly one sheet, sheet j / 1000. */
  lemma CorrectedCoverage(n: nat, j: nat)
    requires j < n
    ensures InSheetCorrected(j, j / SHEET_SIZE, n)
    ensures forall i: nat :: InSheetCorrected(j, i, n) ==> i == j / SHEET_SIZE
  {
    var q := j / SHEET_SIZE;
    assert j == q * SHEET_SIZE + j % SHEET_SIZE;
    assert q < Pages(n);
    forall i: nat | InSheetCorrected(j, i, n)
      ensures i == q
    {
    }
  }

  /** With the corrected range, item j is written in sheet j / 1000, at row j mod 1000 + 1,
      and the rows of all sheets together number the items. */
  lemma CorrectedPlacement(items: seq<Item>, fields: seq<(string, string)>, j: nat)
    requires j < |items|
    ensures j / SHEET_SIZE < Pages(|items|)
    ensures var sheet := WorkbookCorrected(items, fields)[j / SHEET_SIZE];
      j % SHEET_SIZE + 1 < |sheet| && sheet[j % SHEET_SIZE + 1] == RowOf(items[j], fields)
  {
    CorrectedCoverage(|items|, j);
    var q := j / SHEET_SIZE;
    assert j == q * SHEET_SIZE + j % SHEET_SIZE;
    SheetRange(q, |items|);
  }

  // ---- excelToList ----

  /** A cell: text, blank, a boolean, a number (given as the text the number converter, or for a
      date-formatted cell the date's `toString`, produces), a formula with its formula text and
      the type of its cached result, or an error value with its error text such as "#DIV/0!". */
  datatype Cell =
    | StringCell(s: string)
    | BlankCell
    | BooleanCell(b: bool)
    | NumericCell(text: string)
    | FormulaCell(formula: string, cached: CachedResult)
    | ErrorCell(text: string)

  /** The cached result of a formula cell: a string, or a number, boolean or error value. */
  datatype CachedResult = CachedText(s: string) | CachedOther

  /** A row: its cells by column, None for a missing cell. */
  type Row = seq<Option<Cell>>

  /** A sheet: its rows by number, None for a missing row; the last row number is |rows| - 1. */
  datatype Sheet = Sheet(rows: seq<Option<Row>>)

  /** An imported object: the text set into each field, by field name. */
  type Entity = map<string, string>

  /** The name a header cell gives its column (`getStringCellValue().trim()`): the trimmed text
      of a text cell, empty for a blank one, the trimmed cached string of a formula whose result
      is a string; a missing cell fails with a null pointer, and a number, a boolean, an error
      value or a formula with another result fails with an illegal state. */
  function HeaderName(cell: Option<Cell>, f: nat): Result<string, ExcelError>
  {
    match cell
    case None => Err(NullHeaderCell(f))
    case Some(StringCell(s)) => Ok(Trim(s))
    case Some(BlankCell) => Ok("")
    case Some(FormulaCell(_, CachedText(s))) => Ok(Trim(s))
    case Some(_) => Err(HeaderCellNotText(f))
  }

  /** Only cells holding text, or a formula that caches text, name their column; a header cell
      that names it gives the same name as a plain text cell with the same string. */
  lemma HeaderNameOkIff(cell: Option<Cell>, f: nat)
    ensures HeaderName(cell, f).Ok? <==>
      cell.Some? && (cell.value.StringCell? || cell.value.BlankCell? ||
                     (cell.value.FormulaCell? && cell.value.cached.CachedText?))
    ensures cell.Some? && cell.value.FormulaCell? && cell.value.cached.CachedText? ==>
      HeaderName(cell, f) == HeaderName(Some(StringCell(cell.value.cached.s)), f)
    ensures cell.None? ==> HeaderName(cell, f) == Err(NullHeaderCell(f))
    ensures HeaderName(cell, f).Err? && cell.Some? ==> HeaderName(cell, f) == Err(HeaderCellNotText(f))
  {
  }

  /** The names of the first k header cells, or the error of the first one that has none. */
  function HeaderPrefix(header: Row, k: nat): (r: Result<seq<string>, ExcelError>)
    requires k <= |header|
    ensures r.Ok? ==> |r.value| == k
  {
    if k == 0 then Ok([])
    else match HeaderPrefix(header, k - 1)
      case Err(e) => Err(e)
      case Ok(names) =>
        match HeaderName(header[k - 1], k - 1)
        case Err(e) => Err(e)
        case Ok(name) => Ok(names + [name])
  }

  /** A prefix that is read whole holds the name of each of its cells. */
  lemma {:induction false} HeaderPrefixNames(header: Row, k: nat)
    requires k <= |header| && HeaderPrefix(header, k).Ok?
    ensures forall f :: 0 <= f < k ==> HeaderName(header[f], f) == Ok(HeaderPrefix(header, k).value[f])
  {
    if k > 0 {
      HeaderPrefixNames(header, k - 1);
    }
  }

  /** A failing prefix fails with the error of its first cell that has no name. */
  lemma {:induction false} HeaderPrefixFirstError(header: Row, k: nat)
    requires k <= |header| && HeaderPrefix(header, k).Err?
    ensures exists f :: 0 <= f < k && HeaderName(header[f], f) == Err(HeaderPrefix(header, k).error) &&
                        forall g :: 0 <= g < f ==> HeaderName(header[g], g).Ok?
  {
    if HeaderPrefix(header, k - 1).Err? {
      HeaderPrefixFirstError(header, k - 1);
    } else {
      var f := k - 1;
      HeaderPrefixNames(header, f);
      assert HeaderName(header[f], f) == Err(HeaderPrefix(header, k).error);
      assert forall g :: 0 <= g < f ==> HeaderName(header[g], g).Ok?;
    }
  }

  /** One more header cell: its error, or its name appended. */
  lemma HeaderPrefixStep(header: Row, f: nat)
    requires f < |header| && HeaderPrefix(header, f).Ok?
    ensures HeaderName(header[f], f).Err? ==> HeaderPrefix(header, f + 1) == Err(HeaderName(header[f], f).error)
    ensures HeaderName(header[f], f).Ok? ==>
      HeaderPrefix(header, f + 1) == Ok(HeaderPrefix(header, f).value + [HeaderName(header[f], f).value])
  {
  }

  /** Once a header cell fails, every longer prefix fails with the same error. */
  lemma {:induction false} HeaderPrefixErrPersists(header: Row, k: nat, k': nat)
    requires k <= k' <= |header| && HeaderPrefix(header, k).Err?
    ensures HeaderPrefix(header, k') == HeaderPrefix(header, k)
    decreases k' - k
  {
    if k < k' {
      assert HeaderPrefix(header, k + 1) == HeaderPrefix(header, k);
      HeaderPrefixErrPersists(header, k + 1, k');
    }
  }

  /** The column names of a header row; a row without cells fails. */
  function Headers(header: Row): Result<seq<string>, ExcelError>
  {
    if |header| == 0 then Err(EmptyHeaderRow) else HeaderPrefix(header, |header|)
  }

  /** The position of the last occurrence of x in s. */
  function LastIndex<T(==)>(s: seq<T>, x: T): (g: nat)
    requires x in s
    ensures g < |s| && s[g] == x
    ensures forall h :: g < h < |s| ==> s[h] != x
  {
    if s[|s| - 1] == x then |s| - 1 else LastIndex(s[..|s| - 1], x)
  }

  /** The map after putting each element of s under its position, in order. */
  function PutAll<K(==)>(m: map<K, nat>, s: seq<K>): map<K, nat>
  {
    if s == [] then m else PutAll(m, s[..|s| - 1])[s[|s| - 1] := |s| - 1]
  }

  /** After the puts, each element of s maps to its last position, and every other key keeps
      its value. */
  lemma {:induction false} PutAllLookup<K(!new)>(m: map<K, nat>, s: seq<K>, k: K)
    ensures k in PutAll(m, s) <==> k in m || k in s
    ensures k in s ==> PutAll(m, s)[k] == LastIndex(s, k)
    ensures k !in s && k in m ==> PutAll(m, s)[k] == m[k]
  {
    if s != [] {
      PutAllLookup(m, s[..|s| - 1], k);
      assert s == s[..|s| - 1] + [s[|s| - 1]];
    }
  }

  /** Last positions agree between a sequence and its image under `Some`. */
  lemma LastIndexSome(names: seq<string>, opt: seq<Option<string>>, x: string)
    requires |opt| == |names| && forall g :: 0 <= g < |names| ==> opt[g] == Some(names[g])
    requires x in names
    ensures Some(x) in opt && LastIndex(opt, Some(x)) == LastIndex(names, x)
  {
    var b := LastIndex(names, x);
    assert opt[b] == Some(x);
    var a := LastIndex(opt, Some(x));
    assert names[a] == x;
  }

  /** The names of a header, as a set. */
  function NameSet(names: seq<string>): (s: set<string>)
    ensures forall n :: n in s <==> n in names
  {
    set n | n in names
  }

  /** The column check passes exactly when every key of the field map is a header name. */
  lemma AllColumnsPresentIff(fields: seq<(string, string)>, names: seq<string>)
    ensures FirstAbsent(KeysOf(fields), NameSet(names)).None? <==> AllColumnsPresent(fields, names)
  {
    FirstAbsentNoneIff(KeysOf(fields), NameSet(names));
    assert forall k :: 0 <= k < |fields| ==> KeysOf(fields)[k] == fields[k].0;
  }

  /** Putting every name of the array, after the name at f has been filled in, leaves each
      name mapped to its last position, provided the map held only names already read. */
  lemma ColumnMapStep(m0: map<Option<string>, nat>, before: seq<Option<string>>, after: seq<Option<string>>, f: nat, name: string)
    requires f < |before| && before[f] == None && after == before[f := Some(name)]
    requires forall k :: k in m0 && k.Some? ==> k in before
    ensures forall k :: k in PutAll(m0, after) && k.Some? ==> k in after && PutAll(m0, after)[k] == LastIndex(after, k)
    ensures forall k :: k in after && k.Some? ==> k in PutAll(m0, after)
  {
    forall k: Option<string> | k.Some?
      ensures k in PutAll(m0, after) ==> k in after && PutAll(m0, after)[k] == LastIndex(after, k)
      ensures k in after ==> k in PutAll(m0, after)
    {
      PutAllLookup(m0, after, k);
      if k in m0 {
        var g :| 0 <= g < |before| && before[g] == k;
        assert after[g] == k;
      }
    }
  }

  /** The column map of a header: exactly its names, each mapped to its last position. */
  predicate ColumnsAre(cols: map<Option<string>, nat>, names: seq<string>)
  {
    (forall k :: k in cols ==> k.Some? && k.value in names) &&
    forall n :: n in names ==> Some(n) in cols && cols[Some(n)] == LastIndex(names, n)
  }

  /** Every name of the array, null included, put into the map under its position, in order. */
  method PutNames(colMap: map<Option<string>, nat>, excelFieldNames: array<Option<string>>) returns (m: map<Option<string>, nat>)
    ensures m == PutAll(colMap, excelFieldNames[..])
  {
    m := colMap;
    for g := 0 to excelFieldNames.Length
      invariant m == PutAll(colMap, excelFieldNames[..g])
    {
      assert excelFieldNames[..g + 1] == excelFieldNames[..g] + [excelFieldNames[g]];
      m := m[excelFieldNames[g] := g];
    }
    assert excelFieldNames[..excelFieldNames.Length] == excelFieldNames[..];
  }

  /** Reading the header row: the names array is filled cell by cell and, after each cell, every
      name read so far (and null for the rest) is put into the column map under its position;
      the null key is removed at the end. A header name thus maps to the position of its last
      occurrence. */
  method ReadHeader(header: Row) returns (r: Result<(seq<string>, map<Option<string>, nat>), ExcelError>)
    ensures r.Err? <==> Headers(header).Err?
    ensures r.Err? ==> r.error == Headers(header).error
    ensures r.Ok? ==> r.value.0 == Headers(header).value && ColumnsAre(r.value.1, r.value.0)
  {
    var cellLength := |header|;
    if cellLength == 0 {
      return Err(EmptyHeaderRow);
    }
    var excelFieldNames := new Option<string>[cellLength](_ => None);
    var colMap: map<Option<string>, nat> := map[];
    for f := 0 to cellLength
      invariant HeaderPrefix(header, f).Ok?
      invariant forall g :: 0 <= g < f ==> excelFieldNames[g] == Some(HeaderPrefix(header, f).value[g])
      invariant forall g :: f <= g < cellLength ==> excelFieldNames[g] == None
      invariant forall k :: k in colMap && k.Some? ==> k in excelFieldNames[..] && colMap[k] == LastIndex(excelFieldNames[..], k)
      invariant forall k :: k in excelFieldNames[..] && k.Some? ==> k in colMap
    {
      var name := HeaderName(header[f], f);
      HeaderPrefixStep(header, f);
      if name.Err? {
        HeaderPrefixErrPersists(header, f + 1, cellLength);
        return Err(name.error);
      }
      colMap := PutHeaderName(excelFieldNames, colMap, f, name.value);
    }
    var names := HeaderPrefix(header, cellLength).value;
    HeaderColumns(names, excelFieldNames[..], colMap);
    colMap := colMap - {None};
    return Ok((names, colMap));
  }

  /** One step of the header loop: the name goes into the array at f, then every name of the
      array is put into the column map under its position. */
  method PutHeaderName(excelFieldNames: array<Option<string>>, colMap: map<Option<string>, nat>, f: nat, name: string)
    returns (m: map<Option<string>, nat>)
    modifies excelFieldNames
    requires f < excelFieldNames.Length && excelFieldNames[f] == None
    requires forall k :: k in colMap && k.Some? ==> k in excelFieldNames[..]
    ensures excelFieldNames[..] == old(excelFieldNames[..])[f := Some(name)]
    ensures forall k :: k in m && k.Some? ==> k in excelFieldNames[..] && m[k] == LastIndex(excelFieldNames[..], k)
    ensures forall k :: k in excelFieldNames[..] && k.Some? ==> k in m
  {
    ghost var before := excelFieldNames[..];
    excelFieldNames[f] := Some(name);
    assert excelFieldNames[..] == before[f := Some(name)];
    m := PutNames(colMap, excelFieldNames);
    ColumnMapStep(colMap, before, excelFieldNames[..], f, name);
  }

  /** The column map left by the header loop, with the null key removed, holds exactly the
      header names, each under its last position. */
  lemma HeaderColumns(names: seq<string>, arr: seq<Option<string>>, cols: map<Option<string>, nat>)
    requires |arr| == |names| && forall g :: 0 <= g < |names| ==> arr[g] == Some(names[g])
    requires forall k :: k in cols && k.Some? ==> k in arr && cols[k] == LastIndex(arr, k)
    requires forall k :: k in arr && k.Some? ==> k in cols
    ensures ColumnsAre(cols - {None}, names)
  {
    var m := cols - {None};
    forall n | n in names
      ensures Some(n) in m && m[Some(n)] == LastIndex(names, n)
    {
      LastIndexSome(names, arr, n);
    }
    forall k | k in m
      ensures k.Some? && k.value in names
    {
      var g :| 0 <= g < |arr| && arr[g] == k;
      assert names[g] == k.value;
    }
  }

  /** The required-column check: the first key of the field map that is not a header name. */
  method CheckColumns(fields: seq<(string, string)>, names: seq<string>) returns (missing: Option<string>)
    ensures missing == FirstAbsent(KeysOf(fields), NameSet(names))
  {
    var k := 0;
    while k < |fields|
      invariant 0 <= k <= |fields|
      invariant forall c :: 0 <= c < k ==> KeysOf(fields)[c] in NameSet(names)
    {
      if fields[k].0 !in names {
        FirstAbsentAt(KeysOf(fields), NameSet(names), k);
        return Some(fields[k].0);
      }
      k := k + 1;
    }
    FirstAbsentNoneIff(KeysOf(fields), NameSet(names));
    return None;
  }

  /** The text read from a cell: empty for a missing cell, the converted text of a number, and
      otherwise the trimmed `toString` of the cell, which for a formula is its formula text and
      for an error value its error text. */
  function Content(cell: Option<Cell>): string
  {
    match cell
    case None => ""
    case Some(NumericCell(text)) => text
    case Some(StringCell(s)) => Trim(s)
    case Some(BlankCell) => ""
    case Some(BooleanCell(b)) => if b then "TRUE" else "FALSE"
    case Some(FormulaCell(formula, _)) => Trim(formula)
    case Some(ErrorCell(text)) => Trim(text)
  }

  /** The cell of a row in a column; beyond the row's last cell there is none. */
  function CellAt(row: Row, col: nat): Option<Cell>
  {
    if col < |row| then row[col] else None
  }

  /** Every key of the field map is a header name. */
  predicate AllColumnsPresent(fields: seq<(string, string)>, names: seq<string>)
  {
    forall k :: 0 <= k < |fields| ==> fields[k].0 in names
  }

  /** The contents of a row for each entry of the field map, read in the column of the
      entry's key. */
  function Contents(row: Row, fields: seq<(string, string)>, names: seq<string>): (c: seq<string>)
    requires AllColumnsPresent(fields, names)
    ensures |c| == |fields|
  {
    if fields == [] then []
    else
      var n := |fields| - 1;
      assert forall k :: 0 <= k < n ==> fields[..n][k] == fields[k];
      Contents(row, fields[..n], names) + [Content(CellAt(row, LastIndex(names, fields[n].0)))]
  }

  /** Entry k of the contents is the content of the column holding entry k's key. */
  lemma {:induction false} ContentsAt(row: Row, fields: seq<(string, string)>, names: seq<string>, k: nat)
    requires AllColumnsPresent(fields, names) && k < |fields|
    ensures Contents(row, fields, names)[k] == Content(CellAt(row, LastIndex(names, fields[k].0)))
  {
    var n := |fields| - 1;
    if k < n {
      assert forall j :: 0 <= j < n ==> fields[..n][j] == fields[j];
      ContentsAt(row, fields[..n], names, k);
    }
  }

  /** The validity flag after the first k contents: set once one of them is not blank. */
  predicate AnyNotBlank(contents: seq<string>, k: nat)
    requires k <= |contents|
  {
    k > 0 && (AnyNotBlank(contents, k - 1) || !IsBlank(Some(contents[k - 1])))
  }

  /** A row is kept when some content is not blank. */
  predicate IsValidRow(contents: seq<string>)
  {
    AnyNotBlank(contents, |contents|)
  }

  /** The entity after setting the first k fields, in order; a later entry for the same field
      overwrites an earlier one. */
  function Assign(fields: seq<(string, string)>, contents: seq<string>, k: nat): (e: Entity)
    requires k <= |fields| == |contents|
  {
    if k == 0 then map[] else Assign(fields, contents, k - 1)[fields[k - 1].1 := contents[k - 1]]
  }

  function EntityOf(fields: seq<(string, string)>, contents: seq<string>): Entity
    requires |fields| == |contents|
  {
    Assign(fields, contents, |fields|)
  }

  /** The content read for entry k of the field map, through the column map, is the k-th of
      the row's contents. */
  lemma ContentAt(row: Row, fields: seq<(string, string)>, names: seq<string>, cols: map<Option<string>, nat>, k: nat)
    requires ColumnsAre(cols, names) && AllColumnsPresent(fields, names) && k < |fields|
    ensures Some(fields[k].0) in cols && Content(CellAt(row, cols[Some(fields[k].0)])) == Contents(row, fields, names)[k]
  {
    assert fields[k].0 in names;
    ContentsAt(row, fields, names, k);
  }

  /** The flag is set exactly when some of the first k contents is not blank. */
  lemma {:induction false} AnyNotBlankIff(contents: seq<string>, k: nat)
    requires k <= |contents|
    ensures AnyNotBlank(contents, k) <==> exists c :: 0 <= c < k && !IsBlank(Some(contents[c]))
  {
    if k > 0 {
      AnyNotBlankIff(contents, k - 1);
      if !IsBlank(Some(contents[k - 1])) {
        assert 0 <= k - 1 < k && !IsBlank(Some(contents[k - 1]));
      }
    }
  }

  /** Reading the content of entry k of the field map: the cell in the column the column map
      gives for the entry's key. */
  method ReadContent(row: Row, fields: seq<(string, string)>, names: seq<string>, cols: map<Option<string>, nat>, k: nat)
    returns (content: string)
    requires ColumnsAre(cols, names) && AllColumnsPresent(fields, names) && k < |fields|
    ensures content == Contents(row, fields, names)[k]
  {
    ContentAt(row, fields, names, cols, k);
    var col := cols[Some(fields[k].0)];
    content := Content(CellAt(row, col));
  }

  /** Converting a row: each entry of the field map sets its field to the content of its column,
      and the row is valid once any content is not blank. */
  method ConvertRow(row: Row, fields: seq<(string, string)>, names: seq<string>, cols: map<Option<string>, nat>, declared: set<string>)
    returns (r: Result<(Entity, bool), ExcelError>)
    requires ColumnsAre(cols, names) && AllColumnsPresent(fields, names)
    ensures FirstAbsent(ValuesOf(fields), declared).Some? ==>
      r == Err(NoSuchField(FirstAbsent(ValuesOf(fields), declared).value))
    ensures FirstAbsent(ValuesOf(fields), declared).None? ==>
      r == Ok((EntityOf(fields, Contents(row, fields, names)), IsValidRow(Contents(row, fields, names))))
  {
    ghost var contents := Contents(row, fields, names);
    var entity: Entity := map[];
    var isValid := false;
    for k := 0 to |fields|
      invariant entity == Assign(fields, contents, k)
      invariant isValid == AnyNotBlank(contents, k)
      invariant DeclaredUpTo(fields, declared, k)
    {
      var enNormalName := fields[k].1;
      var content := ReadContent(row, fields, names, cols, k);
      if enNormalName !in declared {
        FieldAbsentAt(fields, declared, k);
        return Err(NoSuchField(enNormalName));
      }
      entity := entity[enNormalName := content];
      if !IsBlank(Some(content)) {
        isValid := true;
      }
    }
    FieldsAllPresent(fields, declared);
    return Ok((entity, isValid));
  }

  /** The first entity field, in order, that the class does not declare is the one reported. */
  lemma FieldAbsentAt(fields: seq<(string, string)>, declared: set<string>, k: nat)
    requires k < |fields| && fields[k].1 !in declared && DeclaredUpTo(fields, declared, k)
    ensures FirstAbsent(ValuesOf(fields), declared) == Some(fields[k].1)
  {
    DeclaredUpToAll(fields, declared, k);
    FirstAbsentAt(ValuesOf(fields), declared, k);
  }

  /** When the class declares every entity field, none is reported. */
  lemma FieldsAllPresent(fields: seq<(string, string)>, declared: set<string>)
    requires DeclaredUpTo(fields, declared, |fields|)
    ensures FirstAbsent(ValuesOf(fields), declared) == None
  {
    DeclaredUpToAll(fields, declared, |fields|);
    FirstAbsentNoneIff(ValuesOf(fields), declared);
  }

  /** The class declares the first k entity fields. */
  predicate DeclaredUpTo(fields: seq<(string, string)>, declared: set<string>, k: nat)
    requires k <= |fields|
  {
    k == 0 || (DeclaredUpTo(fields, declared, k - 1) && fields[k - 1].1 in declared)
  }

  lemma {:induction false} DeclaredUpToAll(fields: seq<(string, string)>, declared: set<string>, k: nat)
    requires k <= |fields| && DeclaredUpTo(fields, declared, k)
    ensures forall c :: 0 <= c < k ==> fields[c].1 in declared
  {
    if k > 0 {
      DeclaredUpToAll(fields, declared, k - 1);
    }
  }

  /** Some row numbered from 1 up to, but excluding, j exists. */
  predicate HasDataRowBelow(rows: seq<Option<Row>>, j: nat)
  {
    exists i :: 1 <= i < j && i < |rows| && rows[i].Some?
  }

  /** The entities of rows 1 up to, but excluding, k that are present and valid, in order. */
  function Kept(rows: seq<Option<Row>>, fields: seq<(string, string)>, names: seq<string>, k: nat): seq<Entity>
    requires 1 <= k <= |rows| && AllColumnsPresent(fields, names)
  {
    if k == 1 then []
    else
      var kept := Kept(rows, fields, names, k - 1);
      match rows[k - 1]
      case None => kept
      case Some(row) =>
        var contents := Contents(row, fields, names);
        if IsValidRow(contents) then kept + [EntityOf(fields, contents)] else kept
  }

  /** The entities a sheet gives: none when it has no first row; the header's error, or the
      first required column missing from it; a missing entity field once a row is converted;
      otherwise the kept rows. */
  function SheetEntities(sheet: Sheet, fields: seq<(string, string)>, declared: set<string>): (r: Result<seq<Entity>, ExcelError>)
    ensures |sheet.rows| == 0 || sheet.rows[0].None? ==> r == Ok([])
  {
    if |sheet.rows| == 0 || sheet.rows[0].None? then Ok([])
    else match Headers(sheet.rows[0].value)
      case Err(e) => Err(e)
      case Ok(names) =>
        match FirstAbsent(KeysOf(fields), NameSet(names))
        case Some(column) => Err(MissingColumn(column))
        case None =>
          AllColumnsPresentIff(fields, names);
          RowsResult(sheet.rows, fields, names, declared)
  }

  /** What the data rows of a sheet give: a missing entity field once a row is converted,
      otherwise the kept rows. */
  function RowsResult(rows: seq<Option<Row>>, fields: seq<(string, string)>, names: seq<string>, declared: set<string>): Result<seq<Entity>, ExcelError>
    requires 1 <= |rows| && AllColumnsPresent(fields, names)
  {
    var missing := FirstAbsent(ValuesOf(fields), declared);
    if missing.Some? && HasDataRowBelow(rows, |rows|) then Err(NoSuchField(missing.value))
    else Ok(Kept(rows, fields, names, |rows|))
  }

  /** Converting one sheet: rows 1 to the last row number are read, missing rows skipped. */
  method ConvertSheet(sheet: Sheet, fields: seq<(string, string)>, declared: set<string>) returns (r: Result<seq<Entity>, ExcelError>)
    ensures r == SheetEntities(sheet, fields, declared)
  {
    if |sheet.rows| == 0 || sheet.rows[0].None? {
      return Ok([]);
    }
    var header := ReadHeader(sheet.rows[0].value);
    if header.Err? {
      return Err(header.error);
    }
    var names := header.value.0;
    var colMap := header.value.1;
    var missing := CheckColumns(fields, names);
    if missing.Some? {
      return Err(MissingColumn(missing.value));
    }
    AllColumnsPresentIff(fields, names);
    r := ConvertRows(sheet.rows, fields, names, colMap, declared);
  }

  /** The row loop of a sheet: rows 1 to the last row number are converted, missing rows
      skipped, and the valid entities gathered in order. */
  method ConvertRows(rows: seq<Option<Row>>, fields: seq<(string, string)>, names: seq<string>, cols: map<Option<string>, nat>, declared: set<string>)
    returns (r: Result<seq<Entity>, ExcelError>)
    requires 1 <= |rows| && ColumnsAre(cols, names) && AllColumnsPresent(fields, names)
    ensures r == RowsResult(rows, fields, names, declared)
  {
    var resultList: seq<Entity> := [];
    for j := 1 to |rows|
      invariant resultList == Kept(rows, fields, names, j)
      invariant HasDataRowBelow(rows, j) ==> FirstAbsent(ValuesOf(fields), declared).None?
    {
      if rows[j].Some? {
        var converted := ConvertRow(rows[j].value, fields, names, cols, declared);
        if converted.Err? {
          assert HasDataRowBelow(rows, |rows|) by {
            assert 1 <= j < |rows| && rows[j].Some?;
          }
          return Err(converted.error);
        }
        if converted.value.1 {
          resultList := resultList + [converted.value.0];
        }
      } else {
        assert HasDataRowBelow(rows, j + 1) ==> HasDataRowBelow(rows, j);
      }
    }
    return Ok(resultList);
  }

  /** The entities of the first k per-sheet results, in order, or the first error among them. */
  function Gathered(parts: seq<Result<seq<Entity>, ExcelError>>, k: nat): Result<seq<Entity>, ExcelError>
    requires k <= |parts|
  {
    if k == 0 then Ok([])
    else match Gathered(parts, k - 1)
      case Err(e) => Err(e)
      case Ok(before) =>
        match parts[k - 1]
        case Err(e) => Err(e)
        case Ok(more) => Ok(before + more)
  }

  /** What each sheet gives, in order. */
  function SheetResults(sheets: seq<Sheet>, fields: seq<(string, string)>, declared: set<string>): (parts: seq<Result<seq<Entity>, ExcelError>>)
    ensures |parts| == |sheets|
  {
    seq(|sheets|, i requires 0 <= i < |sheets| => SheetEntities(sheets[i], fields, declared))
  }

  /** `excelToList` on a parsed workbook: no sheet at all fails; otherwise the entities of all
      sheets in order, or the first error. */
  function ExcelToListResult(sheets: seq<Sheet>, fields: seq<(string, string)>, declared: set<string>): (r: Result<seq<Entity>, ExcelError>)
    ensures sheets == [] ==> r == Err(NoSheets)
  {
    if |sheets| == 0 then Err(NoSheets) else Gathered(SheetResults(sheets, fields, declared), |sheets|)
  }

  /** Once a sheet fails, the whole import fails with that error. */
  lemma {:induction false} GatheredErrPersists(parts: seq<Result<seq<Entity>, ExcelError>>, k: nat, k': nat)
    requires k <= k' <= |parts| && Gathered(parts, k).Err?
    ensures Gathered(parts, k') == Gathered(parts, k)
    decreases k' - k
  {
    if k < k' {
      assert Gathered(parts, k + 1) == Gathered(parts, k);
      GatheredErrPersists(parts, k + 1, k');
    }
  }

  /** `excelToList`: the sheets are converted in order and their entities gathered. */
  method ExcelToList(sheets: seq<Sheet>, fields: seq<(string, string)>, declared: set<string>) returns (r: Result<seq<Entity>, ExcelError>)
    ensures r == ExcelToListResult(sheets, fields, declared)
  {
    var resultList: seq<Entity> := [];
    var sheetCount := |sheets|;
    if sheetCount == 0 {
      return Err(NoSheets);
    }
    ghost var parts := SheetResults(sheets, fields, declared);
    for i := 0 to sheetCount
      invariant Gathered(parts, i) == Ok(resultList)
    {
      var part := ConvertSheet(sheets[i], fields, declared);
      assert part == parts[i];
      if part.Err? {
        assert Gathered(parts, i + 1).Err?;
        GatheredErrPersists(parts, i + 1, sheetCount);
        return Err(part.error);
      }
      resultList := resultList + part.value;
    }
    return Ok(resultList);
  }

  /** A failing sheet fails the whole import, whatever the other sheets hold. */
  lemma SheetErrorFailsImport(sheets: seq<Sheet>, fields: seq<(string, string)>, declared: set<string>, i: nat)
    requires i < |sheets| && SheetEntities(sheets[i], fields, declared).Err?
    ensures ExcelToListResult(sheets, fields, declared).Err?
  {
    var parts := SheetResults(sheets, fields, declared);
    assert parts[i].Err?;
    GatheredErrAt(parts, i);
  }

  /** A failing part fails the gathering of all parts. */
  lemma GatheredErrAt(parts: seq<Result<seq<Entity>, ExcelError>>, i: nat)
    requires i < |parts| && parts[i].Err?
    ensures Gathered(parts, |parts|).Err?
  {
    if Gathered(parts, i).Err? {
      GatheredErrPersists(parts, i, |parts|);
    } else {
      assert Gathered(parts, i + 1).Err?;
      GatheredErrPersists(parts, i + 1, |parts|);
    }
  }

  /** A required column missing from a sheet's readable header fails the whole import. */
  lemma MissingColumnFailsImport(sheets: seq<Sheet>, fields: seq<(string, string)>, declared: set<string>, i: nat, column: string)
    requires i < |sheets| && |sheets[i].rows| > 0 && sheets[i].rows[0].Some?
    requires Headers(sheets[i].rows[0].value).Ok?
    requires column in KeysOf(fields) && column !in Headers(sheets[i].rows[0].value).value
    ensures SheetEntities(sheets[i], fields, declared).Err?
    ensures ExcelToListResult(sheets, fields, declared).Err?
  {
    var names := Headers(sheets[i].rows[0].value).value;
    var keys := KeysOf(fields);
    FirstAbsentNoneIff(keys, NameSet(names));
    var j :| 0 <= j < |keys| && keys[j] == column;
    assert keys[j] !in NameSet(names);
    assert SheetEntities(sheets[i], fields, declared).Err?;
    SheetErrorFailsImport(sheets, fields, declared, i);
  }

  /** The kept entities are exactly those of the present rows numbered 1 and up with a content
      that is not blank; the header row is never one of them. */
  lemma {:induction false} KeptMembers(rows: seq<Option<Row>>, fields: seq<(string, string)>, names: seq<string>, k: nat, e: Entity)
    requires 1 <= k <= |rows| && AllColumnsPresent(fields, names)
    ensures e in Kept(rows, fields, names, k) <==>
      exists j :: 1 <= j < k && rows[j].Some? && IsValidRow(Contents(rows[j].value, fields, names))
        && e == EntityOf(fields, Contents(rows[j].value, fields, names))
  {
    if k > 1 {
      KeptMembers(rows, fields, names, k - 1, e);
    }
  }

  /** At most one entity per data row. */
  lemma {:induction false} KeptAtMostRows(rows: seq<Option<Row>>, fields: seq<(string, string)>, names: seq<string>, k: nat)
    requires 1 <= k <= |rows| && AllColumnsPresent(fields, names)
    ensures |Kept(rows, fields, names, k)| <= k - 1
  {
    if k > 1 {
      KeptAtMostRows(rows, fields, names, k - 1);
    }
  }
}
