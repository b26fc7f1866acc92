/** The spreadsheet ETL that builds the dashboard's long table
    (`indicators_long.csv`), its indicator catalog and its province to
    municipality hierarchy from the downloaded per-region workbooks.

    A workbook is its first sheet as rows of cells, as xlrd presents it:
    rows are padded to the sheet's width with empty cells. */
module SheetEtl {
  import opened Wrappers
  import opened Strings
  import opened Numbers
  import opened Order

  /** A cell value as xlrd returns it: a number (xlrd reads every number as a
      float), text, or an empty cell (whose value is ""). */
  datatype Cell = Num(value: Decimal) | Text(text: string) | Empty

  /** A workbook file: one that xlrd cannot open, or its first sheet. */
  datatype Workbook = Unreadable | Book(sheet: seq<seq<Cell>>)

  /** The `region_type` column: "시도" for a province's own file, "시군구" for a
      municipality's. */
  datatype RegionType = Province | Municipality

  function RegionTypeName(t: RegionType): string {
    match t
    case Province => "시도"
    case Municipality => "시군구"
  }

  /** One row of the long table. */
  datatype Record = Record(
    sido: string, sigungu: string, regionType: RegionType,
    publishYear: int, indicatorNo: int,
    indicatorType: string, category: string, indicatorName: string, unit: string,
    localValue: Option<Decimal>, nationalValue: Option<Decimal>,
    referenceYear: string)

  /** The columns holding one publish year's local value, national value and
      reference year. */
  datatype YearColumns = YearColumns(year: int, local: nat, national: nat, reference: nat)

  /** `YEAR_COLS`, in its insertion order. */
  const YearCols: seq<YearColumns> := [
    YearColumns(2025, 7, 8, 9),
    YearColumns(2024, 10, 11, 12),
    YearColumns(2023, 13, 14, 15),
    YearColumns(2022, 16, 17, 18),
    YearColumns(2021, 19, 20, 21)
  ]

  /** `DATA_START_ROW`: the first row that holds data. */
  const DataStartRow: nat := 6

  /** The cell in column `j`; past the end of a (padded) row, an empty cell. */
  function CellAt(row: seq<Cell>, j: nat): Cell {
    if j < |row| then row[j] else Empty
  }

  /** `str(value)` of a cell. */
  function CellText(c: Cell): string {
    match c
    case Num(d) => Render(d)
    case Text(t) => t
    case Empty => ""
  }

  /** `safe_float`: the sentinels "-", "" and "None" and anything `float()`
      rejects once commas are removed become "no value". */
  function SafeFloat(c: Cell): Option<Decimal> {
    SafeFloatText(CellText(c))
  }

  /** `safe_float` on the text of a cell. */
  function SafeFloatText(text: string): Option<Decimal> {
    var s := Strip(text);
    if s == "-" || s == "" || s == "None" then None
    else PyFloat(RemoveChar(s, ','))
  }

  /** The sentinel test is subsumed by the parse: `safe_float` is `float()` of
      the cell text with its commas removed, failures mapped to no value. */
  lemma SafeFloatIsCommaFreeParse(text: string)
    ensures SafeFloatText(text) == PyFloat(RemoveChar(text, ','))
  {
    var s := Strip(text);
    StripRemoveChar(text, ',');
    assert PyFloat(RemoveChar(text, ',')) == PyFloat(RemoveChar(s, ','));
    if s == "-" || s == "" || s == "None" {
      RemoveCharMembers(s, ',');
      assert RemoveChar(s, ',') == s;
      StripIdempotent(text);
      assert PyFloat(s) == ParseDecimal(s);
      SentinelsRejected();
    }
  }

  /** `float()` itself rejects each of the sentinels. */
  lemma SentinelsRejected()
    ensures ParseDecimal("-") == None && ParseDecimal("") == None && ParseDecimal("None") == None
  {
    assert ParseDecimal("-") == None by {
      assert "-"[1..] == "";
      assert '.' !in "";
    }
    assert ParseDecimal("None") == None by {
      assert '.' !in "None";
      assert !IsDigit("None"[0]);
      assert !AllDigits("None");
    }
  }

  /** A number cell always has a value, and it is the cell's number. */
  lemma SafeFloatOfNumber(d: Decimal)
    ensures SafeFloat(Num(d)).Some?
    ensures SameValue(SafeFloat(Num(d)).value, d)
  {
    var t := Render(d);
    RenderShape(d);
    assert ',' !in t by {
      forall i | 0 <= i < |t| ensures t[i] != ',' { assert LiteralChars(t); }
    }
    RemoveCharMembers(t, ',');
    SafeFloatIsCommaFreeParse(t);
    RenderRoundTrip(d);
  }

  /** `int(float(raw_no))` of the first cell, or none when the row is skipped:
      an empty cell or "" is skipped, and so is text that `float()` rejects. */
  function IndicatorNo(c: Cell): (r: Option<int>)
    ensures c == Empty || c == Text("") ==> r == None
    ensures c.Num? ==> r == Some(Trunc(c.value))
    ensures c.Text? ==> (r.Some? <==> PyFloat(c.text).Some?)
    ensures c.Text? && r.Some? ==> r.value == Trunc(PyFloat(c.text).value)
  {
    match c
    case Empty => None
    case Num(d) => Some(Trunc(d))
    case Text(t) =>
      if t == "" then None
      else match PyFloat(t)
        case None => None
        case Some(d) => Some(Trunc(d))
  }

  /** The stripped text of column `j`. */
  function Field(row: seq<Cell>, j: nat): string {
    Strip(CellText(CellAt(row, j)))
  }

  /** A row survives the filter when its first cell holds a number and its
      province is not the nationwide sentinel "전국". */
  predicate Accepted(row: seq<Cell>) {
    IndicatorNo(CellAt(row, 0)).Some? && Field(row, 5) != "전국"
  }

  function RegionTypeOf(sido: string, sigungu: string): (t: RegionType)
    ensures t == Province <==> sido == sigungu
  {
    if sido == sigungu then Province else Municipality
  }

  /** The record of an accepted row for one publish year. */
  function YearRecord(row: seq<Cell>, no: int, y: YearColumns): Record {
    Record(Field(row, 5), Field(row, 6), RegionTypeOf(Field(row, 5), Field(row, 6)),
      y.year, no, Field(row, 1), Field(row, 2), Field(row, 3), Field(row, 4),
      SafeFloat(CellAt(row, y.local)), SafeFloat(CellAt(row, y.national)),
      Field(row, y.reference))
  }

  /** The records of one row: none for a skipped row, otherwise one per
      entry of `YearCols`. */
  function RowRecords(row: seq<Cell>): seq<Record> {
    if !Accepted(row) then []
    else
      var no := IndicatorNo(CellAt(row, 0)).value;
      seq(|YearCols|, k requires 0 <= k < |YearCols| => YearRecord(row, no, YearCols[k]))
  }

  /** Entry k of `YearCols` is publish year 2025 - k, read from columns
      7 + 3k, 8 + 3k and 9 + 3k. */
  lemma YearColsShape(k: nat)
    requires k < 5
    ensures |YearCols| == 5 && YearCols[k] == YearColumns(2025 - k, 7 + 3 * k, 8 + 3 * k, 9 + 3 * k)
  {
  }

  /** A skipped row gives nothing and an accepted row gives five records. */
  lemma RowCount(row: seq<Cell>)
    ensures |RowRecords(row)| == if Accepted(row) then 5 else 0
  {
  }

  /** The k-th record of an accepted row is publish year 2025 - k and reads
      its values from columns 7 + 3k, 8 + 3k and 9 + 3k. */
  lemma RowYearValues(row: seq<Cell>, k: nat)
    requires Accepted(row) && k < 5
    ensures var r := RowRecords(row);
      && r[k].publishYear == 2025 - k
      && r[k].localValue == SafeFloat(CellAt(row, 7 + 3 * k))
      && r[k].nationalValue == SafeFloat(CellAt(row, 8 + 3 * k))
      && r[k].referenceYear == Field(row, 9 + 3 * k)
  {
    YearColsShape(k);
    assert RowRecords(row)[k] == YearRecord(row, IndicatorNo(CellAt(row, 0)).value,
      YearColumns(2025 - k, 7 + 3 * k, 8 + 3 * k, 9 + 3 * k));
  }

  /** All records of an accepted row share its descriptive fields. */
  lemma RowSharedFields(row: seq<Cell>, k: nat)
    requires Accepted(row) && k < 5
    ensures var r := RowRecords(row);
      && r[k].indicatorNo == IndicatorNo(CellAt(row, 0)).value
      && r[k].sido == Field(row, 5) && r[k].sigungu == Field(row, 6)
      && r[k].indicatorType == Field(row, 1) && r[k].category == Field(row, 2)
      && r[k].indicatorName == Field(row, 3) && r[k].unit == Field(row, 4)
  {
  }

  /** Every record names a real region and carries the region level its names
      imply. */
  predicate WellFormed(x: Record) {
    x.sido != "전국" && (x.regionType == Province <==> x.sido == x.sigungu)
  }

  lemma RowRecordsWellFormed(row: seq<Cell>)
    ensures forall x :: x in RowRecords(row) ==> WellFormed(x)
  {
  }

  /** The rows `parse_xls` reads: those from `DataStartRow` on. */
  function DataRows(sheet: seq<seq<Cell>>): seq<seq<Cell>> {
    if |sheet| <= DataStartRow then [] else sheet[DataStartRow..]
  }

  /** `parse_xls`: an unreadable workbook gives no records; a readable one
      gives its data rows' records in row order. */
  function XlsRecords(book: Workbook): seq<Record> {
    match book
    case Unreadable => []
    case Book(sheet) => FlatMap(DataRows(sheet), RowRecords)
  }

  /** `parse_xls` as the script runs it: a loop over the data rows appending
      each row's records. */
  method ParseXls(book: Workbook) returns (records: seq<Record>)
    ensures records == XlsRecords(book)
  {
    records := [];
    if book.Unreadable? {
      return;
    }
    var sheet := book.sheet;
    if |sheet| <= DataStartRow {
      return;
    }
    var rowIdx := DataStartRow;
    while rowIdx < |sheet|
      invariant DataStartRow <= rowIdx <= |sheet|
      invariant records == FlatMap(sheet[DataStartRow..rowIdx], RowRecords)
    {
      assert sheet[DataStartRow..rowIdx + 1] == sheet[DataStartRow..rowIdx] + [sheet[rowIdx]];
      FlatMapSnoc(sheet[DataStartRow..rowIdx], sheet[rowIdx], RowRecords);
      records := records + RowRecords(sheet[rowIdx]);
      rowIdx := rowIdx + 1;
    }
    assert sheet[DataStartRow..rowIdx] == DataRows(sheet);
  }

  /** Five records per accepted data row, none for any other row. */
  lemma SheetRecordCount(sheet: seq<seq<Cell>>)
    ensures |XlsRecords(Book(sheet))| == 5 * CountWhere(DataRows(sheet), Accepted)
  {
    var rows := DataRows(sheet);
    forall i | 0 <= i < |rows| ensures |RowRecords(rows[i])| == if Accepted(rows[i]) then 5 else 0 {
      RowCount(rows[i]);
    }
    FlatMapLength(rows, RowRecords, Accepted, 5);
  }

  /** Every record comes from an accepted row at or below `DataStartRow`, and
      so is well formed: in particular no record is for "전국". */
  lemma SheetRecordsFromRows(sheet: seq<seq<Cell>>, x: Record)
    requires x in XlsRecords(Book(sheet))
    ensures exists r :: DataStartRow <= r < |sheet| && Accepted(sheet[r]) && x in RowRecords(sheet[r])
    ensures WellFormed(x)
  {
    var rows := DataRows(sheet);
    FlatMapMembers(rows, RowRecords, x);
    var i :| 0 <= i < |rows| && x in RowRecords(rows[i]);
    assert rows[i] == sheet[DataStartRow + i];
    RowCount(rows[i]);
    RowRecordsWellFormed(rows[i]);
  }

  /** The rows above `DataStartRow` are never read: replacing them changes
      nothing. */
  lemma HeaderRowsIgnored(header: seq<seq<Cell>>, other: seq<seq<Cell>>, body: seq<seq<Cell>>)
    requires |header| == DataStartRow && |other| == DataStartRow
    ensures XlsRecords(Book(header + body)) == XlsRecords(Book(other + body))
  {
    assert DataRows(header + body) == DataRows(other + body) by {
      if |body| > 0 {
        assert (header + body)[DataStartRow..] == body;
        assert (other + body)[DataStartRow..] == body;
      }
    }
  }

  // ---------------------------------------------------------------------
  // Walking the input directory.

  datatype FileEntry = FileEntry(name: string, book: Workbook)

  /** An entry of the input directory: its name, whether it is a directory,
      and the files it lists. */
  datatype DirEntry = DirEntry(name: string, isDir: bool, files: seq<FileEntry>)

  /** The path of a visited file, as its directory and file names. */
  datatype SourceRef = SourceRef(dir: string, file: string)

  datatype Visit = Visit(source: SourceRef, book: Workbook)

  predicate IsProvinceDir(d: DirEntry) {
    d.isDir && !StartsWith(d.name, "_")
  }

  predicate IsXlsFile(f: FileEntry) {
    EndsWith(f.name, ".xls") && !StartsWith(f.name, ".")
  }

  function DirLe(a: DirEntry, b: DirEntry): bool {
    StrLe(a.name, b.name)
  }

  function FileLe(a: FileEntry, b: FileEntry): bool {
    StrLe(a.name, b.name)
  }

  function ProvinceDirs(listing: seq<DirEntry>): (r: seq<DirEntry>)
    ensures forall d :: d in r <==> d in listing && IsProvinceDir(d)
    decreases |listing|
  {
    if |listing| == 0 then []
    else (if IsProvinceDir(listing[0]) then [listing[0]] else []) + ProvinceDirs(listing[1..])
  }

  function XlsFiles(files: seq<FileEntry>): (r: seq<FileEntry>)
    ensures forall f :: f in r <==> f in files && IsXlsFile(f)
    decreases |files|
  {
    if |files| == 0 then []
    else (if IsXlsFile(files[0]) then [files[0]] else []) + XlsFiles(files[1..])
  }

  /** The directories `main` walks, sorted by name. */
  function SelectedDirs(listing: seq<DirEntry>): seq<DirEntry> {
    SortBy(ProvinceDirs(listing), DirLe)
  }

  /** The workbooks of one directory `main` reads, sorted by name. */
  function SelectedFiles(d: DirEntry): seq<FileEntry> {
    SortBy(XlsFiles(d.files), FileLe)
  }

  /** A file of a directory as `main` reads it. */
  function VisitOf(d: DirEntry, f: FileEntry): Visit {
    Visit(SourceRef(d.name, f.name), f.book)
  }

  function DirVisits(d: DirEntry): (r: seq<Visit>)
    ensures |r| == |SelectedFiles(d)|
    ensures forall j :: 0 <= j < |r| ==> r[j] == VisitOf(d, SelectedFiles(d)[j])
  {
    var fs := SelectedFiles(d);
    seq(|fs|, j requires 0 <= j < |fs| => VisitOf(d, fs[j]))
  }

  /** Every file `main` reads, in reading order. */
  function Visits(listing: seq<DirEntry>): seq<Visit> {
    FlatMap(SelectedDirs(listing), DirVisits)
  }

  function VisitRecords(v: Visit): seq<Record> {
    XlsRecords(v.book)
  }

  function VisitSkip(v: Visit): seq<SourceRef> {
    if XlsRecords(v.book) == [] then [v.source] else []
  }

  /** `all_records`: every visited file's records, file after file. */
  function Collected(vs: seq<Visit>): seq<Record> {
    FlatMap(vs, VisitRecords)
  }

  /** `skipped`: the visited files that gave no records, in visiting order. */
  function Skipped(vs: seq<Visit>): seq<SourceRef> {
    FlatMap(vs, VisitSkip)
  }

  /** Each file's records are appended whole, between those of the files
      read before and after it. */
  lemma FileRecordsWhole(vs: seq<Visit>, i: nat)
    requires i < |vs|
    ensures Collected(vs) == Collected(vs[..i]) + XlsRecords(vs[i].book) + Collected(vs[i + 1..])
  {
    FlatMapSplit(vs, VisitRecords, i);
  }

  /** A file is in the skipped list exactly when some visit of it gave no
      records (an unreadable workbook among them). */
  lemma SkippedExactly(vs: seq<Visit>, src: SourceRef)
    ensures src in Skipped(vs) <==> exists i :: 0 <= i < |vs| && vs[i].source == src && XlsRecords(vs[i].book) == []
  {
    FlatMapMembers(vs, VisitSkip, src);
  }

  /** Reading one more file appends its records, or its path to the skipped
      list when it gives none. */
  lemma CollectStep(done: seq<Visit>, v: Visit)
    ensures Collected(done + [v]) == Collected(done) + XlsRecords(v.book)
    ensures Skipped(done + [v]) == Skipped(done) + (if XlsRecords(v.book) == [] then [v.source] else [])
  {
    FlatMapSnoc(done, v, VisitRecords);
    FlatMapSnoc(done, v, VisitSkip);
  }

  /** Reading the visit after a prefix of `vs` extends that prefix's
      records and skipped list. */
  lemma CollectPrefix(vs: seq<Visit>, j: nat)
    requires j < |vs|
    ensures Collected(vs[..j + 1]) == Collected(vs[..j]) + XlsRecords(vs[j].book)
    ensures Skipped(vs[..j + 1]) == Skipped(vs[..j]) + (if XlsRecords(vs[j].book) == [] then [vs[j].source] else [])
  {
    assert vs[..j + 1] == vs[..j] + [vs[j]];
    CollectStep(vs[..j], vs[j]);
  }

  /** The visits of one more directory follow those of the directories before. */
  lemma VisitsPrefix(dirs: seq<DirEntry>, i: nat)
    requires i < |dirs|
    ensures FlatMap(dirs[..i + 1], DirVisits) == FlatMap(dirs[..i], DirVisits) + DirVisits(dirs[i])
  {
    assert dirs[..i + 1] == dirs[..i] + [dirs[i]];
    FlatMapSnoc(dirs[..i], dirs[i], DirVisits);
  }

  /** The inner loop of `main` for one directory: its workbooks in sorted
      order, a file's records appended when there are any, its path added to
      the skipped list otherwise. */
  method CollectDirectory(d: DirEntry) returns (all: seq<Record>, skipped: seq<SourceRef>)
    ensures all == Collected(DirVisits(d)) && skipped == Skipped(DirVisits(d))
  {
    var files := SelectedFiles(d);
    ghost var dv := DirVisits(d);
    all, skipped := [], [];
    var j := 0;
    while j < |files|
      invariant 0 <= j <= |files| == |dv|
      invariant all == Collected(dv[..j]) && skipped == Skipped(dv[..j])
    {
      var records := ParseXls(files[j].book);
      assert dv[j] == VisitOf(d, files[j]);
      CollectPrefix(dv, j);
      if records != [] {
        all := all + records;
      } else {
        skipped := skipped + [SourceRef(d.name, files[j].name)];
      }
      j := j + 1;
    }
    assert dv[..j] == dv;
  }

  /** Reading more files appends their records and their skipped paths. */
  lemma CollectConcat(done: seq<Visit>, more: seq<Visit>)
    ensures Collected(done + more) == Collected(done) + Collected(more)
    ensures Skipped(done + more) == Skipped(done) + Skipped(more)
  {
    FlatMapAppend(done, more, VisitRecords);
    FlatMapAppend(done, more, VisitSkip);
  }

  /** `main`'s collection loop: the selected directories in sorted order,
      each read by `CollectDirectory`. */
  method CollectRecords(listing: seq<DirEntry>) returns (all: seq<Record>, skipped: seq<SourceRef>)
    ensures all == Collected(Visits(listing))
    ensures skipped == Skipped(Visits(listing))
  {
    var dirs := SelectedDirs(listing);
    all, skipped := [], [];
    ghost var done: seq<Visit> := [];
    var i := 0;
    while i < |dirs|
      invariant 0 <= i <= |dirs|
      invariant done == FlatMap(dirs[..i], DirVisits)
      invariant all == Collected(done) && skipped == Skipped(done)
    {
      var dirRecords, dirSkipped := CollectDirectory(dirs[i]);
      VisitsPrefix(dirs, i);
      CollectConcat(done, DirVisits(dirs[i]));
      all := all + dirRecords;
      skipped := skipped + dirSkipped;
      done := done + DirVisits(dirs[i]);
      i := i + 1;
    }
    assert dirs[..i] == dirs;
  }

  /** Visit `v` is file `f` of directory `d`, and `main` selects both. */
  predicate SelectedVisit(d: DirEntry, f: FileEntry, v: Visit) {
    IsProvinceDir(d) && IsXlsFile(f) && v == VisitOf(d, f)
  }

  /** One directory's visits are exactly its `.xls` files, not hidden. */
  lemma DirVisitsMembers(d: DirEntry, v: Visit)
    ensures v in DirVisits(d) <==> exists f :: f in d.files && IsXlsFile(f) && v == VisitOf(d, f)
  {
    var fs := SelectedFiles(d);
    SortByMembers(XlsFiles(d.files), FileLe);
    if v in DirVisits(d) {
      var j :| 0 <= j < |fs| && DirVisits(d)[j] == v;
      assert fs[j] in fs;
    }
    forall f | f in d.files && IsXlsFile(f) && v == VisitOf(d, f)
      ensures v in DirVisits(d)
    {
      assert f in fs;
      var j :| 0 <= j < |fs| && fs[j] == f;
      assert DirVisits(d)[j] == v;
    }
  }

  /** `main` visits exactly the `.xls` files, not hidden, of the directories
      whose names do not start with "_". */
  lemma VisitedFiles(listing: seq<DirEntry>, v: Visit)
    ensures v in Visits(listing) <==> exists d, f :: d in listing && f in d.files && SelectedVisit(d, f, v)
  {
    var dirs := SelectedDirs(listing);
    FlatMapMembers(dirs, DirVisits, v);
    SortByMembers(ProvinceDirs(listing), DirLe);
    if v in Visits(listing) {
      var i :| 0 <= i < |dirs| && v in DirVisits(dirs[i]);
      DirVisitsMembers(dirs[i], v);
      var f :| f in dirs[i].files && IsXlsFile(f) && v == VisitOf(dirs[i], f);
      assert dirs[i] in dirs;
      assert SelectedVisit(dirs[i], f, v);
    }
    forall d, f | d in listing && f in d.files && SelectedVisit(d, f, v)
      ensures v in Visits(listing)
    {
      assert d in dirs;
      var i :| 0 <= i < |dirs| && dirs[i] == d;
      DirVisitsMembers(d, v);
    }
  }

  /** `StrLe` is a total preorder on names. */
  lemma StrLeTotalPreorder()
    ensures forall a, b :: StrLe(a, b) || StrLe(b, a)
    ensures forall a, b, c :: StrLe(a, b) && StrLe(b, c) ==> StrLe(a, c)
  {
    forall a, b ensures StrLe(a, b) || StrLe(b, a) { StrLeTotal(a, b); }
    forall a, b, c | StrLe(a, b) && StrLe(b, c) ensures StrLe(a, c) { StrLeTransitive(a, b, c); }
  }

  /** Directories, and the files within each, are read in name order. */
  lemma VisitOrder(listing: seq<DirEntry>, d: DirEntry)
    ensures SortedBy(SelectedDirs(listing), DirLe)
    ensures SortedBy(SelectedFiles(d), FileLe)
  {
    StrLeTotalPreorder();
    SortBySorted(ProvinceDirs(listing), DirLe);
    SortBySorted(XlsFiles(d.files), FileLe);
  }

  // ---------------------------------------------------------------------
  // The long table, the catalog and the hierarchy.

  /** The five-key order of the final table: sido ascending, `region_type`
      descending, then sigungu, publish year and indicator number ascending. */
  predicate RecordLe(a: Record, b: Record) {
    if a.sido != b.sido then StrLe(a.sido, b.sido)
    else if a.regionType != b.regionType then StrLe(RegionTypeName(b.regionType), RegionTypeName(a.regionType))
    else if a.sigungu != b.sigungu then StrLe(a.sigungu, b.sigungu)
    else if a.publishYear != b.publishYear then a.publishYear <= b.publishYear
    else a.indicatorNo <= b.indicatorNo
  }

  /** "시도" sorts after "시군구", so a descending `region_type` puts a
      province's own rows first. */
  lemma ProvinceNameAfter()
    ensures StrLe(RegionTypeName(Municipality), RegionTypeName(Province))
    ensures !StrLe(RegionTypeName(Province), RegionTypeName(Municipality))
  {
    assert "시군구"[1..] == "군구" && "시도"[1..] == "도";
    assert '군' < '도';
  }

  lemma RecordLeTotalPreorder()
    ensures IsTotalPreorder(RecordLe)
  {
    ProvinceNameAfter();
    forall a, b ensures RecordLe(a, b) || RecordLe(b, a) {
      StrLeTotal(a.sido, b.sido);
      StrLeTotal(a.sigungu, b.sigungu);
    }
    forall a, b, c | RecordLe(a, b) && RecordLe(b, c) ensures RecordLe(a, c) {
      RecordLeTransitive(a, b, c);
    }
  }

  lemma RecordLeTransitive(a: Record, b: Record, c: Record)
    requires RecordLe(a, b) && RecordLe(b, c)
    ensures RecordLe(a, c)
  {
    ProvinceNameAfter();
    StrLeReflexive(a.sido);
    StrLeReflexive(b.sido);
    StrLeReflexive(a.sigungu);
    StrLeReflexive(b.sigungu);
    if a.sido != b.sido || b.sido != c.sido {
      StrLeTransitive(a.sido, b.sido, c.sido);
      if a.sido == c.sido {
        StrLeAntisymmetric(a.sido, b.sido);
      }
    } else if a.regionType != b.regionType || b.regionType != c.regionType {
    } else if a.sigungu != b.sigungu || b.sigungu != c.sigungu {
      StrLeTransitive(a.sigungu, b.sigungu, c.sigungu);
      if a.sigungu == c.sigungu {
        StrLeAntisymmetric(a.sigungu, b.sigungu);
      }
    }
  }

  /** The final table: every record kept, sorted on the five keys. */
  function SortTable(records: seq<Record>): (t: seq<Record>)
    ensures multiset(t) == multiset(records)
    ensures SortedBy(t, RecordLe)
  {
    RecordLeTotalPreorder();
    SortBySorted(records, RecordLe);
    SortBy(records, RecordLe)
  }

  /** Within a province, its own rows come before its municipalities' rows. */
  lemma ProvinceRowsFirst(records: seq<Record>, i: nat, j: nat)
    requires i < j < |SortTable(records)|
    requires SortTable(records)[i].sido == SortTable(records)[j].sido
    ensures !(SortTable(records)[i].regionType == Municipality && SortTable(records)[j].regionType == Province)
  {
    ProvinceNameAfter();
    assert RecordLe(SortTable(records)[i], SortTable(records)[j]);
  }

  /** A catalog entry: the metadata columns of an indicator. */
  datatype CatalogEntry = CatalogEntry(no: int, indicatorType: string, category: string, name: string, unit: string)

  function Meta(x: Record): CatalogEntry {
    CatalogEntry(x.indicatorNo, x.indicatorType, x.category, x.indicatorName, x.unit)
  }

  function MetaLe(a: CatalogEntry, b: CatalogEntry): bool {
    a.no <= b.no
  }

  /** `build_indicator_catalog`: each distinct metadata tuple of the table
      exactly once, ordered by indicator number. */
  function Catalog(table: seq<Record>): (r: seq<CatalogEntry>)
    ensures NoDup(r)
    ensures forall e :: e in r <==> exists i :: 0 <= i < |table| && Meta(table[i]) == e
    ensures forall i, j :: 0 <= i < j < |r| ==> r[i].no <= r[j].no
  {
    var metas := Dedup(KeysOf(table, Meta));
    var r := SortBy(metas, MetaLe);
    SortBySorted(metas, MetaLe);
    SortByMembers(metas, MetaLe);
    SortByNoDup(metas, MetaLe);
    r
  }

  /** One entry of `region_hierarchy.json`. */
  datatype HierarchyEntry = HierarchyEntry(sido: string, sigungu: seq<string>)

  function SidoOf(x: Record): string {
    x.sido
  }

  function SigunguOf(x: Record): string {
    x.sigungu
  }

  /** Some "시군구" row of province `sido` names municipality `n`. */
  predicate IsMunicipalOf(table: seq<Record>, sido: string, n: string) {
    exists i :: 0 <= i < |table| && table[i].regionType == Municipality && table[i].sido == sido && table[i].sigungu == n
  }

  /** The municipality names of the "시군구" rows of `sido`, in row order. */
  function MunicipalNames(table: seq<Record>, sido: string): (r: seq<string>)
    ensures forall n :: n in r <==> IsMunicipalOf(table, sido, n)
    decreases |table|
  {
    if |table| == 0 then []
    else
      var x := table[0];
      var rest := MunicipalNames(table[1..], sido);
      assert forall i :: 0 < i < |table| ==> table[i] == table[1..][i - 1];
      (if x.regionType == Municipality && x.sido == sido then [x.sigungu] else []) + rest
  }

  /** `sorted(set(sgus))` for one province. */
  function Municipalities(table: seq<Record>, sido: string): seq<string> {
    SortedDistinct(MunicipalNames(table, sido), StrLe)
  }

  /** The province names in key order. */
  function HierarchyKeys(table: seq<Record>): seq<string> {
    SortBy(Dedup(KeysOf(table, SidoOf)), StrLe)
  }

  /** `region_hierarchy.json` as a list of entries in key order. */
  function Hierarchy(table: seq<Record>): seq<HierarchyEntry> {
    var keys := HierarchyKeys(table);
    seq(|keys|, i requires 0 <= i < |keys| => HierarchyEntry(keys[i], Municipalities(table, keys[i])))
  }

  /** The dictionary loop of `build_region_hierarchy`: one entry per
      province, in first-appearance order, holding its sorted municipalities. */
  method MunicipalityMap(table: seq<Record>, sidos: seq<string>) returns (m: map<string, seq<string>>)
    ensures forall k :: k in m <==> k in sidos
    ensures forall k :: k in m ==> m[k] == Municipalities(table, k)
  {
    m := map[];
    var i := 0;
    while i < |sidos|
      invariant 0 <= i <= |sidos|
      invariant forall k :: k in m <==> k in sidos[..i]
      invariant forall k :: k in m ==> m[k] == Municipalities(table, k)
    {
      m := m[sidos[i] := Municipalities(table, sidos[i])];
      i := i + 1;
    }
    assert sidos[..i] == sidos;
  }

  /** `build_region_hierarchy`: a dictionary filled in first-appearance order
      of the provinces, then its items sorted by key. */
  method BuildRegionHierarchy(table: seq<Record>) returns (h: seq<HierarchyEntry>)
    ensures h == Hierarchy(table)
  {
    var sidos := Dedup(KeysOf(table, SidoOf));
    var m := MunicipalityMap(table, sidos);
    var keys := SortBy(sidos, StrLe);
    SortedKeysPresent(table, sidos, m);
    assert keys == HierarchyKeys(table);
    h := seq(|keys|, j requires 0 <= j < |keys| => HierarchyEntry(keys[j], m[keys[j]]));
  }

  /** Sorting the dictionary's items keeps its keys: every sorted key has
      its entry, and pairing each with it gives the hierarchy. */
  lemma SortedKeysPresent(table: seq<Record>, sidos: seq<string>, m: map<string, seq<string>>)
    requires sidos == Dedup(KeysOf(table, SidoOf))
    requires forall k :: k in m <==> k in sidos
    requires forall k :: k in m ==> m[k] == Municipalities(table, k)
    ensures forall j :: 0 <= j < |HierarchyKeys(table)| ==> HierarchyKeys(table)[j] in m
    ensures forall j :: 0 <= j < |HierarchyKeys(table)| ==>
              Hierarchy(table)[j] == HierarchyEntry(HierarchyKeys(table)[j], m[HierarchyKeys(table)[j]])
  {
    SortByMembers(sidos, StrLe);
  }

  /** The hierarchy's keys are exactly the provinces of the table, each once,
      in ascending order. */
  lemma HierarchyKeysExact(table: seq<Record>)
    ensures forall s :: s in HierarchyKeys(table) <==> exists i :: 0 <= i < |table| && table[i].sido == s
    ensures NoDup(HierarchyKeys(table))
    ensures SortedBy(HierarchyKeys(table), StrLe)
  {
    var sidos := Dedup(KeysOf(table, SidoOf));
    SortByMembers(sidos, StrLe);
    SortByNoDup(sidos, StrLe);
    StrLeTotalPreorder();
    SortBySorted(sidos, StrLe);
  }

  /** Each value lists the municipalities of that province's "시군구" rows,
      each once, in ascending order; a province with only its own rows maps
      to the empty list. */
  lemma HierarchyValues(table: seq<Record>, sido: string)
    ensures forall n :: n in Municipalities(table, sido) <==> IsMunicipalOf(table, sido, n)
    ensures NoDup(Municipalities(table, sido))
    ensures SortedBy(Municipalities(table, sido), StrLe)
    ensures (forall i :: 0 <= i < |table| && table[i].sido == sido ==> table[i].regionType == Province)
      ==> Municipalities(table, sido) == []
  {
    StrLeTotalPreorder();
    SortedDistinctSorted(MunicipalNames(table, sido), StrLe);
    var r := Municipalities(table, sido);
    if |r| > 0 {
      assert r[0] in r;
    }
  }

  /** What `main` writes, or the failure it stops with when no file gave a
      record (the empty frame has no `publish_year` column to convert). */
  datatype BuildResult =
    | Built(table: seq<Record>, catalog: seq<CatalogEntry>, hierarchy: seq<HierarchyEntry>)
    | NoColumns

  /** The outputs of `main` after collection. The type conversions of the
      frame leave every value as it is. */
  function BuildOutputs(records: seq<Record>): (r: BuildResult)
    ensures r.NoColumns? <==> records == []
    ensures r.Built? ==> multiset(r.table) == multiset(records) && SortedBy(r.table, RecordLe)
  {
    if records == [] then NoColumns
    else
      var table := SortTable(records);
      Built(table, Catalog(table), Hierarchy(table))
  }
}
