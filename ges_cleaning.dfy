/**
 * Cleaning of the graduate employment survey (GES): attach each row's
 * school identifier, place that column third, drop rows with any NA cell,
 * then keep the first row of each (year, school_id, degree).
 */
module GesCleaning {
  import opened Wrappers
  import opened Tables
  import opened Dicts
  import opened Frames
  import opened SchoolMappings

  /**
   * `df['university'].map(school_id_mapping)` for one cell: an identifier
   * exactly when the cell is a string that the mapping has as a key, and
   * then the identifier stored under it; NA otherwise.
   */
  function SchoolIdCell(university: Cell, schoolIds: Dict<int>): (id: Cell)
    ensures id.Some? <==> IsName(university) && university.value.s in Keys(schoolIds)
    ensures id.Some? ==> id.value.Int? && Get(schoolIds, university.value.s) == Some(id.value.i)
  {
    match university
    case Some(Text(name)) =>
      GetAbsent(schoolIds, name);
      (match Get(schoolIds, name)
       case Some(id) => Some(Int(id))
       case None => None)
    case _ => None
  }

  /**
   * `df['school_id'] = ...`, then `cols.insert(2, cols.pop(cols.index('school_id')))`
   * and `df[cols]`: the table stays well formed, keeps its rows and its
   * columns, and gains `school_id`.
   */
  function WithSchoolId(ges: Frame, schoolIds: Dict<int>): (g: Frame)
    requires WellFormed(ges) && "university" in ges.columns
    ensures WellFormed(g) && |g.rows| == |ges.rows|
    ensures forall c :: c in g.columns <==> c in ges.columns || c == "school_id"
  {
    var ids := seq(|ges.rows|, i requires 0 <= i < |ges.rows| =>
      SchoolIdCell(CellOf(ges, ges.rows[i], "university"), schoolIds));
    AssignColumnSound(ges, "school_id", ids);
    var added := AssignColumn(ges, "school_id", ids);
    MoveColumnShape(added, IndexOf(added.columns, "school_id"), 2);
    MoveColumn(added, IndexOf(added.columns, "school_id"), 2)
  }

  /**
   * The new table is well formed and has the input's columns plus
   * `school_id`, which sits at index 2 (last, if there are fewer than three
   * columns). A new `school_id` is inserted at that index; an existing one
   * is moved there. Either way every other column keeps its order.
   */
  lemma WithSchoolIdShape(ges: Frame, schoolIds: Dict<int>)
    requires WellFormed(ges) && "university" in ges.columns
    ensures var g := WithSchoolId(ges, schoolIds);
      && WellFormed(g)
      && |g.rows| == |ges.rows|
      && (forall c :: c in g.columns <==> c in ges.columns || c == "school_id")
      && g.columns[if 2 < |g.columns| then 2 else |g.columns| - 1] == "school_id"
    ensures var g := WithSchoolId(ges, schoolIds);
      "school_id" !in ges.columns ==>
        var k := if 2 <= |ges.columns| then 2 else |ges.columns|;
        g.columns == ges.columns[..k] + ["school_id"] + ges.columns[k..]
    ensures var g := WithSchoolId(ges, schoolIds);
      "school_id" in ges.columns ==>
        var p := IndexOf(ges.columns, "school_id");
        var t := if 2 < |ges.columns| then 2 else |ges.columns| - 1;
        g.columns[..t] + g.columns[t + 1..] == ges.columns[..p] + ges.columns[p + 1..]
  {
    var ids := seq(|ges.rows|, i requires 0 <= i < |ges.rows| =>
      SchoolIdCell(CellOf(ges, ges.rows[i], "university"), schoolIds));
    var added := AssignColumn(ges, "school_id", ids);
    MoveToTarget(added.columns, IndexOf(added.columns, "school_id"), 2);
    AssignThenMove(ges.columns, "school_id", 2);
  }

  /**
   * With `university` as the second column and no `school_id` yet, the new
   * column comes right after `university` and the others keep their places.
   */
  lemma SchoolIdAfterUniversity(ges: Frame, schoolIds: Dict<int>)
    requires WellFormed(ges) && 2 <= |ges.columns| && ges.columns[1] == "university"
    requires "school_id" !in ges.columns
    ensures var g := WithSchoolId(ges, schoolIds);
      && |g.columns| == |ges.columns| + 1
      && g.columns[1] == "university" && g.columns[2] == "school_id"
      && (forall k :: 0 <= k < 2 ==> g.columns[k] == ges.columns[k])
      && (forall k :: 2 <= k < |ges.columns| ==> g.columns[k + 1] == ges.columns[k])
  {
    WithSchoolIdShape(ges, schoolIds);
  }

  /**
   * Each row's `school_id` is the identifier of its `university`, and every
   * other cell is the input's.
   */
  lemma WithSchoolIdCells(ges: Frame, schoolIds: Dict<int>)
    requires WellFormed(ges) && "university" in ges.columns
    ensures var g := WithSchoolId(ges, schoolIds);
      && |g.rows| == |ges.rows|
      && "school_id" in g.columns
      && (forall c :: c in ges.columns ==> c in g.columns)
      && (forall i :: 0 <= i < |ges.rows| ==>
            CellOf(g, g.rows[i], "school_id") == SchoolIdCell(CellOf(ges, ges.rows[i], "university"), schoolIds))
      && (forall i, c :: 0 <= i < |ges.rows| && c in ges.columns && c != "school_id" ==>
            CellOf(g, g.rows[i], c) == CellOf(ges, ges.rows[i], c))
  {
    var ids := seq(|ges.rows|, i requires 0 <= i < |ges.rows| =>
      SchoolIdCell(CellOf(ges, ges.rows[i], "university"), schoolIds));
    AssignColumnSound(ges, "school_id", ids);
    var added := AssignColumn(ges, "school_id", ids);
    var from := IndexOf(added.columns, "school_id");
    MoveColumnSound(added, from, 2);
  }

  /** The deduplication key (year, school_id, degree) of a row, by column position. */
  function GesKey(yearAt: nat, idAt: nat, degreeAt: nat): Row -> (Cell, Cell, Cell) {
    row => (At(row, yearAt), At(row, idAt), At(row, degreeAt))
  }

  function GesKeyOf(g: Frame): Row -> (Cell, Cell, Cell)
    requires "year" in g.columns && "school_id" in g.columns && "degree" in g.columns
  {
    GesKey(IndexOf(g.columns, "year"), IndexOf(g.columns, "school_id"), IndexOf(g.columns, "degree"))
  }

  /** What the step reports: row counts before, after and in between. */
  datatype GesReport = GesReport(initialRows: nat, naCells: nat, naRowsRemoved: nat, duplicateCount: nat, finalRows: nat)

  datatype GesOutput = GesOutput(table: Frame, report: GesReport)

  /** The cleaned rows: never more than the input, and no (year, school_id, degree) twice. */
  function CleanRows(g: Frame): (rows: seq<Row>)
    requires "year" in g.columns && "school_id" in g.columns && "degree" in g.columns
    ensures |rows| <= |g.rows|
    ensures UniqueKeys(rows, GesKeyOf(g))
  {
    DedupKeys(Filter(g.rows, Complete), GesKeyOf(g));
    Dedup(Filter(g.rows, Complete), GesKeyOf(g))
  }

  /**
   * The cleaned table is well formed, has no NA cell and no two rows with
   * the same (year, school_id, degree); the rows dropped as duplicates are
   * the complete rows whose key occurred before.
   */
  lemma CleanRowsSound(g: Frame)
    requires WellFormed(g) && "year" in g.columns && "school_id" in g.columns && "degree" in g.columns
    ensures WellFormed(Frame(g.columns, CleanRows(g)))
    ensures forall i :: 0 <= i < |CleanRows(g)| ==> Complete(CleanRows(g)[i])
    ensures UniqueKeys(CleanRows(g), GesKeyOf(g))
    ensures |CleanRows(g)| == |KeysOf(Filter(g.rows, Complete), GesKeyOf(g))|
    ensures |g.rows| == |Filter(g.rows, Complete)| + CountRejected(g.rows, Complete)
  {
    var complete := Filter(g.rows, Complete);
    var key := GesKeyOf(g);
    DedupKeepsFirst(complete, key);
    DedupKeys(complete, key);
    DedupLength(complete, key);
    FilterSound(g.rows, Complete);
    FilterCount(g.rows, Complete);
    forall i | 0 <= i < |CleanRows(g)| ensures Complete(CleanRows(g)[i]) && |CleanRows(g)[i]| == |g.columns| {
      assert CleanRows(g)[i] in Dedup(complete, key);
    }
  }

  /** The step runs `dropna()` only `if na_count > 0`; skipping it when there is no NA changes nothing. */
  lemma SkipDropNa(rows: seq<Row>)
    ensures NaCount(rows) == 0 ==> Filter(rows, Complete) == rows
  {
    if NaCount(rows) == 0 {
      FilterNothingRejected(rows, Complete);
    }
  }

  /**
   * The step runs `drop_duplicates` only `if duplicate_count > 0`; skipping
   * it when no key repeats changes nothing.
   */
  lemma SkipDropDuplicates<K>(rows: seq<Row>, key: Row -> K)
    ensures |Dedup(rows, key)| == |rows| ==> Dedup(rows, key) == rows
  {
    DedupSubsequence(rows, key);
    if |Dedup(rows, key)| == |rows| {
      SubsequenceSameLength(Dedup(rows, key), rows);
    }
  }

  /**
   * The NA and duplicate steps of `process_ges_data`, on the table that
   * already has `school_id`: `KeyError` when `year` or `degree` is missing,
   * otherwise the cleaned rows and the counts the step prints.
   */
  method DropNaAndDuplicates(g: Frame, initialRows: nat) returns (r: Result<GesOutput, PipelineError>)
    requires "school_id" in g.columns
    ensures r.Err? <==> !("year" in g.columns && "degree" in g.columns)
    ensures r.Err? ==> r.error == KeyError(MissingColumns({"year", "degree"}, g.columns))
    ensures r.Ok? ==>
      && "year" in g.columns && "degree" in g.columns
      && r.value.table == Frame(g.columns, CleanRows(g))
      && r.value.report.initialRows == initialRows
      && r.value.report.finalRows == |r.value.table.rows|
      && r.value.report.naCells == NaCount(g.rows)
      && r.value.report.naRowsRemoved == CountRejected(g.rows, Complete)
      && r.value.report.duplicateCount == |Filter(g.rows, Complete)| - |r.value.table.rows|
      && |g.rows| - r.value.report.finalRows
           == r.value.report.naRowsRemoved + r.value.report.duplicateCount
  {
    var naCells := NaCount(g.rows);
    var rows := g.rows;
    if naCells > 0 {
      rows := Filter(g.rows, Complete);
    } else {
      SkipDropNa(g.rows);
    }

    if !("year" in g.columns && "degree" in g.columns) {
      return Err(KeyError(MissingColumns({"year", "degree"}, g.columns)));
    }
    var key := GesKeyOf(g);
    var kept, duplicateCount := DropDuplicates(rows, key);
    if duplicateCount > 0 {
      rows := kept;
    } else {
      SkipDropDuplicates(rows, key);
    }
    FilterCount(g.rows, Complete);
    r := Ok(GesOutput(Frame(g.columns, rows),
                      GesReport(initialRows, naCells, CountRejected(g.rows, Complete), duplicateCount, |rows|)));
  }

  /** `process_ges_data` on the parsed `GES.csv`. */
  method ProcessGesData(ges: Frame, schoolIds: Dict<int>) returns (r: Result<GesOutput, PipelineError>)
    requires WellFormed(ges)
    ensures "university" !in ges.columns ==> r == Err(KeyError({"university"}))
    ensures "university" in ges.columns ==>
      (r.Err? <==> !("year" in ges.columns && "degree" in ges.columns))
    ensures "university" in ges.columns && r.Err? ==>
      r.error == KeyError(MissingColumns({"year", "degree"}, ges.columns))
    ensures r.Ok? ==>
      && "university" in ges.columns && "year" in ges.columns && "degree" in ges.columns
      && var g := WithSchoolId(ges, schoolIds);
      && "school_id" in g.columns && "year" in g.columns && "degree" in g.columns
      && r.value.table == Frame(g.columns, CleanRows(g))
      && r.value.report.initialRows == |ges.rows|
      && r.value.report.finalRows == |r.value.table.rows|
      && r.value.report.naCells == NaCount(g.rows)
      && r.value.report.naRowsRemoved == CountRejected(g.rows, Complete)
      && r.value.report.duplicateCount == |Filter(g.rows, Complete)| - |r.value.table.rows|
      && r.value.report.initialRows - r.value.report.finalRows
           == r.value.report.naRowsRemoved + r.value.report.duplicateCount
  {
    if "university" !in ges.columns {
      return Err(KeyError({"university"}));
    }
    var g := WithSchoolId(ges, schoolIds);
    r := DropNaAndDuplicates(g, |ges.rows|);
    assert MissingColumns({"year", "degree"}, g.columns) == MissingColumns({"year", "degree"}, ges.columns);
  }

  /**
   * Every cleaned row names a school that has an identifier, and its
   * `school_id` cell is that identifier.
   */
  lemma CleanRowsResolved(ges: Frame, schoolIds: Dict<int>, row: Row)
    requires WellFormed(ges) && "university" in ges.columns && "year" in ges.columns && "degree" in ges.columns
    requires var g := WithSchoolId(ges, schoolIds);
      "school_id" in g.columns && "year" in g.columns && "degree" in g.columns && row in CleanRows(g)
    ensures var g := WithSchoolId(ges, schoolIds);
      && "university" in g.columns
      && IsName(CellOf(g, row, "university"))
      && Get(schoolIds, CellOf(g, row, "university").value.s).Some?
      && CellOf(g, row, "school_id") == Some(Int(Get(schoolIds, CellOf(g, row, "university").value.s).value))
  {
    var g := WithSchoolId(ges, schoolIds);
    var i := CleanRowOrigin(g, row);
    WithSchoolIdCells(ges, schoolIds);
    var k := IndexOf(g.columns, "school_id");
    assert row[k].Some?;
  }

  /** A cleaned row is a complete row of the table it was cleaned from. */
  lemma CleanRowOrigin(g: Frame, row: Row) returns (i: nat)
    requires "year" in g.columns && "school_id" in g.columns && "degree" in g.columns
    requires row in CleanRows(g)
    ensures i < |g.rows| && g.rows[i] == row && Complete(row)
  {
    DedupKeepsFirst(Filter(g.rows, Complete), GesKeyOf(g));
    FilterSound(g.rows, Complete);
    assert row in Filter(g.rows, Complete);
    i :| 0 <= i < |g.rows| && g.rows[i] == row;
  }
}
