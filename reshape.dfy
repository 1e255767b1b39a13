/**
 * Enrolment and graduates tables come wide: one row per (year, sex), one
 * column per institution, headed by a short alias. `melt` turns every
 * institution cell into a long record; the alias is resolved to a school
 * identifier and full name; records with any NA are dropped, then the first
 * record of each (year, sex, school_id) is kept. The two source functions
 * differ only in the name of the value column, which is a parameter here.
 */
module Reshape {
  import opened Wrappers
  import opened Tables
  import opened Dicts
  import opened Frames
  import opened SchoolMappings

  /** One row of `df.melt(id_vars=['year', 'sex'], var_name='column_name')`. */
  datatype MeltedRecord = MeltedRecord(year: Cell, sex: Cell, columnName: string, value: Cell)

  /** One row of `df_melted[['year', 'sex', 'school_id', 'school_name', <value>]]`. */
  datatype LongRecord = LongRecord(year: Cell, sex: Cell, schoolId: Option<int>, schoolName: Option<string>, value: Cell)

  predicate IsIdColumn(name: string) {
    name == "year" || name == "sex"
  }

  /** Positions of the columns melt unpivots: all but `year` and `sex`, left to right. */
  function ValueColumns(cols: seq<string>): (js: seq<nat>)
    ensures forall k :: 0 <= k < |js| ==> js[k] < |cols| && !IsIdColumn(cols[js[k]])
    ensures forall j :: 0 <= j < |cols| && !IsIdColumn(cols[j]) ==> j in js
    ensures forall k1, k2 :: 0 <= k1 < k2 < |js| ==> js[k1] < js[k2]
    decreases |cols|
  {
    if cols == [] then []
    else
      var n := |cols| - 1;
      var init := ValueColumns(cols[..n]);
      assert forall j :: 0 <= j < n ==> cols[..n][j] == cols[j];
      if IsIdColumn(cols[n]) then init else init + [n]
  }

  /** The records melt makes from one value column: one per row, in row order. */
  function MeltColumn(f: Frame, yearAt: nat, sexAt: nat, j: nat): seq<MeltedRecord>
    requires j < |f.columns|
  {
    seq(|f.rows|, i requires 0 <= i < |f.rows| =>
      MeltedRecord(At(f.rows[i], yearAt), At(f.rows[i], sexAt), f.columns[j], At(f.rows[i], j)))
  }

  /** melt emits the value columns one after the other: column-major order. */
  function MeltColumns(f: Frame, yearAt: nat, sexAt: nat, js: seq<nat>): seq<MeltedRecord>
    requires forall k :: 0 <= k < |js| ==> js[k] < |f.columns|
    decreases |js|
  {
    if js == [] then []
    else MeltColumn(f, yearAt, sexAt, js[0]) + MeltColumns(f, yearAt, sexAt, js[1..])
  }

  /**
   * `df.melt(id_vars=['year', 'sex'], ...)`: one record per (value column,
   * row), or a `KeyError` naming the id columns that are missing.
   */
  function Melt(f: Frame): (r: Result<seq<MeltedRecord>, PipelineError>)
    requires WellFormed(f)
    ensures r.Ok? <==> "year" in f.columns && "sex" in f.columns
    ensures r.Ok? ==> |r.value| == |ValueColumns(f.columns)| * |f.rows|
    ensures r.Err? ==> r.error.KeyError? && r.error.missing != {}
    ensures r.Err? ==> forall c :: c in r.error.missing <==> (c == "year" || c == "sex") && c !in f.columns
  {
    if "year" in f.columns && "sex" in f.columns then
      var yearAt, sexAt := IndexOf(f.columns, "year"), IndexOf(f.columns, "sex");
      MeltColumnsLength(f, yearAt, sexAt, ValueColumns(f.columns));
      Ok(MeltColumns(f, yearAt, sexAt, ValueColumns(f.columns)))
    else
      var missing := MissingColumns({"year", "sex"}, f.columns);
      assert "year" in missing || "sex" in missing;
      Err(KeyError(missing))
  }

  lemma {:induction false} MeltColumnsAt(f: Frame, yearAt: nat, sexAt: nat, js: seq<nat>, k: nat, i: nat)
    requires forall k :: 0 <= k < |js| ==> js[k] < |f.columns|
    requires k < |js| && i < |f.rows|
    ensures |MeltColumns(f, yearAt, sexAt, js)| == |js| * |f.rows|
    ensures k * |f.rows| + i < |js| * |f.rows|
    ensures MeltColumns(f, yearAt, sexAt, js)[k * |f.rows| + i]
      == MeltedRecord(At(f.rows[i], yearAt), At(f.rows[i], sexAt), f.columns[js[k]], At(f.rows[i], js[k]))
    decreases |js|
  {
    var rows := |f.rows|;
    var first := MeltColumn(f, yearAt, sexAt, js[0]);
    if k == 0 {
      MeltColumnsLength(f, yearAt, sexAt, js);
      assert MeltColumns(f, yearAt, sexAt, js)[i] == first[i];
    } else {
      MeltColumnsAt(f, yearAt, sexAt, js[1..], k - 1, i);
      assert k * rows == rows + (k - 1) * rows;
      assert |js| * rows == rows + (|js| - 1) * rows;
    }
  }

  lemma {:induction false} MeltColumnsLength(f: Frame, yearAt: nat, sexAt: nat, js: seq<nat>)
    requires forall k :: 0 <= k < |js| ==> js[k] < |f.columns|
    ensures |MeltColumns(f, yearAt, sexAt, js)| == |js| * |f.rows|
    decreases |js|
  {
    if js != [] {
      MeltColumnsLength(f, yearAt, sexAt, js[1..]);
      assert |js| * |f.rows| == |f.rows| + (|js| - 1) * |f.rows|;
    }
  }

  /**
   * Record `k * rows + i` of the melt exists and carries row `i`'s year and
   * sex, the name of value column `k` and row `i`'s cell under it, NA included.
   */
  predicate MeltedAt(f: Frame, k: nat, i: nat)
    requires WellFormed(f) && "year" in f.columns && "sex" in f.columns
    requires k < |ValueColumns(f.columns)| && i < |f.rows|
  {
    var j := ValueColumns(f.columns)[k];
    && k * |f.rows| + i < |Melt(f).value|
    && Melt(f).value[k * |f.rows| + i]
         == MeltedRecord(CellOf(f, f.rows[i], "year"), CellOf(f, f.rows[i], "sex"), f.columns[j], f.rows[i][j])
  }

  /**
   * melt is complete and column-major: it has (rows) x (value columns)
   * records, and record `k * rows + i` comes from value column `k` and row `i`.
   */
  lemma MeltShape(f: Frame)
    requires WellFormed(f) && "year" in f.columns && "sex" in f.columns
    ensures Melt(f).Ok?
    ensures |Melt(f).value| == |ValueColumns(f.columns)| * |f.rows|
    ensures forall k, i :: 0 <= k < |ValueColumns(f.columns)| && 0 <= i < |f.rows| ==> MeltedAt(f, k, i)
  {
    forall k, i | 0 <= k < |ValueColumns(f.columns)| && 0 <= i < |f.rows|
      ensures MeltedAt(f, k, i)
    {
      MeltAt(f, k, i);
    }
  }

  lemma MeltAt(f: Frame, k: nat, i: nat)
    requires WellFormed(f) && "year" in f.columns && "sex" in f.columns
    requires k < |ValueColumns(f.columns)| && i < |f.rows|
    ensures Melt(f).Ok?
    ensures var j := ValueColumns(f.columns)[k];
      && k * |f.rows| + i < |Melt(f).value|
      && Melt(f).value[k * |f.rows| + i]
           == MeltedRecord(CellOf(f, f.rows[i], "year"), CellOf(f, f.rows[i], "sex"), f.columns[j], f.rows[i][j])
  {
    var js := ValueColumns(f.columns);
    var yearAt, sexAt := IndexOf(f.columns, "year"), IndexOf(f.columns, "sex");
    MeltColumnsAt(f, yearAt, sexAt, js, k, i);
    assert At(f.rows[i], js[k]) == f.rows[i][js[k]];
  }

  // ------------------------------------------------------------ resolution

  /**
   * `.map(column_to_id)` and `.map(COLUMN_NAME_MAPPING)` on the column name:
   * NA exactly for a name that is not a key, otherwise the value stored
   * under it; year, sex and the value pass through.
   */
  function Resolve(m: MeltedRecord, columnToId: Dict<int>, aliases: Dict<string>): (r: LongRecord)
    ensures r.schoolId.None? <==> m.columnName !in Keys(columnToId)
    ensures r.schoolName.None? <==> m.columnName !in Keys(aliases)
    ensures r.schoolId.Some? ==> exists i :: 0 <= i < |columnToId| && columnToId[i] == (m.columnName, r.schoolId.value)
    ensures r.schoolName.Some? ==> exists i :: 0 <= i < |aliases| && aliases[i] == (m.columnName, r.schoolName.value)
    ensures r.year == m.year && r.sex == m.sex && r.value == m.value
  {
    GetAbsent(columnToId, m.columnName);
    GetAbsent(aliases, m.columnName);
    LongRecord(m.year, m.sex, Get(columnToId, m.columnName), Get(aliases, m.columnName), m.value)
  }

  function ResolveAll(ms: seq<MeltedRecord>, columnToId: Dict<int>, aliases: Dict<string>): (rs: seq<LongRecord>)
    ensures |rs| == |ms|
  {
    seq(|ms|, i requires 0 <= i < |ms| => Resolve(ms[i], columnToId, aliases))
  }

  /** No field is NA: `dropna()` keeps the record. */
  predicate IsComplete(r: LongRecord) {
    r.year.Some? && r.sex.Some? && r.schoolId.Some? && r.schoolName.Some? && r.value.Some?
  }

  /** The deduplication key (year, sex, school_id). */
  function LongKey(r: LongRecord): (Cell, Cell, Option<int>) {
    (r.year, r.sex, r.schoolId)
  }

  /**
   * `df_melted.dropna()` then `drop_duplicates(subset=['year', 'sex', 'school_id'], keep='first')`:
   * never more records than melt made, and no (year, sex, school_id) twice.
   */
  function CleanRecords(ms: seq<MeltedRecord>, columnToId: Dict<int>, aliases: Dict<string>): (out: seq<LongRecord>)
    ensures |out| <= |ms|
    ensures UniqueKeys(out, LongKey)
  {
    DedupKeys(Filter(ResolveAll(ms, columnToId, aliases), IsComplete), LongKey);
    Dedup(Filter(ResolveAll(ms, columnToId, aliases), IsComplete), LongKey)
  }

  /**
   * No error for an unknown header: a record survives `dropna()` exactly
   * when its column is an alias and its year, sex and value are present.
   */
  lemma ResolvedComplete(m: MeltedRecord, aliases: Dict<string>, schoolIds: Dict<int>, columnToId: Dict<int>)
    requires ColumnToId(aliases, schoolIds) == Ok(columnToId)
    ensures IsComplete(Resolve(m, columnToId, aliases))
      <==> m.columnName in Keys(aliases) && m.year.Some? && m.sex.Some? && m.value.Some?
    ensures Resolve(m, columnToId, aliases).schoolId.None? <==> m.columnName !in Keys(aliases)
  {
    var a := m.columnName;
    assert forall i :: 0 <= i < |aliases| ==> Keys(aliases)[i] == aliases[i].0 == columnToId[i].0;
    if a in Keys(aliases) {
      var i :| 0 <= i < |aliases| && Keys(aliases)[i] == a;
      assert aliases[i].0 == a && columnToId[i].0 == a;
    }
  }

  /**
   * The cleaned records have no NA, no two share (year, sex, school_id),
   * each is a complete resolved record in its original order, and there is
   * one per distinct key of the complete records.
   */
  lemma CleanRecordsSound(ms: seq<MeltedRecord>, columnToId: Dict<int>, aliases: Dict<string>)
    ensures var out := CleanRecords(ms, columnToId, aliases);
      var complete := Filter(ResolveAll(ms, columnToId, aliases), IsComplete);
      && (forall i :: 0 <= i < |out| ==> IsComplete(out[i]))
      && UniqueKeys(out, LongKey)
      && IsSubsequence(out, complete)
      && KeysOf(out, LongKey) == KeysOf(complete, LongKey)
      && |out| == |KeysOf(complete, LongKey)|
  {
    var complete := Filter(ResolveAll(ms, columnToId, aliases), IsComplete);
    FilterSound(ResolveAll(ms, columnToId, aliases), IsComplete);
    DedupKeepsFirst(complete, LongKey);
    DedupKeys(complete, LongKey);
    DedupLength(complete, LongKey);
    DedupSubsequence(complete, LongKey);
    var out := Dedup(complete, LongKey);
    forall i | 0 <= i < |out| ensures IsComplete(out[i]) {
      assert out[i] in out;
    }
  }

  /**
   * Every cleaned record's (school_id, school_name) is the pair of one
   * alias: the identifier `column_to_id` gives it and the full name
   * `COLUMN_NAME_MAPPING` gives it.
   */
  lemma CleanRecordsFromAliases(ms: seq<MeltedRecord>, columnToId: Dict<int>, aliases: Dict<string>, r: LongRecord)
    requires r in CleanRecords(ms, columnToId, aliases)
    ensures exists m :: m in ms && r == Resolve(m, columnToId, aliases)
    ensures exists a :: r.schoolId == Get(columnToId, a) && r.schoolName == Get(aliases, a) && a in Keys(aliases)
  {
    var resolved := ResolveAll(ms, columnToId, aliases);
    var complete := Filter(resolved, IsComplete);
    FilterSound(resolved, IsComplete);
    DedupKeepsFirst(complete, LongKey);
    assert r in complete;
    var i :| 0 <= i < |resolved| && resolved[i] == r;
    assert ms[i] in ms;
    var a := ms[i].columnName;
    assert r.schoolName.Some?;
    var j :| 0 <= j < |aliases| && aliases[j] == (a, r.schoolName.value);
    assert Keys(aliases)[j] == a;
  }

  /**
   * Distinct aliases have distinct identifiers, so two complete records
   * with the same (year, sex, school_id) key come from the same column.
   */
  lemma SameKeySameColumn(m1: MeltedRecord, m2: MeltedRecord, aliases: Dict<string>, schoolIds: Dict<int>,
                          names: set<string>, columnToId: Dict<int>)
    requires IsDict(aliases) && DistinctFullNames(aliases) && IsSchoolIdMapping(schoolIds, names)
    requires ColumnToId(aliases, schoolIds) == Ok(columnToId)
    requires IsComplete(Resolve(m1, columnToId, aliases)) && IsComplete(Resolve(m2, columnToId, aliases))
    requires LongKey(Resolve(m1, columnToId, aliases)) == LongKey(Resolve(m2, columnToId, aliases))
    ensures m1.columnName == m2.columnName
  {
    var id := Get(columnToId, m1.columnName);
    assert id.Some? && Get(columnToId, m2.columnName) == id;
    var i :| 0 <= i < |columnToId| && columnToId[i] == (m1.columnName, id.value);
    var j :| 0 <= j < |columnToId| && columnToId[j] == (m2.columnName, id.value);
    ColumnToIdInjective(aliases, schoolIds, names, columnToId, i, j);
  }

  /** The counts the step prints. */
  datatype WideReport = WideReport(wideRows: nat, meltedRows: nat, naRemoved: nat, duplicateCount: nat,
                                   finalRows: nat, totalRemoved: nat)

  datatype WideOutput = WideOutput(columns: seq<string>, records: seq<LongRecord>, report: WideReport)

  /**
   * `process_enrolment_data` (value column `enrolment`) and
   * `process_graduates_data` (value column `graduates`).
   */
  method ProcessWideData(wide: Frame, columnToId: Dict<int>, aliases: Dict<string>, valueName: string)
    returns (r: Result<WideOutput, PipelineError>)
    requires WellFormed(wide)
    ensures r.Err? <==> Melt(wide).Err?
    ensures r.Err? ==> r.error == Melt(wide).error
    ensures r.Ok? ==>
      var melted := Melt(wide).value;
      var complete := Filter(ResolveAll(melted, columnToId, aliases), IsComplete);
      && r.value.columns == ["year", "sex", "school_id", "school_name", valueName]
      && r.value.records == CleanRecords(melted, columnToId, aliases)
      && r.value.report.wideRows == |wide.rows|
      && r.value.report.meltedRows == |melted| == |ValueColumns(wide.columns)| * |wide.rows|
      && r.value.report.naRemoved == CountRejected(ResolveAll(melted, columnToId, aliases), IsComplete)
      && r.value.report.duplicateCount == |complete| - |KeysOf(complete, LongKey)|
      && r.value.report.finalRows == |r.value.records|
      && r.value.report.totalRemoved == r.value.report.meltedRows - r.value.report.finalRows
           == r.value.report.naRemoved + r.value.report.duplicateCount
  {
    var m := Melt(wide);
    if m.Err? {
      return Err(m.error);
    }
    var melted := m.value;
    var resolved := ResolveAll(melted, columnToId, aliases);
    var cleaned := Filter(resolved, IsComplete);
    FilterCount(resolved, IsComplete);
    var naRemoved := |melted| - |cleaned|;

    var kept, duplicateCount := DropDuplicates(cleaned, LongKey);
    if duplicateCount > 0 {
      cleaned := kept;
    } else {
      DedupSubsequence(cleaned, LongKey);
      SubsequenceSameLength(kept, cleaned);
    }
    var finalRows := |cleaned|;
    var totalRemoved := |melted| - finalRows;
    r := Ok(WideOutput(["year", "sex", "school_id", "school_name", valueName], cleaned,
                       WideReport(|wide.rows|, |melted|, naRemoved, duplicateCount, finalRows, totalRemoved)));
  }
}
