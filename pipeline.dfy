/**
 * The whole cleaning run: build the school mappings, clean the GES table,
 * reshape and clean the enrolment and graduates tables, then assemble the
 * five output tables. The first step that raises stops the run.
 */
module Pipeline {
  import opened Wrappers
  import opened Tables
  import opened Dicts
  import opened Frames
  import opened SchoolMappings
  import opened GesCleaning
  import opened Reshape
  import opened Output

  /** The mappings the run builds and the five tables it writes. */
  datatype Outputs = Outputs(
    mappings: Mappings,
    schools: seq<LookupRow>,
    reference: seq<ReferenceRow>,
    ges: GesOutput,
    enrolment: WideOutput,
    graduates: WideOutput)

  /**
   * A long fact table as the run writes it: no NA, no two records with the
   * same (year, sex, school_id), and every (school_id, school_name) pair a
   * row of the schools lookup.
   */
  predicate LongTableClean(records: seq<LongRecord>, schools: seq<LookupRow>) {
    && (forall i :: 0 <= i < |records| ==>
          IsComplete(records[i])
          && LookupRow(records[i].schoolId.value, records[i].schoolName.value) in schools)
    && UniqueKeys(records, LongKey)
  }

  /**
   * The GES fact table as the run writes it: no NA, no two rows with the
   * same (year, school_id, degree), and every (school_id, university) pair
   * a row of the schools lookup.
   */
  predicate GesTableClean(g: Frame, schools: seq<LookupRow>) {
    && "school_id" in g.columns && "university" in g.columns && "year" in g.columns && "degree" in g.columns
    && (forall i :: 0 <= i < |g.rows| ==>
          && Complete(g.rows[i])
          && CellOf(g, g.rows[i], "university").Some? && CellOf(g, g.rows[i], "university").value.Text?
          && CellOf(g, g.rows[i], "school_id").Some? && CellOf(g, g.rows[i], "school_id").value.Int?
          && LookupRow(CellOf(g, g.rows[i], "school_id").value.i, CellOf(g, g.rows[i], "university").value.s)
               in schools)
    && UniqueKeys(g.rows, GesKeyOf(g))
  }

  /** `process_enrolment_data` / `process_graduates_data` produce a clean long table. */
  lemma WideTableClean(ms: seq<MeltedRecord>, aliases: Dict<string>, d: Dict<int>, names: set<string>,
                       columnToId: Dict<int>)
    requires IsDict(aliases) && IsSchoolIdMapping(d, names) && FullNames(aliases) <= names
    requires ColumnToId(aliases, d) == Ok(columnToId)
    ensures LongTableClean(CleanRecords(ms, columnToId, aliases), SchoolsLookup(d))
  {
    var out := CleanRecords(ms, columnToId, aliases);
    CleanRecordsSound(ms, columnToId, aliases);
    forall i | 0 <= i < |out|
      ensures LookupRow(out[i].schoolId.value, out[i].schoolName.value) in SchoolsLookup(d)
    {
      var rec := out[i];
      CleanRecordsFromAliases(ms, columnToId, aliases, rec);
      var a :| rec.schoolId == Get(columnToId, a) && rec.schoolName == Get(aliases, a) && a in Keys(aliases);
      ColumnToIdSound(aliases, d, names, columnToId, a);
      InLookup(d, names, rec.schoolName.value);
    }
  }

  /** `process_ges_data` produces a clean GES table. */
  lemma GesTableIsClean(ges: Frame, d: Dict<int>, names: set<string>)
    requires WellFormed(ges) && "university" in ges.columns && "year" in ges.columns && "degree" in ges.columns
    requires IsSchoolIdMapping(d, names)
    ensures var g := WithSchoolId(ges, d);
      "school_id" in g.columns && "year" in g.columns && "degree" in g.columns
      && GesTableClean(Frame(g.columns, CleanRows(g)), SchoolsLookup(d))
  {
    var g := WithSchoolId(ges, d);
    forall row | row in CleanRows(g) ensures IdOfUniversity(g, d, row) {
      CleanRowsResolved(ges, d, row);
    }
    CleanTableInLookup(g, d, names);
  }

  /** The row's `school_id` is the identifier of its `university`, a string with one. */
  predicate IdOfUniversity(g: Frame, d: Dict<int>, row: Row)
    requires "university" in g.columns && "school_id" in g.columns
  {
    && IsName(CellOf(g, row, "university"))
    && Get(d, CellOf(g, row, "university").value.s).Some?
    && CellOf(g, row, "school_id") == Some(Int(Get(d, CellOf(g, row, "university").value.s).value))
  }

  /**
   * When every cleaned row carries the identifier of its university, the
   * cleaned table is clean and pairs each row's (school_id, university) as
   * a lookup row.
   */
  lemma CleanTableInLookup(g: Frame, d: Dict<int>, names: set<string>)
    requires WellFormed(g) && IsSchoolIdMapping(d, names)
    requires "school_id" in g.columns && "university" in g.columns && "year" in g.columns && "degree" in g.columns
    requires forall row :: row in CleanRows(g) ==> IdOfUniversity(g, d, row)
    ensures GesTableClean(Frame(g.columns, CleanRows(g)), SchoolsLookup(d))
  {
    CleanRowsSound(g);
    var t := Frame(g.columns, CleanRows(g));
    forall i | 0 <= i < |t.rows|
      ensures IdOfUniversity(t, d, t.rows[i])
      ensures LookupRow(CellOf(t, t.rows[i], "school_id").value.i, CellOf(t, t.rows[i], "university").value.s)
               in SchoolsLookup(d)
    {
      assert IdOfUniversity(g, d, t.rows[i]);
      InLookup(d, names, CellOf(t, t.rows[i], "university").value.s);
    }
  }

  /**
   * The error the run stops with, taking the steps in the order `main`
   * runs them, or `None` when every step succeeds.
   */
  function FirstError(ges: Frame, enrolment: Frame, graduates: Frame): Option<PipelineError>
    requires WellFormed(ges) && WellFormed(enrolment) && WellFormed(graduates)
  {
    if "university" !in ges.columns then Some(KeyError({"university"}))
    else if !AllNames(Column(ges, "university")) then Some(TypeError)
    else if !("year" in ges.columns && "degree" in ges.columns) then
      Some(KeyError(MissingColumns({"year", "degree"}, ges.columns)))
    else if Melt(enrolment).Err? then Some(Melt(enrolment).error)
    else if Melt(graduates).Err? then Some(Melt(graduates).error)
    else None
  }

  /**
   * The outputs are the ones the steps compute from the inputs and the
   * alias table: the mappings number the GES universities and the full
   * names, the lookup and the reference are built from them, and each fact
   * table is the cleaning of its input.
   */
  ghost predicate IsRunOf(o: Outputs, aliases: Dict<string>, ges: Frame, enrolment: Frame, graduates: Frame)
    requires WellFormed(ges) && WellFormed(enrolment) && WellFormed(graduates)
  {
    && "university" in ges.columns && "year" in ges.columns && "degree" in ges.columns
    && Melt(enrolment).Ok? && Melt(graduates).Ok?
    && ReferenceTablesOfRun(o, aliases, ges)
    && FactTablesOfRun(o, aliases, ges, enrolment, graduates)
  }

  /** The mappings number the GES universities and the full names; the lookup and the reference come from them. */
  ghost predicate ReferenceTablesOfRun(o: Outputs, aliases: Dict<string>, ges: Frame)
    requires WellFormed(ges) && "university" in ges.columns
  {
    var d, columnToId := o.mappings.schoolIds, o.mappings.columnToId;
    && IsSchoolIdMapping(d, AllSchools(Column(ges, "university"), aliases))
    && ColumnToId(aliases, d) == Ok(columnToId)
    && o.schools == SchoolsLookup(d)
    && o.reference == ColumnReference(aliases, columnToId)
  }

  /** Each fact table is the cleaning of its input with the run's mappings. */
  ghost predicate FactTablesOfRun(o: Outputs, aliases: Dict<string>, ges: Frame, enrolment: Frame, graduates: Frame)
    requires WellFormed(ges) && WellFormed(enrolment) && WellFormed(graduates)
    requires "university" in ges.columns && "year" in ges.columns && "degree" in ges.columns
    requires Melt(enrolment).Ok? && Melt(graduates).Ok?
  {
    var d, columnToId := o.mappings.schoolIds, o.mappings.columnToId;
    && o.ges.table == Frame(WithSchoolId(ges, d).columns, CleanRows(WithSchoolId(ges, d)))
    && o.enrolment.columns == ["year", "sex", "school_id", "school_name", "enrolment"]
    && o.enrolment.records == CleanRecords(Melt(enrolment).value, columnToId, aliases)
    && o.graduates.columns == ["year", "sex", "school_id", "school_name", "graduates"]
    && o.graduates.records == CleanRecords(Melt(graduates).value, columnToId, aliases)
  }

  /**
   * `main`: `create_school_mappings`, `process_ges_data`,
   * `process_enrolment_data`, `process_graduates_data`, then the tables of
   * `save_output_files`, all with `COLUMN_NAME_MAPPING`. The run fails with
   * the first step's exception, and otherwise returns exactly what the
   * steps compute.
   */
  method RunPipeline(ges: Frame, enrolment: Frame, graduates: Frame) returns (r: Result<Outputs, PipelineError>)
    requires WellFormed(ges) && WellFormed(enrolment) && WellFormed(graduates)
    ensures r.Err? <==> FirstError(ges, enrolment, graduates).Some?
    ensures r.Err? ==> r.error == FirstError(ges, enrolment, graduates).value
    ensures r.Ok? ==> IsRunOf(r.value, COLUMN_NAME_MAPPING, ges, enrolment, graduates)
  {
    var aliases := COLUMN_NAME_MAPPING;
    var mappings := CreateSchoolMappings(ges, aliases);
    if mappings.Err? {
      return Err(mappings.error);
    }
    var d, columnToId := mappings.value.schoolIds, mappings.value.columnToId;
    var gesOut := ProcessGesData(ges, d);
    if gesOut.Err? {
      return Err(gesOut.error);
    }
    var enrolmentOut := ProcessWideData(enrolment, columnToId, aliases, "enrolment");
    if enrolmentOut.Err? {
      return Err(enrolmentOut.error);
    }
    var graduatesOut := ProcessWideData(graduates, columnToId, aliases, "graduates");
    if graduatesOut.Err? {
      return Err(graduatesOut.error);
    }
    var schools := SchoolsLookup(d);
    var reference := ColumnReference(aliases, columnToId);
    r := Ok(Outputs(mappings.value, schools, reference, gesOut.value, enrolmentOut.value, graduatesOut.value));
  }

  /** The school names the lookup lists. */
  function LookupNames(schools: seq<LookupRow>): set<string> {
    set i | 0 <= i < |schools| :: schools[i].schoolName
  }

  /**
   * The reference tables built from a numbering of `names`: the lookup
   * numbers the schools 1..N and lists exactly `names`, and the alias
   * reference has no blank identifier.
   */
  lemma ReferenceTablesConsistent(aliases: Dict<string>, d: Dict<int>, names: set<string>, columnToId: Dict<int>)
    requires IsDict(aliases) && IsSchoolIdMapping(d, names) && ColumnToId(aliases, d) == Ok(columnToId)
    ensures var schools := SchoolsLookup(d);
      && |schools| == |names|
      && (forall i :: 0 <= i < |schools| ==> schools[i].schoolId == i + 1)
      && LookupNames(schools) == names
    ensures var reference := ColumnReference(aliases, columnToId);
      forall i :: 0 <= i < |reference| ==> reference[i].schoolId.Id?
  {
    SchoolIdsDense(d, names);
    SchoolsLookupRows(d, names);
    ColumnReferenceComplete(aliases, d, names, columnToId);
  }

  /**
   * The reference tables of every successful run: the lookup numbers the
   * schools 1..N and lists exactly the GES universities and the full
   * names, and the alias reference has no blank identifier. It needs only
   * the reference half of `IsRunOf`, and holds for any alias table without
   * a repeated alias, which `COLUMN_NAME_MAPPING` is (`ColumnNameMappingIsDict`).
   */
  lemma RunLookupConsistent(o: Outputs, aliases: Dict<string>, ges: Frame)
    requires WellFormed(ges) && "university" in ges.columns
    requires IsDict(aliases) && ReferenceTablesOfRun(o, aliases, ges)
    ensures var names := AllSchools(Column(ges, "university"), aliases);
      && |o.schools| == |names|
      && (forall i :: 0 <= i < |o.schools| ==> o.schools[i].schoolId == i + 1)
      && LookupNames(o.schools) == names
    ensures forall i :: 0 <= i < |o.reference| ==> o.reference[i].schoolId.Id?
  {
    ReferenceTablesConsistent(aliases, o.mappings.schoolIds, AllSchools(Column(ges, "university"), aliases),
                              o.mappings.columnToId);
  }

  /**
   * The fact tables of every successful run: none has an NA cell or a
   * repeated key, and every school they mention is a row of the lookup.
   */
  lemma RunFactTablesClean(o: Outputs, aliases: Dict<string>, ges: Frame, enrolment: Frame, graduates: Frame)
    requires WellFormed(ges) && WellFormed(enrolment) && WellFormed(graduates)
    requires IsDict(aliases) && IsRunOf(o, aliases, ges, enrolment, graduates)
    ensures GesTableClean(o.ges.table, o.schools)
    ensures LongTableClean(o.enrolment.records, o.schools)
    ensures LongTableClean(o.graduates.records, o.schools)
  {
    var names := AllSchools(Column(ges, "university"), aliases);
    var d, columnToId := o.mappings.schoolIds, o.mappings.columnToId;
    WideTableClean(Melt(enrolment).value, aliases, d, names, columnToId);
    WideTableClean(Melt(graduates).value, aliases, d, names, columnToId);
    GesTableIsClean(ges, d, names);
  }
}
