/**
 * Identity assignment: every school name, whether it appears as a
 * `university` value of the employment survey or as a full name in the
 * column-alias table, gets a dense integer identifier, in sorted order.
 */
module SchoolMappings {
  import opened Wrappers
  import opened Tables
  import opened Lexicographic
  import opened Dicts
  import opened Frames

  /** Short column headers of the enrolment and graduates files and the school each denotes. */
  const COLUMN_NAME_MAPPING: Dict<string> := [
    ("nus", "National University of Singapore"),
    ("ntu", "Nanyang Technological University"),
    ("smu", "Singapore Management University"),
    ("sit", "Singapore Institute of Technology"),
    ("sutd", "Singapore University of Technology and Design"),
    ("suss", "Singapore University of Social Sciences"),
    ("nie", "National Institute of Education"),
    ("singapore_polytechnic", "Singapore Polytechnic"),
    ("ngee_ann_polytechnic", "Ngee Ann Polytechnic"),
    ("temasek_polytechnic", "Temasek Polytechnic"),
    ("nanyang_polytechnic", "Nanyang Polytechnic"),
    ("republic_polytechnic", "Republic Polytechnic"),
    ("lasalle_diploma", "LASALLE College of the Arts (Diploma)"),
    ("lasalle_degree", "LASALLE College of the Arts (Degree)"),
    ("nafa_diploma", "Nanyang Academy of Fine Arts (Diploma)"),
    ("nafa_degree", "Nanyang Academy of Fine Arts (Degree)"),
    ("ite", "Institute of Technical Education")
  ]

  /** No two aliases denote the same school. */
  predicate DistinctFullNames(aliases: Dict<string>) {
    forall i, j :: 0 <= i < j < |aliases| ==> aliases[i].1 != aliases[j].1
  }

  /** Length, first and last character: enough to tell the constant's strings apart. */
  function Signature(s: string): (int, char, char) {
    if s == [] then (0, ' ', ' ') else (|s|, s[0], s[|s| - 1])
  }

  lemma ColumnNameMappingIsDict()
    ensures IsDict(COLUMN_NAME_MAPPING)
  {
    var d := COLUMN_NAME_MAPPING;
    forall i, j | 0 <= i < j < |d| ensures d[i].0 != d[j].0 {
      assert Signature(d[i].0) != Signature(d[j].0);
    }
  }

  lemma ColumnNameMappingDistinctFullNames()
    ensures DistinctFullNames(COLUMN_NAME_MAPPING)
  {
    var d := COLUMN_NAME_MAPPING;
    forall i, j | 0 <= i < j < |d| ensures d[i].1 != d[j].1 {
      assert Signature(d[i].1) != Signature(d[j].1);
    }
  }

  datatype Mappings = Mappings(schoolIds: Dict<int>, columnToId: Dict<int>)

  /** The cell holds a string. */
  predicate IsName(c: Cell) {
    c.Some? && c.value.Text?
  }

  /** Every cell is a string: `sorted()` can order them together with the full names. */
  predicate AllNames(cells: seq<Cell>) {
    forall i :: 0 <= i < |cells| ==> IsName(cells[i])
  }

  /** The distinct strings of a column: `set(df['university'].unique())`. */
  function Names(cells: seq<Cell>): set<string> {
    set i | 0 <= i < |cells| && IsName(cells[i]) :: cells[i].value.s
  }

  /** The full names of the alias table: `COLUMN_NAME_MAPPING.values()` as a set. */
  function FullNames(aliases: Dict<string>): set<string> {
    set i | 0 <= i < |aliases| :: aliases[i].1
  }

  /** The names that receive an identifier. */
  function AllSchools(universities: seq<Cell>, aliases: Dict<string>): set<string> {
    Names(universities) + FullNames(aliases)
  }

  /**
   * `{school: idx + 1 for idx, school in enumerate(sorted_schools)}`: the
   * keys are the listing in order, and numbering a strictly ascending
   * listing gives a dict that numbers exactly its names. A listing with
   * repeats keeps them here, where Python would keep one key per name; the
   * script only numbers the sorted listing of a set, which has none.
   */
  function NumberSchools(sortedSchools: seq<string>): (d: Dict<int>)
    ensures Keys(d) == sortedSchools
    ensures StrictlySorted(sortedSchools) ==> IsDict(d) && IsSchoolIdMapping(d, set x | x in sortedSchools)
  {
    var d := seq(|sortedSchools|, i requires 0 <= i < |sortedSchools| => (sortedSchools[i], i + 1));
    assert Keys(d) == sortedSchools;
    assert StrictlySorted(sortedSchools) ==> Distinct(sortedSchools) by {
      if StrictlySorted(sortedSchools) {
        StrictlySortedDistinct(sortedSchools);
      }
    }
    d
  }

  /**
   * `d` numbers the set `names`: its keys are the names in ascending order
   * and the name at position `i` has identifier `i + 1`.
   */
  ghost predicate IsSchoolIdMapping(d: Dict<int>, names: set<string>) {
    && StrictlySorted(Keys(d))
    && (forall x :: x in Keys(d) <==> x in names)
    && (forall i :: 0 <= i < |d| ==> d[i].1 == i + 1)
  }

  /** A numbering of the schools never lists a school twice. */
  lemma SchoolIdMappingIsDict(d: Dict<int>, names: set<string>)
    requires IsSchoolIdMapping(d, names)
    ensures IsDict(d) && Distinct(Keys(d))
  {
    StrictlySortedDistinct(Keys(d));
    forall i, j | 0 <= i < j < |d| ensures d[i].0 != d[j].0 {
      assert Keys(d)[i] != Keys(d)[j];
    }
  }

  /** Alias `i` is the first whose full name has no identifier: where the comprehension raises. */
  predicate FirstUnnumbered(aliases: Dict<string>, schoolIds: Dict<int>, i: int) {
    && 0 <= i < |aliases|
    && Get(schoolIds, aliases[i].1).None?
    && (forall j :: 0 <= j < i ==> Get(schoolIds, aliases[j].1).Some?)
  }

  /**
   * `{col: school_id_mapping[full_name] for col, full_name in aliases.items()}`:
   * raises `KeyError` at the first full name without an identifier.
   */
  function ColumnToId(aliases: Dict<string>, schoolIds: Dict<int>): (r: Result<Dict<int>, PipelineError>)
    ensures r.Ok? <==> forall i :: 0 <= i < |aliases| ==> Get(schoolIds, aliases[i].1).Some?
    ensures r.Ok? ==> |r.value| == |aliases|
    ensures r.Ok? ==> forall i :: 0 <= i < |aliases| ==>
      r.value[i].0 == aliases[i].0 && Get(schoolIds, aliases[i].1) == Some(r.value[i].1)
    ensures r.Err? ==> exists i :: FirstUnnumbered(aliases, schoolIds, i) && r.error == KeyError({aliases[i].1})
    decreases |aliases|
  {
    if aliases == [] then Ok([])
    else
      match Get(schoolIds, aliases[0].1)
      case None =>
        assert FirstUnnumbered(aliases, schoolIds, 0);
        Err(KeyError({aliases[0].1}))
      case Some(id) =>
        var rest := ColumnToId(aliases[1..], schoolIds);
        if rest.Err? then
          var i :| FirstUnnumbered(aliases[1..], schoolIds, i) && rest.error == KeyError({aliases[1..][i].1});
          assert FirstUnnumbered(aliases, schoolIds, i + 1) by {
            forall j | 0 < j < i + 1 ensures Get(schoolIds, aliases[j].1).Some? {
              assert aliases[j] == aliases[1..][j - 1];
            }
          }
          Err(rest.error)
        else
          assert forall i :: 1 <= i < |aliases| ==> aliases[i] == aliases[1..][i - 1];
          Ok([(aliases[0].0, id)] + rest.value)
  }


  lemma NamesSnoc(cells: seq<Cell>, c: Cell)
    ensures Names(cells + [c]) == Names(cells) + (if IsName(c) then {c.value.s} else {})
  {
    var all := cells + [c];
    forall x | x in Names(all) ensures x in Names(cells) + (if IsName(c) then {c.value.s} else {}) {
      var i :| 0 <= i < |all| && IsName(all[i]) && all[i].value.s == x;
      if i < |cells| { assert all[i] == cells[i]; }
    }
    forall x | x in Names(cells) ensures x in Names(all) {
      var i :| 0 <= i < |cells| && IsName(cells[i]) && cells[i].value.s == x;
      assert all[i] == cells[i];
    }
    if IsName(c) {
      assert all[|cells|] == c;
    }
  }

  lemma FullNamesSnoc(aliases: Dict<string>, e: (string, string))
    ensures FullNames(aliases + [e]) == FullNames(aliases) + {e.1}
  {
    var all := aliases + [e];
    forall x | x in FullNames(all) ensures x in FullNames(aliases) + {e.1} {
      var i :| 0 <= i < |all| && all[i].1 == x;
      if i < |aliases| { assert all[i] == aliases[i]; }
    }
    forall x | x in FullNames(aliases) ensures x in FullNames(all) {
      var i :| 0 <= i < |aliases| && aliases[i].1 == x;
      assert all[i] == aliases[i];
    }
    assert all[|aliases|] == e;
  }

  /**
   * `create_school_mappings`: collect the GES universities and the alias
   * table's full names into a set, sort it, number it from 1, and send
   * every alias to the number of its full name.
   */
  method CreateSchoolMappings(ges: Frame, aliases: Dict<string>) returns (r: Result<Mappings, PipelineError>)
    requires WellFormed(ges)
    ensures "university" !in ges.columns ==> r == Err(KeyError({"university"}))
    ensures "university" in ges.columns ==>
      (r.Err? <==> !AllNames(Column(ges, "university"))) && (r.Err? ==> r.error == TypeError)
    ensures r.Ok? ==> "university" in ges.columns
    ensures r.Ok? ==>
      var names := AllSchools(Column(ges, "university"), aliases);
      && IsSchoolIdMapping(r.value.schoolIds, names)
      && |r.value.schoolIds| == |names|
      && ColumnToId(aliases, r.value.schoolIds) == Ok(r.value.columnToId)
  {
    if "university" !in ges.columns {
      return Err(KeyError({"university"}));
    }
    var universities := Column(ges, "university");
    var allSchools: set<string> := {};
    var unorderable := false;
    for i := 0 to |universities|
      invariant allSchools == Names(universities[..i])
      invariant unorderable <==> !AllNames(universities[..i])
    {
      assert universities[..i + 1] == universities[..i] + [universities[i]];
      NamesSnoc(universities[..i], universities[i]);
      match universities[i]
      case Some(Text(name)) =>
        allSchools := allSchools + {name};
      case _ =>
        unorderable := true;
    }
    assert universities[..|universities|] == universities;
    for i := 0 to |aliases|
      invariant allSchools == Names(universities) + FullNames(aliases[..i])
    {
      assert aliases[..i + 1] == aliases[..i] + [aliases[i]];
      FullNamesSnoc(aliases[..i], aliases[i]);
      allSchools := allSchools + {aliases[i].1};
    }
    assert aliases[..|aliases|] == aliases;
    if unorderable {
      return Err(TypeError);
    }

    var listed := ListSet(allSchools);
    var schoolIds := NumberSchools(SortNames(listed));
    NumberSortedListing(listed, allSchools);
    forall i | 0 <= i < |aliases| ensures Get(schoolIds, aliases[i].1).Some? {
      assert aliases[i].1 in FullNames(aliases);
      GetAbsent(schoolIds, aliases[i].1);
    }
    var columnToId := ColumnToId(aliases, schoolIds);
    r := Ok(Mappings(schoolIds, columnToId.value));
  }

  /** `list(s)`: the elements of the set, each once, in an order the set chooses. */
  method ListSet(s: set<string>) returns (listed: seq<string>)
    ensures Distinct(listed) && |listed| == |s|
    ensures forall x :: x in listed <==> x in s
  {
    listed := [];
    var rest := s;
    while rest != {}
      invariant Distinct(listed)
      invariant rest <= s
      invariant forall x :: x in listed <==> x in s && x !in rest
      invariant |listed| + |rest| == |s|
      decreases |rest|
    {
      var name :| name in rest;
      listed := listed + [name];
      rest := rest - {name};
    }
  }

  /** Numbering the sorted listing of a set numbers the set. */
  lemma NumberSortedListing(listed: seq<string>, names: set<string>)
    requires Distinct(listed) && |listed| == |names|
    requires forall x :: x in listed <==> x in names
    ensures IsSchoolIdMapping(NumberSchools(SortNames(listed)), names)
    ensures |NumberSchools(SortNames(listed))| == |names|
  {
    var sortedSchools := SortNames(listed);
    var schoolIds := NumberSchools(sortedSchools);
    assert Keys(schoolIds) == sortedSchools;
    assert |sortedSchools| == |listed| by {
      assert |multiset(sortedSchools)| == |multiset(listed)|;
    }
    forall x ensures x in sortedSchools <==> x in names {
      assert x in sortedSchools <==> x in multiset(sortedSchools);
      assert x in listed <==> x in multiset(listed);
    }
  }

  // ------------------------------------------------------ properties of the ids

  /** The identifiers are exactly 1..N, one per name. */
  lemma SchoolIdsDense(d: Dict<int>, names: set<string>)
    requires IsSchoolIdMapping(d, names)
    ensures |d| == |names|
    ensures forall id :: id in Values(d) <==> 1 <= id <= |d|
  {
    forall id | 1 <= id <= |d| ensures id in Values(d) {
      assert Values(d)[id - 1] == id;
    }
    StrictlySortedDistinct(Keys(d));
    DistinctCardinality(Keys(d));
    assert (set x | x in Keys(d)) == names;
  }

  lemma StrictlySortedDistinct(s: seq<string>)
    requires StrictlySorted(s)
    ensures Distinct(s)
  {
    forall i, j | 0 <= i < j < |s| ensures s[i] != s[j] {
      LessAsymmetric(s[i], s[j]);
    }
  }

  /** The names ordered before `x`. */
  function Below(names: set<string>, x: string): set<string> {
    set y | y in names && Less(y, x)
  }

  /**
   * Every name gets 1 plus the number of names sorted before it: the
   * identifiers are a function of the name set alone.
   */
  lemma SchoolIdIsRank(d: Dict<int>, names: set<string>, x: string)
    requires IsSchoolIdMapping(d, names) && x in names
    ensures Get(d, x) == Some(|Below(names, x)| + 1)
  {
    var keys := Keys(d);
    var p :| 0 <= p < |keys| && keys[p] == x;
    SchoolIdMappingIsDict(d, names);
    GetAt(d, p);
    assert Get(d, x) == Some(p + 1);
    BelowCount(keys, names, p);
  }

  /** In a strictly sorted listing of `names`, exactly `p` names sort before the p-th. */
  lemma BelowCount(keys: seq<string>, names: set<string>, p: nat)
    requires StrictlySorted(keys) && (forall x :: x in keys <==> x in names) && p < |keys|
    ensures |Below(names, keys[p])| == p
  {
    BelowIsPrefix(keys, names, p);
    StrictlySortedDistinct(keys[..p]);
    DistinctCardinality(keys[..p]);
  }

  /** In a strictly sorted listing of `names`, the names below the p-th are the first p. */
  lemma BelowIsPrefix(keys: seq<string>, names: set<string>, p: nat)
    requires StrictlySorted(keys) && (forall x :: x in keys <==> x in names) && p < |keys|
    ensures Below(names, keys[p]) == set y | y in keys[..p]
  {
    forall y | y in Below(names, keys[p]) ensures y in keys[..p] {
      var q :| 0 <= q < |keys| && keys[q] == y;
      if q == p {
        LessIrreflexive(y);
      } else if q > p {
        LessAsymmetric(keys[p], keys[q]);
      }
      assert keys[..p][q] == y;
    }
    forall y | y in keys[..p] ensures y in Below(names, keys[p]) {
      var q :| 0 <= q < p && keys[..p][q] == y;
      assert keys[q] == y;
    }
  }

  /** Sorted order and identifier order agree. */
  lemma SchoolIdsMonotonic(d: Dict<int>, names: set<string>, x: string, y: string)
    requires IsSchoolIdMapping(d, names) && x in names && y in names
    ensures Less(x, y) <==> Get(d, x).value < Get(d, y).value
  {
    var keys := Keys(d);
    var p :| 0 <= p < |keys| && keys[p] == x;
    var q :| 0 <= q < |keys| && keys[q] == y;
    SchoolIdMappingIsDict(d, names);
    GetAt(d, p);
    GetAt(d, q);
    if p == q {
      LessIrreflexive(x);
    } else if q < p {
      LessAsymmetric(y, x);
    }
  }

  /** Two numberings of the same set are the same dict. */
  lemma SchoolIdsDeterministic(d1: Dict<int>, d2: Dict<int>, names: set<string>)
    requires IsSchoolIdMapping(d1, names) && IsSchoolIdMapping(d2, names)
    ensures d1 == d2
  {
    StrictlySortedUnique(Keys(d1), Keys(d2));
    assert |d1| == |Keys(d1)| == |Keys(d2)| == |d2|;
    forall i | 0 <= i < |d1| ensures d1[i] == d2[i] {
      assert Keys(d1)[i] == Keys(d2)[i];
    }
  }

  /** `column_to_id` has the aliases as keys, in the same order, so it is a dict when they are. */
  lemma ColumnToIdIsDict(aliases: Dict<string>, schoolIds: Dict<int>, columnToId: Dict<int>)
    requires IsDict(aliases) && ColumnToId(aliases, schoolIds) == Ok(columnToId)
    ensures Keys(columnToId) == Keys(aliases)
    ensures IsDict(columnToId)
  {
    forall p, q | 0 <= p < q < |columnToId| ensures columnToId[p].0 != columnToId[q].0 {
      assert columnToId[p].0 == aliases[p].0 && columnToId[q].0 == aliases[q].0;
    }
  }

  /**
   * `column_to_id` is total over the aliases and sends each one to the
   * identifier of its full name, which is one of 1..N.
   */
  lemma ColumnToIdSound(aliases: Dict<string>, d: Dict<int>, names: set<string>, columnToId: Dict<int>, a: string)
    requires IsDict(aliases) && IsSchoolIdMapping(d, names) && FullNames(aliases) <= names
    requires ColumnToId(aliases, d) == Ok(columnToId)
    requires a in Keys(aliases)
    ensures Get(aliases, a).Some?
    ensures Get(columnToId, a) == Get(d, Get(aliases, a).value)
    ensures 1 <= Get(columnToId, a).value <= |d|
  {
    var i :| 0 <= i < |Keys(aliases)| && Keys(aliases)[i] == a;
    assert aliases[i].0 == a;
    GetAt(aliases, i);
    ColumnToIdIsDict(aliases, d, columnToId);
    GetAt(columnToId, i);
    assert aliases[i].1 in names by {
      assert aliases[i].1 in FullNames(aliases);
    }
    var v := Get(d, aliases[i].1).value;
    var j :| 0 <= j < |d| && d[j] == (aliases[i].1, v);
  }

  /** Distinct aliases of distinct schools get distinct identifiers. */
  lemma ColumnToIdInjective(aliases: Dict<string>, d: Dict<int>, names: set<string>, columnToId: Dict<int>, i: int, j: int)
    requires IsDict(aliases) && DistinctFullNames(aliases) && IsSchoolIdMapping(d, names)
    requires ColumnToId(aliases, d) == Ok(columnToId)
    requires 0 <= i < |aliases| && 0 <= j < |aliases|
    ensures columnToId[i].1 == columnToId[j].1 ==> i == j
  {
    var a, b := columnToId[i].1, columnToId[j].1;
    assert Get(d, aliases[i].1) == Some(a) && Get(d, aliases[j].1) == Some(b);
    IdIsPosition(d, names, aliases[i].1, a);
    IdIsPosition(d, names, aliases[j].1, b);
    if i < j {
      assert aliases[i].1 != aliases[j].1;
    } else if j < i {
      assert aliases[j].1 != aliases[i].1;
    }
  }

  /** In the school mapping, identifier `id` sits at position `id - 1`. */
  lemma IdIsPosition(d: Dict<int>, names: set<string>, name: string, id: int)
    requires IsSchoolIdMapping(d, names) && Get(d, name) == Some(id)
    ensures 0 < id <= |d| && d[id - 1] == (name, id)
  {
    var p :| 0 <= p < |d| && d[p] == (name, id);
    assert d[p].1 == p + 1;
  }

}
