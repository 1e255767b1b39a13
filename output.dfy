/**
 * The two reference tables written next to the fact tables: the schools
 * lookup (`school_id`, `school_name`) and the alias reference
 * (`column_name`, `full_name`, `school_id`). Writing them to CSV is I/O and
 * is not part of this model; what is modelled is their contents and order.
 */
module Output {
  import opened Wrappers
  import opened Dicts
  import opened Lexicographic
  import opened SchoolMappings

  /** One row of the schools lookup table. */
  datatype LookupRow = LookupRow(schoolId: int, schoolName: string)

  /** `pd.DataFrame({'school_id': list(d.values()), 'school_name': list(d.keys())})`. */
  function LookupRows(d: Dict<int>): (rows: seq<LookupRow>)
    ensures |rows| == |d|
    ensures forall i :: 0 <= i < |d| ==> rows[i] == LookupRow(d[i].1, d[i].0)
  {
    seq(|d|, i requires 0 <= i < |d| => LookupRow(d[i].1, d[i].0))
  }

  predicate IdsAscending(rows: seq<LookupRow>) {
    forall i, j :: 0 <= i < j < |rows| ==> rows[i].schoolId <= rows[j].schoolId
  }

  function InsertById(x: LookupRow, s: seq<LookupRow>): (r: seq<LookupRow>)
    ensures |r| == |s| + 1 && multiset(r) == multiset(s) + multiset{x}
    decreases |s|
  {
    if s == [] then [x]
    else if x.schoolId <= s[0].schoolId then [x] + s
    else
      assert s == [s[0]] + s[1..];
      [s[0]] + InsertById(x, s[1..])
  }

  lemma ConsAscending(h: LookupRow, t: seq<LookupRow>)
    requires IdsAscending(t)
    requires forall k :: 0 <= k < |t| ==> h.schoolId <= t[k].schoolId
    ensures IdsAscending([h] + t)
  {
    var s := [h] + t;
    forall i, j | 0 <= i < j < |s| ensures s[i].schoolId <= s[j].schoolId {
      assert s[j] == t[j - 1];
      if i > 0 {
        assert s[i] == t[i - 1];
      }
    }
  }

  lemma {:induction false} InsertByIdAscending(x: LookupRow, s: seq<LookupRow>)
    requires IdsAscending(s)
    ensures IdsAscending(InsertById(x, s))
    decreases |s|
  {
    if s == [] {
      assert InsertById(x, s) == [x];
    } else if x.schoolId <= s[0].schoolId {
      ConsAscending(x, s);
    } else {
      var tail := InsertById(x, s[1..]);
      InsertByIdAscending(x, s[1..]);
      forall k | 0 <= k < |tail| ensures s[0].schoolId <= tail[k].schoolId {
        assert tail[k] in multiset(tail);
        if tail[k] != x {
          assert tail[k] in multiset(s[1..]);
          var j :| 0 <= j < |s| - 1 && s[1..][j] == tail[k];
          assert s[j + 1] == tail[k];
        }
      }
      ConsAscending(s[0], tail);
    }
  }

  /** `.sort_values('school_id')`: ascending identifiers, same rows. */
  function SortById(s: seq<LookupRow>): (r: seq<LookupRow>)
    ensures |r| == |s| && multiset(r) == multiset(s)
    ensures IdsAscending(r)
  {
    if s == [] then []
    else
      var rest := SortById(s[1..]);
      assert s == [s[0]] + s[1..];
      assert IdsAscending(InsertById(s[0], rest)) by {
        InsertByIdAscending(s[0], rest);
      }
      InsertById(s[0], rest)
  }

  /** The schools lookup table as written: the mapping's (id, name) pairs, by ascending id. */
  function SchoolsLookup(d: Dict<int>): (rows: seq<LookupRow>)
    ensures multiset(rows) == multiset(LookupRows(d))
    ensures |rows| == |d| && IdsAscending(rows)
  {
    SortById(LookupRows(d))
  }

  /** Sorting rows whose identifiers already ascend leaves them as they are. */
  lemma InsertByIdFront(x: LookupRow, t: seq<LookupRow>)
    requires t == [] || x.schoolId <= t[0].schoolId
    ensures InsertById(x, t) == [x] + t
  {
  }

  lemma AscendingTail(s: seq<LookupRow>)
    requires IdsAscending(s) && s != []
    ensures IdsAscending(s[1..])
    ensures |s| > 1 ==> s[0].schoolId <= s[1..][0].schoolId
  {
    var t := s[1..];
    forall i, j | 0 <= i < j < |t| ensures t[i].schoolId <= t[j].schoolId {
      assert t[i] == s[i + 1] && t[j] == s[j + 1];
    }
  }

  lemma {:induction false} SortByIdIdentity(s: seq<LookupRow>)
    requires IdsAscending(s)
    ensures SortById(s) == s
    decreases |s|
  {
    if s != [] {
      var t := s[1..];
      AscendingTail(s);
      SortByIdIdentity(t);
      InsertByIdFront(s[0], t);
      assert [s[0]] + t == s;
    }
  }

  /**
   * The lookup table lists every school once, in name order, row `i`
   * holding identifier `i + 1`: identifiers are exactly 1..N and no name
   * appears twice.
   */
  lemma SchoolsLookupRows(d: Dict<int>, names: set<string>)
    requires IsSchoolIdMapping(d, names)
    ensures |SchoolsLookup(d)| == |d|
    ensures forall i :: 0 <= i < |d| ==> SchoolsLookup(d)[i] == LookupRow(i + 1, Keys(d)[i])
    ensures forall x :: x in names <==> exists i :: 0 <= i < |d| && SchoolsLookup(d)[i].schoolName == x
    ensures forall i, j :: 0 <= i < j < |d| ==> SchoolsLookup(d)[i].schoolName != SchoolsLookup(d)[j].schoolName
  {
    StrictlySortedDistinct(Keys(d));
    var rows := LookupRows(d);
    assert IdsAscending(rows);
    SortByIdIdentity(rows);
    forall x | x in names ensures exists i :: 0 <= i < |d| && SchoolsLookup(d)[i].schoolName == x {
      assert x in Keys(d);
      var i :| 0 <= i < |Keys(d)| && Keys(d)[i] == x;
      assert SchoolsLookup(d)[i].schoolName == x;
    }
  }

  /** Every (id, name) pair of the mapping is a row of the lookup table. */
  lemma InLookup(d: Dict<int>, names: set<string>, name: string)
    requires IsSchoolIdMapping(d, names)
    requires Get(d, name).Some?
    ensures LookupRow(Get(d, name).value, name) in SchoolsLookup(d)
  {
    SchoolsLookupRows(d, names);
    var i :| 0 <= i < |d| && d[i] == (name, Get(d, name).value);
    assert SchoolsLookup(d)[i] == LookupRow(i + 1, Keys(d)[i]);
  }

  /** A reference-table identifier: `column_to_id.get(col, '')`. */
  datatype IdOrBlank = Id(id: int) | Blank

  /** One row of the alias reference table. */
  datatype ReferenceRow = ReferenceRow(columnName: string, fullName: string, schoolId: IdOrBlank)

  function GetOrBlank(d: Dict<int>, k: string): (r: IdOrBlank)
    ensures r.Blank? <==> Get(d, k).None?
    ensures r.Id? ==> Get(d, k) == Some(r.id)
  {
    match Get(d, k)
    case Some(id) => Id(id)
    case None => Blank
  }

  /** The alias reference table: one row per alias, in the mapping's order. */
  function ColumnReference(aliases: Dict<string>, columnToId: Dict<int>): (rows: seq<ReferenceRow>)
    ensures |rows| == |aliases|
  {
    seq(|aliases|, i requires 0 <= i < |aliases| =>
      ReferenceRow(aliases[i].0, aliases[i].1, GetOrBlank(columnToId, aliases[i].0)))
  }

  /**
   * Once `column_to_id` was built, no reference row has a blank
   * identifier: row `i` pairs alias `i` with its full name and that full
   * name's identifier, which lies in 1..N.
   */
  lemma ColumnReferenceComplete(aliases: Dict<string>, d: Dict<int>, names: set<string>, columnToId: Dict<int>)
    requires IsDict(aliases) && IsSchoolIdMapping(d, names)
    requires ColumnToId(aliases, d) == Ok(columnToId)
    ensures forall i :: 0 <= i < |aliases| ==>
      var row := ColumnReference(aliases, columnToId)[i];
      && row.columnName == aliases[i].0 && row.fullName == aliases[i].1
      && row.schoolId.Id?
      && Get(d, row.fullName) == Some(row.schoolId.id)
      && 1 <= row.schoolId.id <= |d|
  {
    ColumnToIdIsDict(aliases, d, columnToId);
    forall i | 0 <= i < |aliases|
      ensures var row := ColumnReference(aliases, columnToId)[i];
        && row.schoolId.Id?
        && Get(d, row.fullName) == Some(row.schoolId.id)
        && 1 <= row.schoolId.id <= |d|
    {
      GetAt(columnToId, i);
      var id := columnToId[i].1;
      assert Get(d, aliases[i].1) == Some(id);
      var k :| 0 <= k < |d| && d[k] == (aliases[i].1, id);
    }
  }
}
