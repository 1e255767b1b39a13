/**
 * A pandas DataFrame as read from a CSV file: named columns and rows of
 * cells, where a cell is either a value or missing (NaN).
 */
module Frames {
  import opened Wrappers
  import opened Tables

  datatype Value = Int(i: int) | Real(r: real) | Text(s: string)

  /** `None` is pandas' NA. */
  type Cell = Option<Value>

  type Row = seq<Cell>

  datatype Frame = Frame(columns: seq<string>, rows: seq<Row>)

  /** The exceptions the pipeline can raise. */
  datatype PipelineError =
    | KeyError(missing: set<string>)  // a column looked up by name is absent
    | TypeError                       // `sorted()` met a name that is not a string

  /** The columns of `required` that `cols` lacks: what a `KeyError` reports. */
  function MissingColumns(required: set<string>, cols: seq<string>): (m: set<string>)
    ensures m <= required
    ensures forall c :: c in required ==> (c in m <==> c !in cols)
  {
    set c | c in required && c !in cols
  }

  /** Column names are unique (read_csv renames repeats) and every row has one cell per column. */
  predicate WellFormed(f: Frame) {
    && Distinct(f.columns)
    && forall i :: 0 <= i < |f.rows| ==> |f.rows[i]| == |f.columns|
  }

  /** `cols.index(name)`: the first position holding `name`. */
  function IndexOf(cols: seq<string>, name: string): (k: nat)
    requires name in cols
    ensures k < |cols| && cols[k] == name && name !in cols[..k]
  {
    if cols[0] == name then 0
    else
      var k := IndexOf(cols[1..], name) + 1;
      assert cols[..k] == [cols[0]] + cols[1..][..k - 1];
      k
  }

  /** In a list without repeats, the position of an element is its index. */
  lemma IndexOfDistinct(cols: seq<string>, k: nat)
    requires Distinct(cols) && k < |cols|
    ensures IndexOf(cols, cols[k]) == k
  {
  }

  /** The cell at position `i`, or NA past the end of the row. */
  function At(row: Row, i: nat): Cell {
    if i < |row| then row[i] else None
  }

  /** The cell of `row` in the column called `name`. */
  function CellOf(f: Frame, row: Row, name: string): Cell
    requires name in f.columns
  {
    At(row, IndexOf(f.columns, name))
  }

  /** All cells of column `name`, top to bottom. */
  function Column(f: Frame, name: string): (cells: seq<Cell>)
    requires WellFormed(f) && name in f.columns
    ensures |cells| == |f.rows|
    ensures forall i :: 0 <= i < |f.rows| ==> cells[i] == CellOf(f, f.rows[i], name)
  {
    var k := IndexOf(f.columns, name);
    seq(|f.rows|, i requires 0 <= i < |f.rows| => f.rows[i][k])
  }

  /** The row has no NA cell: `dropna()` keeps it. */
  predicate Complete(row: Row) {
    forall i :: 0 <= i < |row| ==> row[i].Some?
  }

  /** Number of NA cells in one row: at most its length, and 0 exactly when `dropna()` keeps it. */
  function RowNaCount(row: Row): (n: nat)
    ensures n <= |row|
    ensures n == 0 <==> Complete(row)
    decreases |row|
  {
    if row == [] then 0
    else
      assert forall i :: 1 <= i < |row| ==> row[i] == row[1..][i - 1];
      RowNaCount(row[1..]) + (if row[0].None? then 1 else 0)
  }

  /**
   * `df.isna().sum().sum()`: the number of NA cells in the table. It is 0
   * exactly when `dropna()` would reject no row.
   */
  function NaCount(rows: seq<Row>): (n: nat)
    ensures n == 0 <==> CountRejected(rows, Complete) == 0
    decreases |rows|
  {
    if rows == [] then 0
    else
      CountRejectedCons(rows, Complete);
      NaCount(rows[1..]) + RowNaCount(rows[0])
  }

  lemma {:induction false} CountRejectedCons<T>(xs: seq<T>, keep: T -> bool)
    requires xs != []
    ensures CountRejected(xs, keep) == CountRejected(xs[1..], keep) + (if keep(xs[0]) then 0 else 1)
    decreases |xs|
  {
    if |xs| > 1 {
      var init := xs[..|xs| - 1];
      CountRejectedCons(init, keep);
      assert init[1..] == xs[1..][..|xs[1..]| - 1];
      assert init[0] == xs[0];
    }
  }

  // ------------------------------------------------------------ column moves

  /** `x = s.pop(from); s.insert(to, x)`; Python's insert puts `x` last when `to` is past the end. */
  function MoveTo<T>(s: seq<T>, from: nat, to: nat): (r: seq<T>)
    requires from < |s|
    ensures |r| == |s| && multiset(r) == multiset(s)
  {
    var rest := s[..from] + s[from + 1..];
    var t := if to <= |rest| then to else |rest|;
    var r := rest[..t] + [s[from]] + rest[t..];
    assert s == s[..from] + [s[from]] + s[from + 1..];
    assert multiset(s) == multiset(s[..from]) + multiset{s[from]} + multiset(s[from + 1..]);
    assert multiset(rest) == multiset(s[..from]) + multiset(s[from + 1..]);
    assert rest == rest[..t] + rest[t..];
    assert multiset(r) == multiset(rest[..t]) + multiset{s[from]} + multiset(rest[t..]);
    assert multiset(r) == multiset(rest) + multiset{s[from]};
    assert multiset(s) == multiset(rest) + multiset{s[from]};
    r
  }

  /** The position in the original list that position `p` of the moved list comes from. */
  function MoveSource(n: nat, from: nat, to: nat, p: nat): nat
    requires from < n && p < n
  {
    var t := if to <= n - 1 then to else n - 1;
    var q := if p < t then p else if p == t then n else p - 1;
    if q == n then from else if q < from then q else q + 1
  }

  lemma MoveToAt<T>(s: seq<T>, from: nat, to: nat, p: nat)
    requires from < |s| && p < |s|
    ensures |MoveTo(s, from, to)| == |s|
    ensures MoveSource(|s|, from, to, p) < |s|
    ensures MoveTo(s, from, to)[p] == s[MoveSource(|s|, from, to, p)]
  {
  }

  lemma MoveSourceInjective(n: nat, from: nat, to: nat, p1: nat, p2: nat)
    requires from < n && p1 < n && p2 < n && p1 != p2
    ensures MoveSource(n, from, to, p1) != MoveSource(n, from, to, p2)
  {
  }

  /** The moved element lands at `to`, or last when the list is shorter. */
  lemma MoveToTarget<T>(s: seq<T>, from: nat, to: nat)
    requires from < |s|
    ensures MoveTo(s, from, to)[if to < |s| then to else |s| - 1] == s[from]
  {
  }

  /**
   * Apart from the moved element, which lands at `to` (or last), the moved
   * list holds the other elements in their original order.
   */
  lemma MoveToKeepsOthers<T>(s: seq<T>, from: nat, to: nat)
    requires from < |s|
    ensures var t := if to < |s| then to else |s| - 1;
      && MoveTo(s, from, to)[t] == s[from]
      && MoveTo(s, from, to)[..t] + MoveTo(s, from, to)[t + 1..] == s[..from] + s[from + 1..]
  {
    var rest := s[..from] + s[from + 1..];
    var t := if to <= |rest| then to else |rest|;
    var r := MoveTo(s, from, to);
    assert r == rest[..t] + [s[from]] + rest[t..];
    assert r[..t] == rest[..t];
    assert r[t + 1..] == rest[t..];
  }

  /** Moving the last element to `to` inserts it there, in front of the element at `to`. */
  lemma MoveLastTo<T>(s: seq<T>, x: T, to: nat)
    ensures var t := if to <= |s| then to else |s|;
      MoveTo(s + [x], |s|, to) == s[..t] + [x] + s[t..]
  {
    var sx := s + [x];
    assert sx[..|s|] + sx[|s| + 1..] == s;
  }

  /**
   * Assigning a column `name` and then moving it to `to`: a new name is
   * inserted at `to` (or last), an existing one is moved there, and either way
   * the other names keep their order.
   */
  lemma AssignThenMove(cols: seq<string>, name: string, to: nat)
    ensures var a := if name in cols then cols else cols + [name];
      name in a &&
      var r := MoveTo(a, IndexOf(a, name), to);
      && (name !in cols ==>
            var k := if to <= |cols| then to else |cols|;
            r == cols[..k] + [name] + cols[k..])
      && (name in cols ==>
            var p := IndexOf(cols, name);
            var t := if to < |cols| then to else |cols| - 1;
            r[..t] + r[t + 1..] == cols[..p] + cols[p + 1..])
  {
    if name in cols {
      MoveToKeepsOthers(cols, IndexOf(cols, name), to);
    } else {
      var a := cols + [name];
      assert IndexOf(a, name) == |cols|;
      MoveLastTo(cols, name, to);
    }
  }

  /** `df[cols]` after the column `from` was popped and reinserted at `to`. */
  function MoveColumn(f: Frame, from: nat, to: nat): (g: Frame)
    requires WellFormed(f) && from < |f.columns|
    ensures |g.rows| == |f.rows|
    ensures |g.columns| == |f.columns| && multiset(g.columns) == multiset(f.columns)
    ensures forall i :: 0 <= i < |f.rows| ==> multiset(g.rows[i]) == multiset(f.rows[i])
  {
    Frame(MoveTo(f.columns, from, to),
          seq(|f.rows|, i requires 0 <= i < |f.rows| => MoveTo(f.rows[i], from, to)))
  }

  /**
   * Moving a column reorders every row with the header: the table stays
   * well formed, keeps its column names, and every row has the same cell
   * under each column name as before.
   */
  lemma MoveColumnSound(f: Frame, from: nat, to: nat)
    requires WellFormed(f) && from < |f.columns|
    ensures WellFormed(MoveColumn(f, from, to))
    ensures forall c :: c in MoveColumn(f, from, to).columns <==> c in f.columns
    ensures var g := MoveColumn(f, from, to);
      forall i, c :: 0 <= i < |f.rows| && c in f.columns ==>
        CellOf(g, g.rows[i], c) == CellOf(f, f.rows[i], c)
  {
    MoveColumnShape(f, from, to);
    var g := MoveColumn(f, from, to);
    forall i, c | 0 <= i < |f.rows| && c in f.columns
      ensures CellOf(g, g.rows[i], c) == CellOf(f, f.rows[i], c)
    {
      MoveColumnCell(f, from, to, i, c);
    }
  }

  /** Moving a column keeps the table well formed and keeps its set of column names. */
  lemma MoveColumnShape(f: Frame, from: nat, to: nat)
    requires WellFormed(f) && from < |f.columns|
    ensures WellFormed(MoveColumn(f, from, to))
    ensures forall c :: c in MoveColumn(f, from, to).columns <==> c in f.columns
  {
    var g := MoveColumn(f, from, to);
    var n := |f.columns|;
    forall p1, p2 | 0 <= p1 < p2 < n ensures g.columns[p1] != g.columns[p2] {
      MoveToAt(f.columns, from, to, p1);
      MoveToAt(f.columns, from, to, p2);
      MoveSourceInjective(n, from, to, p1, p2);
    }
    forall i | 0 <= i < |f.rows| ensures |g.rows[i]| == n {
      MoveToAt(f.rows[i], from, to, 0);
    }
    forall c | c in f.columns ensures c in g.columns {
      var k := IndexOf(f.columns, c);
      var p :| 0 <= p < n && MoveSource(n, from, to, p) == k by {
        MoveSourceOnto(n, from, to, k);
      }
      MoveToAt(f.columns, from, to, p);
      assert g.columns[p] == c;
    }
    forall c | c in g.columns ensures c in f.columns {
      var p :| 0 <= p < n && g.columns[p] == c;
      MoveToAt(f.columns, from, to, p);
    }
  }

  /** The cell of row `i` under column `c` is the same after the move. */
  lemma MoveColumnCell(f: Frame, from: nat, to: nat, i: nat, c: string)
    requires WellFormed(f) && from < |f.columns|
    requires i < |f.rows| && c in f.columns
    ensures var g := MoveColumn(f, from, to);
      c in g.columns && CellOf(g, g.rows[i], c) == CellOf(f, f.rows[i], c)
  {
    MoveColumnShape(f, from, to);
    var g := MoveColumn(f, from, to);
    var n := |f.columns|;
    var p := IndexOf(g.columns, c);
    var k := MoveSource(n, from, to, p);
    MoveToAt(f.columns, from, to, p);
    MoveToAt(f.rows[i], from, to, p);
    IndexOfDistinct(f.columns, k);
  }


  lemma MoveSourceOnto(n: nat, from: nat, to: nat, k: nat)
    requires from < n && k < n
    ensures exists p :: 0 <= p < n && MoveSource(n, from, to, p) == k
  {
    var t := if to <= n - 1 then to else n - 1;
    if k == from {
      assert MoveSource(n, from, to, t) == k;
    } else {
      var q := if k < from then k else k - 1;
      var p := if q < t then q else q + 1;
      assert MoveSource(n, from, to, p) == k;
    }
  }

  // ------------------------------------------------------- column assignment

  /** `df[name] = values`: overwrite the column in place, or append it last. */
  function AssignColumn(f: Frame, name: string, values: seq<Cell>): (g: Frame)
    requires WellFormed(f) && |values| == |f.rows|
    ensures |g.rows| == |f.rows|
    ensures g.columns == if name in f.columns then f.columns else f.columns + [name]
  {
    if name in f.columns then
      var k := IndexOf(f.columns, name);
      Frame(f.columns, seq(|f.rows|, i requires 0 <= i < |f.rows| => f.rows[i][k := values[i]]))
    else
      Frame(f.columns + [name], seq(|f.rows|, i requires 0 <= i < |f.rows| => f.rows[i] + [values[i]]))
  }

  /**
   * After the assignment the table is well formed, has the column `name`,
   * holds `values` under it and leaves every other column as it was.
   */
  lemma AssignColumnSound(f: Frame, name: string, values: seq<Cell>)
    requires WellFormed(f) && |values| == |f.rows|
    ensures var g := AssignColumn(f, name, values);
      && WellFormed(g)
      && (forall c :: c in g.columns <==> c in f.columns || c == name)
      && (forall i :: 0 <= i < |f.rows| ==> CellOf(g, g.rows[i], name) == values[i])
      && (forall i, c :: 0 <= i < |f.rows| && c in f.columns && c != name ==>
            CellOf(g, g.rows[i], c) == CellOf(f, f.rows[i], c))
  {
    var g := AssignColumn(f, name, values);
    if name in f.columns {
      forall c | c in f.columns ensures IndexOf(g.columns, c) == IndexOf(f.columns, c) {
      }
    } else {
      forall c | c in f.columns ensures IndexOf(g.columns, c) == IndexOf(f.columns, c) {
        var k := IndexOf(f.columns, c);
        assert g.columns[k] == c && g.columns[..k] == f.columns[..k];
        IndexOfDistinct(g.columns, k);
      }
      assert g.columns[|f.columns|] == name;
      IndexOfDistinct(g.columns, |f.columns|);
    }
  }
}
