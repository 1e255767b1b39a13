/**
 * Python's ordering of `str` values (code point by code point, a proper
 * prefix before its extensions), and the `sorted()` call that the school
 * identifiers are assigned from.
 */
module Lexicographic {
  import opened Tables

  /**
   * `a < b` on Python strings: a strict order in which a proper prefix
   * sorts before its extensions and no string sorts before its own prefix.
   */
  predicate Less(a: string, b: string): (r: bool)
    ensures r ==> a != b
    ensures a < b ==> r
    ensures b <= a ==> !r
    decreases |a|
  {
    if |a| == 0 then |b| > 0
    else if |b| == 0 then false
    else if a[0] < b[0] then true
    else if a[0] == b[0] then
      assert a < b ==> a[1..] < b[1..];
      assert b <= a ==> b[1..] <= a[1..];
      Less(a[1..], b[1..])
    else false
  }

  predicate LessEq(a: string, b: string) {
    a == b || Less(a, b)
  }

  lemma {:induction false} LessIrreflexive(a: string)
    ensures !Less(a, a)
    decreases |a|
  {
    if |a| > 0 {
      LessIrreflexive(a[1..]);
    }
  }

  lemma {:induction false} LessTransitive(a: string, b: string, c: string)
    requires Less(a, b) && Less(b, c)
    ensures Less(a, c)
    decreases |a|
  {
    if |a| > 0 && a[0] == b[0] && b[0] == c[0] {
      LessTransitive(a[1..], b[1..], c[1..]);
    }
  }

  lemma {:induction false} LessTotal(a: string, b: string)
    ensures a == b || Less(a, b) || Less(b, a)
    decreases |a|
  {
    if |a| > 0 && |b| > 0 && a[0] == b[0] {
      LessTotal(a[1..], b[1..]);
      if a[1..] == b[1..] {
        assert a == [a[0]] + a[1..] && b == [b[0]] + b[1..];
      }
    }
  }

  lemma LessAsymmetric(a: string, b: string)
    requires Less(a, b)
    ensures !Less(b, a) && a != b
  {
    LessIrreflexive(a);
    if Less(b, a) {
      LessTransitive(a, b, a);
    }
  }

  lemma LessEqTransitive(a: string, b: string, c: string)
    requires LessEq(a, b) && LessEq(b, c)
    ensures LessEq(a, c)
  {
    if a != b && b != c {
      LessTransitive(a, b, c);
    }
  }

  /** Every pair in order (duplicates allowed): what `sorted()` returns. */
  predicate Sorted(s: seq<string>) {
    forall i, j :: 0 <= i < j < |s| ==> LessEq(s[i], s[j])
  }

  /** Every pair strictly in order, hence no name twice. */
  predicate StrictlySorted(s: seq<string>) {
    forall i, j :: 0 <= i < j < |s| ==> Less(s[i], s[j])
  }

  /** Insertion of `x` in front of the first element not below it. */
  function Insert(x: string, s: seq<string>): (r: seq<string>)
    ensures multiset(r) == multiset(s) + multiset{x}
    decreases |s|
  {
    if s == [] then [x]
    else if Less(s[0], x) then
      assert s == [s[0]] + s[1..];
      [s[0]] + Insert(x, s[1..])
    else [x] + s
  }

  /** The elements after insertion are `x` and those of `s`. */
  lemma InsertMembers(x: string, s: seq<string>)
    ensures forall y :: y in Insert(x, s) <==> y == x || y in s
  {
    forall y ensures y in Insert(x, s) <==> y == x || y in s {
      assert y in Insert(x, s) <==> y in multiset(Insert(x, s));
      assert y in s <==> y in multiset(s);
    }
  }

  lemma ConsSorted(h: string, t: seq<string>)
    requires Sorted(t)
    requires forall k :: 0 <= k < |t| ==> LessEq(h, t[k])
    ensures Sorted([h] + t)
  {
    var s := [h] + t;
    forall i, j | 0 <= i < j < |s| ensures LessEq(s[i], s[j]) {
      assert s[j] == t[j - 1];
      if i > 0 {
        assert s[i] == t[i - 1];
      }
    }
  }

  lemma ConsStrictlySorted(h: string, t: seq<string>)
    requires StrictlySorted(t)
    requires forall k :: 0 <= k < |t| ==> Less(h, t[k])
    ensures StrictlySorted([h] + t)
  {
    var s := [h] + t;
    forall i, j | 0 <= i < j < |s| ensures Less(s[i], s[j]) {
      assert s[j] == t[j - 1];
      if i > 0 {
        assert s[i] == t[i - 1];
      }
    }
  }

  /** Every element of `Insert(x, s[1..])` other than `x` is a later element of `s`. */
  lemma InsertTail(x: string, s: seq<string>, k: nat) returns (j: nat)
    requires s != [] && k < |Insert(x, s[1..])| && Insert(x, s[1..])[k] != x
    ensures 0 < j < |s| && s[j] == Insert(x, s[1..])[k]
  {
    InsertMembers(x, s[1..]);
    var y := Insert(x, s[1..])[k];
    assert y in Insert(x, s[1..]);
    var i :| 0 <= i < |s| - 1 && s[1..][i] == y;
    j := i + 1;
  }

  lemma {:induction false} InsertSorted(x: string, s: seq<string>)
    requires Sorted(s)
    ensures Sorted(Insert(x, s))
    decreases |s|
  {
    if s != [] {
      if Less(s[0], x) {
        var tail := Insert(x, s[1..]);
        InsertSorted(x, s[1..]);
        forall k | 0 <= k < |tail| ensures LessEq(s[0], tail[k]) {
          if tail[k] != x {
            var j := InsertTail(x, s, k);
          }
        }
        ConsSorted(s[0], tail);
      } else {
        LessTotal(x, s[0]);
        forall j | 0 <= j < |s| ensures LessEq(x, s[j]) {
          LessEqTransitive(x, s[0], s[j]);
        }
        ConsSorted(x, s);
      }
    }
  }

  lemma {:induction false} InsertStrictlySorted(x: string, s: seq<string>)
    requires StrictlySorted(s) && x !in s
    ensures StrictlySorted(Insert(x, s))
    decreases |s|
  {
    if s != [] {
      if Less(s[0], x) {
        var tail := Insert(x, s[1..]);
        InsertStrictlySorted(x, s[1..]);
        forall k | 0 <= k < |tail| ensures Less(s[0], tail[k]) {
          if tail[k] != x {
            var j := InsertTail(x, s, k);
          }
        }
        ConsStrictlySorted(s[0], tail);
      } else {
        LessTotal(x, s[0]);
        forall j | 0 <= j < |s| ensures Less(x, s[j]) {
          if j > 0 {
            LessTransitive(x, s[0], s[j]);
          }
        }
        ConsStrictlySorted(x, s);
      }
    }
  }

  /** `sorted(xs)` for a list of strings. */
  function SortNames(xs: seq<string>): (r: seq<string>)
    ensures multiset(r) == multiset(xs)
    ensures Sorted(r)
    ensures Distinct(xs) ==> StrictlySorted(r)
    decreases |xs|
  {
    if xs == [] then []
    else
      var rest := SortNames(xs[1..]);
      assert xs == [xs[0]] + xs[1..];
      assert Distinct(xs) ==> xs[0] !in multiset(xs[1..]);
      InsertSorted(xs[0], rest);
      assert Distinct(xs) ==> StrictlySorted(Insert(xs[0], rest)) by {
        if Distinct(xs) { InsertStrictlySorted(xs[0], rest); }
      }
      Insert(xs[0], rest)
  }

  /**
   * A strictly sorted listing is determined by its elements: the order in
   * which `list()` enumerates a set cannot change what `sorted()` returns.
   */
  lemma {:induction false} StrictlySortedUnique(a: seq<string>, b: seq<string>)
    requires StrictlySorted(a) && StrictlySorted(b)
    requires forall x :: x in a <==> x in b
    ensures a == b
    decreases |a|
  {
    assert a != [] ==> a[0] in b;
    assert b != [] ==> b[0] in a;
    if a != [] && b != [] {
      // both heads are the least element of the common set
      if a[0] != b[0] {
        assert b[0] in a;
        assert a[0] in b;
        var i :| 0 <= i < |a| && a[i] == b[0];
        var j :| 0 <= j < |b| && b[j] == a[0];
        assert Less(a[0], b[0]);
        assert Less(b[0], a[0]);
        LessAsymmetric(a[0], b[0]);
      }
      assert a == [a[0]] + a[1..] && b == [b[0]] + b[1..];
      forall x ensures x in a[1..] <==> x in b[1..] {
        if x in a[1..] {
          var i :| 0 <= i < |a| - 1 && a[1..][i] == x;
          LessAsymmetric(a[0], a[i + 1]);
          assert a[i + 1] in a;
          var j :| 0 <= j < |b| && b[j] == x;
          assert j != 0;
          assert b[1..][j - 1] == x;
        }
        if x in b[1..] {
          var j :| 0 <= j < |b| - 1 && b[1..][j] == x;
          LessAsymmetric(b[0], b[j + 1]);
          assert b[j + 1] in b;
          var i :| 0 <= i < |a| && a[i] == x;
          assert i != 0;
          assert a[1..][i - 1] == x;
        }
      }
      StrictlySortedUnique(a[1..], b[1..]);
      assert a == [a[0]] + a[1..] && b == [b[0]] + b[1..];
    }
  }
}
