/**
 * Whole-table row filters of pandas: `dropna()` keeps the rows a predicate
 * accepts, `drop_duplicates(subset=..., keep='first')` keeps the first row
 * of each key. Both keep the surviving rows in their original order.
 */
module Tables {

  predicate Distinct<T(==)>(s: seq<T>) {
    forall i, j :: 0 <= i < j < |s| ==> s[i] != s[j]
  }

  /** A list without repeats has as many elements as its set. */
  lemma {:induction false} DistinctCardinality<T>(s: seq<T>)
    requires Distinct(s)
    ensures |set x | x in s| == |s|
    decreases |s|
  {
    if s != [] {
      var init := s[..|s| - 1];
      var last := s[|s| - 1];
      DistinctCardinality(init);
      assert s == init + [last];
      assert (set x | x in s) == (set x | x in init) + {last};
      assert last !in (set x | x in init);
    }
  }

  /** `a` is `b` with some elements left out, the rest in their order. */
  predicate IsSubsequence<T(==)>(a: seq<T>, b: seq<T>)
    decreases |b|
  {
    if a == [] then true
    else if b == [] then false
    else
      || (a[|a| - 1] == b[|b| - 1] && IsSubsequence(a[..|a| - 1], b[..|b| - 1]))
      || IsSubsequence(a, b[..|b| - 1])
  }

  /** A subsequence as long as the whole is the whole. */
  lemma {:induction false} SubsequenceSameLength<T>(a: seq<T>, b: seq<T>)
    requires IsSubsequence(a, b) && |a| == |b|
    ensures a == b
    decreases |b|
  {
    if a != [] {
      var a', b' := a[..|a| - 1], b[..|b| - 1];
      if a[|a| - 1] == b[|b| - 1] && IsSubsequence(a', b') {
        SubsequenceSameLength(a', b');
        assert a == a' + [a[|a| - 1]] && b == b' + [b[|b| - 1]];
      } else {
        SubsequenceNotLonger(a, b');
        assert false;
      }
    }
  }

  lemma {:induction false} SubsequenceNotLonger<T>(a: seq<T>, b: seq<T>)
    requires IsSubsequence(a, b)
    ensures |a| <= |b|
    decreases |b|
  {
    if a != [] {
      if a[|a| - 1] == b[|b| - 1] && IsSubsequence(a[..|a| - 1], b[..|b| - 1]) {
        SubsequenceNotLonger(a[..|a| - 1], b[..|b| - 1]);
      } else {
        SubsequenceNotLonger(a, b[..|b| - 1]);
      }
    }
  }

  // ---------------------------------------------------------------- filter

  /** The rows of `xs` that `keep` accepts, in order. */
  function Filter<T>(xs: seq<T>, keep: T -> bool): (r: seq<T>)
    ensures |r| <= |xs|
    decreases |xs|
  {
    if xs == [] then []
    else
      var init := Filter(xs[..|xs| - 1], keep);
      if keep(xs[|xs| - 1]) then init + [xs[|xs| - 1]] else init
  }

  /** How many rows of `xs` `keep` rejects. */
  function CountRejected<T>(xs: seq<T>, keep: T -> bool): nat
    decreases |xs|
  {
    if xs == [] then 0
    else CountRejected(xs[..|xs| - 1], keep) + (if keep(xs[|xs| - 1]) then 0 else 1)
  }

  /** A row survives the filter exactly when it is accepted; order is kept. */
  lemma {:induction false} FilterSound<T>(xs: seq<T>, keep: T -> bool)
    ensures forall y :: y in Filter(xs, keep) <==> y in xs && keep(y)
    ensures IsSubsequence(Filter(xs, keep), xs)
    decreases |xs|
  {
    if xs != [] {
      var init := xs[..|xs| - 1];
      var last := xs[|xs| - 1];
      FilterSound(init, keep);
      assert xs == init + [last];
      var r := Filter(xs, keep);
      if keep(last) {
        assert r[..|r| - 1] == Filter(init, keep);
      } else {
        assert r == Filter(init, keep);
        if r != [] {
          assert xs[..|xs| - 1] == init;
        }
      }
    }
  }

  /** The number of rows removed is the number of rejected rows. */
  lemma {:induction false} FilterCount<T>(xs: seq<T>, keep: T -> bool)
    ensures |xs| == |Filter(xs, keep)| + CountRejected(xs, keep)
    decreases |xs|
  {
    if xs != [] {
      FilterCount(xs[..|xs| - 1], keep);
    }
  }

  /** A filter that rejects nothing returns its input. */
  lemma {:induction false} FilterNothingRejected<T>(xs: seq<T>, keep: T -> bool)
    requires CountRejected(xs, keep) == 0
    ensures Filter(xs, keep) == xs
    decreases |xs|
  {
    if xs != [] {
      FilterNothingRejected(xs[..|xs| - 1], keep);
      assert xs == xs[..|xs| - 1] + [xs[|xs| - 1]];
    }
  }

  // ----------------------------------------------------- first-occurrence dedup

  /** The set of keys of the rows of `xs`. */
  function KeysOf<T, K>(xs: seq<T>, key: T -> K): set<K> {
    set i | 0 <= i < |xs| :: key(xs[i])
  }

  lemma KeysOfSnoc<T, K>(xs: seq<T>, x: T, key: T -> K)
    ensures KeysOf(xs + [x], key) == KeysOf(xs, key) + {key(x)}
  {
    var ys := xs + [x];
    forall k | k in KeysOf(ys, key) ensures k in KeysOf(xs, key) + {key(x)} {
      var i :| 0 <= i < |ys| && key(ys[i]) == k;
      if i < |xs| { assert ys[i] == xs[i]; }
    }
    forall k | k in KeysOf(xs, key) ensures k in KeysOf(ys, key) {
      var i :| 0 <= i < |xs| && key(xs[i]) == k;
      assert ys[i] == xs[i];
    }
    assert key(ys[|xs|]) in KeysOf(ys, key);
  }

  /** pandas `duplicated(keep='first')` marks row `i`: its key occurred earlier. */
  predicate Duplicated<T, K(==)>(xs: seq<T>, key: T -> K, i: int)
    requires 0 <= i < |xs|
  {
    key(xs[i]) in KeysOf(xs[..i], key)
  }

  /** No two rows share a key. */
  predicate UniqueKeys<T, K(==)>(xs: seq<T>, key: T -> K) {
    forall i, j :: 0 <= i < j < |xs| ==> key(xs[i]) != key(xs[j])
  }

  /** `drop_duplicates(keep='first')`: the rows not marked by `Duplicated`. */
  function Dedup<T, K(==)>(xs: seq<T>, key: T -> K): (r: seq<T>)
    ensures |r| <= |xs|
    decreases |xs|
  {
    if xs == [] then []
    else
      var init := xs[..|xs| - 1];
      if key(xs[|xs| - 1]) in KeysOf(init, key) then Dedup(init, key)
      else Dedup(init, key) + [xs[|xs| - 1]]
  }

  /** Deduplication loses no key and leaves no key twice. */
  lemma {:induction false} DedupKeys<T, K>(xs: seq<T>, key: T -> K)
    ensures KeysOf(Dedup(xs, key), key) == KeysOf(xs, key)
    ensures UniqueKeys(Dedup(xs, key), key)
    decreases |xs|
  {
    if xs != [] {
      var init := xs[..|xs| - 1];
      var last := xs[|xs| - 1];
      var d := Dedup(init, key);
      DedupKeys(init, key);
      assert xs == init + [last];
      KeysOfSnoc(init, last, key);
      if key(last) !in KeysOf(init, key) {
        KeysOfSnoc(d, last, key);
        forall i | 0 <= i < |d| ensures key(d[i]) != key(last) {
          assert key(d[i]) in KeysOf(d, key);
        }
      }
    }
  }

  /** As many rows survive as there are distinct keys. */
  lemma {:induction false} DedupLength<T, K>(xs: seq<T>, key: T -> K)
    ensures |Dedup(xs, key)| == |KeysOf(xs, key)|
    decreases |xs|
  {
    if xs != [] {
      var init := xs[..|xs| - 1];
      var last := xs[|xs| - 1];
      DedupLength(init, key);
      assert xs == init + [last];
      KeysOfSnoc(init, last, key);
      if key(last) in KeysOf(init, key) {
        assert KeysOf(xs, key) == KeysOf(init, key);
      } else {
        assert |KeysOf(init, key) + {key(last)}| == |KeysOf(init, key)| + 1;
      }
    }
  }

  /** The output keeps its rows in input order. */
  lemma {:induction false} DedupSubsequence<T, K>(xs: seq<T>, key: T -> K)
    ensures IsSubsequence(Dedup(xs, key), xs)
    decreases |xs|
  {
    if xs != [] {
      var init := xs[..|xs| - 1];
      var last := xs[|xs| - 1];
      var r := Dedup(xs, key);
      DedupSubsequence(init, key);
      if key(last) in KeysOf(init, key) {
        assert r == Dedup(init, key);
        if r != [] {
          assert xs[..|xs| - 1] == init;
        }
      } else {
        assert r[..|r| - 1] == Dedup(init, key);
      }
    }
  }

  /**
   * The kept rows are exactly the first occurrences: every output row is an
   * input row that `duplicated()` does not mark, and every unmarked input
   * row is in the output.
   */
  lemma {:induction false} DedupKeepsFirst<T, K>(xs: seq<T>, key: T -> K)
    ensures forall y :: y in Dedup(xs, key) ==> IsFirstOccurrence(xs, key, y)
    ensures forall i :: 0 <= i < |xs| && !Duplicated(xs, key, i) ==> xs[i] in Dedup(xs, key)
    decreases |xs|
  {
    if xs != [] {
      var n := |xs| - 1;
      var init := xs[..n];
      var last := xs[n];
      var r := Dedup(xs, key);
      DedupKeepsFirst(init, key);
      assert forall i :: 0 <= i < n ==> xs[..i] == init[..i] && xs[i] == init[i];
      forall y | y in r ensures IsFirstOccurrence(xs, key, y) {
        if y in Dedup(init, key) {
          var i :| 0 <= i < |init| && y == init[i] && !Duplicated(init, key, i);
          assert y == xs[i] && !Duplicated(xs, key, i);
        } else {
          assert y == xs[n] && !Duplicated(xs, key, n);
        }
      }
      forall i | 0 <= i < |xs| && !Duplicated(xs, key, i) ensures xs[i] in r {
        if i < n {
          assert !Duplicated(init, key, i);
          assert xs[i] in Dedup(init, key);
        }
      }
    }
  }

  /** Row `y` is an input row at a position that `duplicated()` does not mark. */
  ghost predicate IsFirstOccurrence<T, K>(xs: seq<T>, key: T -> K, y: T) {
    exists i :: 0 <= i < |xs| && y == xs[i] && !Duplicated(xs, key, i)
  }

  /** Without repeated keys there is nothing to drop. */
  lemma {:induction false} DedupUniqueIdentity<T, K>(xs: seq<T>, key: T -> K)
    requires UniqueKeys(xs, key)
    ensures Dedup(xs, key) == xs
    decreases |xs|
  {
    if xs != [] {
      var init := xs[..|xs| - 1];
      DedupUniqueIdentity(init, key);
      forall i | 0 <= i < |init| ensures key(init[i]) != key(xs[|xs| - 1]) {
        assert init[i] == xs[i];
      }
      assert xs == init + [xs[|xs| - 1]];
    }
  }

  /**
   * `df.duplicated(subset, keep='first').sum()` followed by
   * `df.drop_duplicates(subset, keep='first')`: one pass that remembers the
   * keys seen so far.
   */
  method DropDuplicates<T, K(==)>(xs: seq<T>, key: T -> K) returns (kept: seq<T>, duplicateCount: nat)
    ensures kept == Dedup(xs, key)
    ensures UniqueKeys(kept, key) && KeysOf(kept, key) == KeysOf(xs, key)
    ensures duplicateCount == |xs| - |KeysOf(xs, key)| == |xs| - |kept|
  {
    kept := [];
    duplicateCount := 0;
    var seen: set<K> := {};
    for i := 0 to |xs|
      invariant kept == Dedup(xs[..i], key)
      invariant seen == KeysOf(xs[..i], key)
      invariant duplicateCount == i - |kept|
    {
      assert xs[..i + 1][..i] == xs[..i];
      assert xs[..i + 1] == xs[..i] + [xs[i]];
      KeysOfSnoc(xs[..i], xs[i], key);
      var k := key(xs[i]);
      if k in seen {
        duplicateCount := duplicateCount + 1;
      } else {
        kept := kept + [xs[i]];
        seen := seen + {k};
      }
    }
    assert xs[..|xs|] == xs;
    DedupKeys(xs, key);
    DedupLength(xs, key);
  }
}
