/** Sequence operations behind the scripts' row filters, `unique()` and `dict(zip(...))`. */
module Seqs {
  import opened Wrappers

  /** `a` is `b` with some elements left out and the rest in their original order. */
  predicate Subsequence<T(==)>(a: seq<T>, b: seq<T>)
    decreases |b|
  {
    a == [] || (b != [] && ((a[0] == b[0] && Subsequence(a[1..], b[1..])) || Subsequence(a, b[1..])))
  }

  predicate NoDuplicates<T(==)>(s: seq<T>) {
    forall i, j :: 0 <= i < j < |s| ==> s[i] != s[j]
  }

  /** The rows of `s` that satisfy `p`, in their original order (a boolean-mask selection). */
  function Filter<T(!new)>(s: seq<T>, p: T -> bool): (r: seq<T>)
    ensures forall x :: x in r <==> x in s && p(x)
    ensures |r| <= |s|
  {
    if s == [] then []
    else if p(s[0]) then [s[0]] + Filter(s[1..], p)
    else Filter(s[1..], p)
  }

  lemma {:induction false} FilterIsSubsequence<T(!new)>(s: seq<T>, p: T -> bool)
    ensures Subsequence(Filter(s, p), s)
  {
    if s != [] {
      FilterIsSubsequence(s[1..], p);
    }
  }

  /** Rows kept by a mask and by its negation together account for every row once. */
  lemma {:induction false} FilterPartition<T(!new)>(s: seq<T>, p: T -> bool, q: T -> bool)
    requires forall x :: x in s ==> (p(x) <==> !q(x))
    ensures |Filter(s, p)| + |Filter(s, q)| == |s|
    ensures multiset(Filter(s, p)) + multiset(Filter(s, q)) == multiset(s)
  {
    if s != [] {
      FilterPartition(s[1..], p, q);
      assert s == [s[0]] + s[1..];
    }
  }

  /** A mask selection keeps every copy of a selected value and no copy of the others. */
  lemma {:induction false} FilterMultiset<T(!new)>(s: seq<T>, p: T -> bool)
    ensures forall x :: multiset(Filter(s, p))[x] == if p(x) then multiset(s)[x] else 0
  {
    if s != [] {
      FilterMultiset(s[1..], p);
      assert s == [s[0]] + s[1..];
    }
  }

  /** pandas' `unique()`: each value once, in order of first appearance. */
  function Distinct<T(==,!new)>(s: seq<T>): (r: seq<T>)
    ensures NoDuplicates(r)
    ensures forall x :: x in r <==> x in s
    ensures |r| <= |s|
  {
    if s == [] then []
    else
      var d := Distinct(s[..|s| - 1]);
      assert forall x :: x in s <==> x in s[..|s| - 1] || x == s[|s| - 1] by {
        assert s == s[..|s| - 1] + [s[|s| - 1]];
      }
      if s[|s| - 1] in d then d else d + [s[|s| - 1]]
  }

  lemma {:induction false} DistinctIsSubsequence<T(!new)>(s: seq<T>)
    ensures Subsequence(Distinct(s), s)
  {
    if s != [] {
      DistinctIsSubsequence(s[..|s| - 1]);
      SubsequenceExtend(Distinct(s[..|s| - 1]), s[..|s| - 1], s[|s| - 1]);
      assert s == s[..|s| - 1] + [s[|s| - 1]];
      if s[|s| - 1] in Distinct(s[..|s| - 1]) {
        SubsequenceAppendRight(Distinct(s[..|s| - 1]), s[..|s| - 1], s[|s| - 1]);
      }
    }
  }

  /** `a` occurs in `s` at some position before any occurrence of `b`. */
  ghost predicate OccursBefore<T>(s: seq<T>, a: T, b: T) {
    exists k :: 0 <= k < |s| && s[k] == a && b !in s[..k + 1]
  }

  /** `unique()` keeps first-appearance order: each value it lists first occurs before the values after it. */
  lemma {:induction false} DistinctFirstAppearance<T(!new)>(s: seq<T>)
    ensures forall i, j :: 0 <= i < j < |Distinct(s)| ==> OccursBefore(s, Distinct(s)[i], Distinct(s)[j])
  {
    if s == [] {
      assert Distinct(s) == [];
    } else {
      var p := s[..|s| - 1];
      var d := Distinct(p);
      DistinctFirstAppearance(p);
      var r := Distinct(s);
      forall i, j | 0 <= i < j < |r| ensures OccursBefore(s, r[i], r[j]) {
        if j < |d| {
          assert r[i] == d[i] && r[j] == d[j] && OccursBefore(p, d[i], d[j]);
          var k :| 0 <= k < |p| && p[k] == d[i] && d[j] !in p[..k + 1];
          assert s[..k + 1] == p[..k + 1];
        } else {
          assert r[i] == d[i] && r[j] == s[|s| - 1] && r[j] !in p;
          assert d[i] in d;
          var k :| 0 <= k < |p| && p[k] == d[i];
          assert s[..k + 1] == p[..k + 1];
          assert forall x :: x in p[..k + 1] ==> x in p;
        }
      }
    }
  }

  lemma {:induction false} SubsequenceExtend<T>(a: seq<T>, b: seq<T>, x: T)
    requires Subsequence(a, b)
    ensures Subsequence(a + [x], b + [x])
    decreases |b|
  {
    if a == [] {
      SubsequenceOfSingleton(b, x);
      assert a + [x] == [x];
    } else {
      assert (a + [x])[0] == a[0] && (a + [x])[1..] == a[1..] + [x];
      assert (b + [x])[1..] == b[1..] + [x];
      if a[0] == b[0] && Subsequence(a[1..], b[1..]) {
        SubsequenceExtend(a[1..], b[1..], x);
      } else {
        SubsequenceExtend(a, b[1..], x);
      }
    }
  }

  lemma {:induction false} SubsequenceOfSingleton<T>(b: seq<T>, x: T)
    ensures Subsequence([x], b + [x])
    decreases |b|
  {
    if b != [] {
      assert (b + [x])[1..] == b[1..] + [x];
      SubsequenceOfSingleton(b[1..], x);
    }
  }

  lemma {:induction false} SubsequenceAppendRight<T>(a: seq<T>, b: seq<T>, x: T)
    requires Subsequence(a, b)
    ensures Subsequence(a, b + [x])
    decreases |b|
  {
    if a != [] {
      assert (b + [x])[1..] == b[1..] + [x];
      if a[0] == b[0] && Subsequence(a[1..], b[1..]) {
        SubsequenceAppendRight(a[1..], b[1..], x);
      } else {
        SubsequenceAppendRight(a, b[1..], x);
      }
    }
  }

  lemma {:induction false} SubsequenceMembers<T>(a: seq<T>, b: seq<T>, x: T)
    requires Subsequence(a, b) && x in a
    ensures x in b
    decreases |b|
  {
    if a[0] == b[0] && Subsequence(a[1..], b[1..]) {
      if x != a[0] {
        SubsequenceMembers(a[1..], b[1..], x);
      }
    } else {
      SubsequenceMembers(a, b[1..], x);
    }
  }

  /** Every sequence is a subsequence of itself. */
  lemma {:induction false} SubsequenceRefl<T>(s: seq<T>)
    ensures Subsequence(s, s)
  {
    if s != [] { SubsequenceRefl(s[1..]); }
  }

  /** Leaving out elements twice is leaving out elements once. */
  lemma {:induction false} SubsequenceTrans<T>(a: seq<T>, b: seq<T>, c: seq<T>)
    requires Subsequence(a, b) && Subsequence(b, c)
    ensures Subsequence(a, c)
    decreases |c|
  {
    if a != [] {
      if Subsequence(b, c[1..]) {
        SubsequenceTrans(a, b, c[1..]);
      } else if a[0] == b[0] && Subsequence(a[1..], b[1..]) {
        SubsequenceTrans(a[1..], b[1..], c[1..]);
      } else {
        SubsequenceTrans(a, b[1..], c[1..]);
      }
    }
  }

  lemma SubsequenceCons<T>(a: seq<T>, b: seq<T>, x: T)
    requires Subsequence(a, b)
    ensures Subsequence(a, [x] + b) && Subsequence([x] + a, [x] + b)
  {
    assert ([x] + b)[1..] == b;
    assert ([x] + a)[1..] == a;
  }

  lemma {:induction false} SubsequenceNoDuplicates<T>(a: seq<T>, b: seq<T>)
    requires Subsequence(a, b) && NoDuplicates(b)
    ensures NoDuplicates(a)
    decreases |b|
  {
    if a != [] {
      assert NoDuplicates(b[1..]) by {
        forall i, j | 0 <= i < j < |b[1..]| ensures b[1..][i] != b[1..][j] {
          assert b[1..][i] == b[i + 1] && b[1..][j] == b[j + 1];
        }
      }
      if a[0] == b[0] && Subsequence(a[1..], b[1..]) {
        SubsequenceNoDuplicates(a[1..], b[1..]);
        forall i, j | 0 <= i < j < |a| ensures a[i] != a[j] {
          if i == 0 {
            assert a[j] == a[1..][j - 1];
            SubsequenceMembers(a[1..], b[1..], a[j]);
            var k :| 0 <= k < |b[1..]| && b[1..][k] == a[j];
            assert b[k + 1] == a[j];
          } else {
            assert a[i] == a[1..][i - 1] && a[j] == a[1..][j - 1];
          }
        }
      } else {
        SubsequenceNoDuplicates(a, b[1..]);
      }
    }
  }

  /**
   * The first element of `Filter(s, p)` with some key is also the first element
   * of `s` that passes `p` and has that key.
   */
  lemma {:induction false} FirstInFilter<T(!new), K>(s: seq<T>, p: T -> bool, key: T -> K, y: T)
    requires exists i :: 0 <= i < |Filter(s, p)| && Filter(s, p)[i] == y
               && forall j :: 0 <= j < i ==> key(Filter(s, p)[j]) != key(y)
    ensures exists i :: 0 <= i < |s| && s[i] == y
              && forall j :: 0 <= j < i ==> p(s[j]) ==> key(s[j]) != key(y)
  {
    var f := Filter(s, p);
    var i :| 0 <= i < |f| && f[i] == y && forall j :: 0 <= j < i ==> key(f[j]) != key(y);
    var rest := Filter(s[1..], p);
    if p(s[0]) {
      assert f == [s[0]] + rest;
      if i == 0 {
        assert s[0] == y;
      } else {
        assert rest[i - 1] == y;
        assert forall j :: 0 <= j < i - 1 ==> key(rest[j]) != key(y) by {
          forall j | 0 <= j < i - 1 ensures key(rest[j]) != key(y) { assert rest[j] == f[j + 1]; }
        }
        FirstInFilter(s[1..], p, key, y);
        var k :| 0 <= k < |s[1..]| && s[1..][k] == y && forall j :: 0 <= j < k ==> p(s[1..][j]) ==> key(s[1..][j]) != key(y);
        assert s[k + 1] == y;
        assert key(s[0]) != key(y) by { assert f[0] == s[0]; }
        forall j | 0 <= j < k + 1 && p(s[j]) ensures key(s[j]) != key(y) {
          if j > 0 { assert s[j] == s[1..][j - 1]; }
        }
      }
    } else {
      assert f == rest;
      FirstInFilter(s[1..], p, key, y);
      var k :| 0 <= k < |s[1..]| && s[1..][k] == y && forall j :: 0 <= j < k ==> p(s[1..][j]) ==> key(s[1..][j]) != key(y);
      assert s[k + 1] == y;
      forall j | 0 <= j < k + 1 && p(s[j]) ensures key(s[j]) != key(y) {
        if j > 0 { assert s[j] == s[1..][j - 1]; }
      }
    }
  }

  /** The number of rows a boolean mask selects (`mask.sum()`). */
  function CountTrue(mask: seq<bool>): (n: nat)
    ensures n <= |mask|
  {
    if mask == [] then 0 else (if mask[0] then 1 else 0) + CountTrue(mask[1..])
  }

  /** A mask that selects at least wherever another does selects at least as many rows. */
  lemma {:induction false} CountTrueMonotone(a: seq<bool>, b: seq<bool>)
    requires |a| == |b| && forall i :: 0 <= i < |a| && a[i] ==> b[i]
    ensures CountTrue(a) <= CountTrue(b)
  {
    if a != [] {
      assert forall i :: 0 <= i < |a[1..]| && a[1..][i] ==> b[1..][i] by {
        forall i | 0 <= i < |a[1..]| && a[1..][i] ensures b[1..][i] { assert a[1..][i] == a[i + 1]; }
      }
      CountTrueMonotone(a[1..], b[1..]);
    }
  }

  /** Python's `zip`: pairs up to the shorter length. */
  function Zip<A, B>(a: seq<A>, b: seq<B>): (r: seq<(A, B)>)
    ensures |r| == if |a| < |b| then |a| else |b|
    ensures forall i :: 0 <= i < |r| ==> r[i] == (a[i], b[i])
  {
    if a == [] || b == [] then [] else [(a[0], b[0])] + Zip(a[1..], b[1..])
  }

  /**
   * Looking `k` up in `dict(pairs)`: the value of the LAST pair whose key is `k`
   * (later pairs overwrite earlier ones), or missing when no pair has that key.
   */
  function DictLookup<K(==), V>(pairs: seq<(K, V)>, k: K): Option<V> {
    if pairs == [] then None
    else if pairs[|pairs| - 1].0 == k then Some(pairs[|pairs| - 1].1)
    else DictLookup(pairs[..|pairs| - 1], k)
  }

  /** The lookup misses exactly when no pair has the key, and otherwise finds the last pair that has it. */
  lemma {:induction false} DictLookupLast<K, V>(pairs: seq<(K, V)>, k: K)
    ensures DictLookup(pairs, k).None? <==> forall i :: 0 <= i < |pairs| ==> pairs[i].0 != k
    ensures var r := DictLookup(pairs, k);
            r.Some? ==> exists i :: 0 <= i < |pairs| && pairs[i] == (k, r.value)
                          && forall j :: i < j < |pairs| ==> pairs[j].0 != k
  {
    if pairs != [] && pairs[|pairs| - 1].0 != k {
      var init := pairs[..|pairs| - 1];
      DictLookupLast(init, k);
      assert forall i :: 0 <= i < |init| ==> init[i] == pairs[i];
    }
  }

  /** The value found for a key is that of the pair at the key's last position. */
  lemma DictLookupAtLast<K, V>(pairs: seq<(K, V)>, k: K, i: int)
    requires 0 <= i < |pairs| && pairs[i].0 == k && forall j :: i < j < |pairs| ==> pairs[j].0 != k
    ensures DictLookup(pairs, k) == Some(pairs[i].1)
  {
    DictLookupLast(pairs, k);
    var l :| 0 <= l < |pairs| && pairs[l] == (k, DictLookup(pairs, k).value) && forall j :: l < j < |pairs| ==> pairs[j].0 != k;
    assert l == i;
  }
}

/** Ordering and per-key de-duplication, behind `sort_values` and `drop_duplicates`. */
module Ordering {
  import opened Seqs

  ghost predicate TotalPreorder<T(!new)>(le: (T, T) -> bool) {
    && (forall a, b :: le(a, b) || le(b, a))
    && (forall a, b, c :: le(a, b) && le(b, c) ==> le(a, c))
  }

  ghost predicate Sorted<T>(s: seq<T>, le: (T, T) -> bool) {
    forall i, j :: 0 <= i < j < |s| ==> le(s[i], s[j])
  }

  /** Puts `x` before the first element it is not after; equal elements keep their input order. */
  function Insert<T>(x: T, s: seq<T>, le: (T, T) -> bool): (r: seq<T>)
    ensures multiset(r) == multiset(s) + multiset{x}
    ensures |r| == |s| + 1
  {
    if s == [] || le(x, s[0]) then [x] + s
    else
      assert s == [s[0]] + s[1..];
      [s[0]] + Insert(x, s[1..], le)
  }

  lemma {:induction false} InsertSorted<T(!new)>(x: T, s: seq<T>, le: (T, T) -> bool)
    requires TotalPreorder(le) && Sorted(s, le)
    ensures Sorted(Insert(x, s, le), le)
  {
    if s != [] && !le(x, s[0]) {
      InsertSorted(x, s[1..], le);
      var r := Insert(x, s, le);
      assert le(s[0], x);
      forall z | z in r[1..] ensures le(s[0], z) {
        assert r[1..] == Insert(x, s[1..], le);
        assert z in multiset(Insert(x, s[1..], le));
        assert z in multiset(s[1..]) || z == x;
        if z in s[1..] {
          var k :| 0 <= k < |s[1..]| && s[1..][k] == z;
          assert s[k + 1] == z;
        }
      }
    }
  }

  /** A stable insertion sort: the result is ordered by `le` and is a permutation of `s`. */
  function SortBy<T(!new)>(s: seq<T>, le: (T, T) -> bool): (r: seq<T>)
    requires TotalPreorder(le)
    ensures Sorted(r, le)
    ensures multiset(r) == multiset(s) && |r| == |s|
  {
    if s == [] then []
    else
      InsertSorted(s[0], SortBy(s[1..], le), le);
      assert s == [s[0]] + s[1..];
      Insert(s[0], SortBy(s[1..], le), le)
  }

  /** Leaving elements out of a sorted sequence keeps it sorted. */
  lemma {:induction false} SubsequenceSorted<T>(a: seq<T>, b: seq<T>, le: (T, T) -> bool)
    requires Subsequence(a, b) && Sorted(b, le)
    ensures Sorted(a, le)
    decreases |b|
  {
    if a != [] {
      assert Sorted(b[1..], le) by {
        forall i, j | 0 <= i < j < |b[1..]| ensures le(b[1..][i], b[1..][j]) {
          assert b[1..][i] == b[i + 1] && b[1..][j] == b[j + 1];
        }
      }
      if a[0] == b[0] && Subsequence(a[1..], b[1..]) {
        SubsequenceSorted(a[1..], b[1..], le);
        forall i, j | 0 <= i < j < |a| ensures le(a[i], a[j]) {
          if i == 0 {
            assert a[j] == a[1..][j - 1];
            SubsequenceMembers(a[1..], b[1..], a[j]);
            var k :| 0 <= k < |b[1..]| && b[1..][k] == a[j];
            assert b[k + 1] == a[j];
          } else {
            assert a[i] == a[1..][i - 1] && a[j] == a[1..][j - 1];
          }
        }
      } else {
        SubsequenceSorted(a, b[1..], le);
      }
    }
  }

  /**
   * `drop_duplicates(key, keep="first")`: a row survives iff no earlier row has
   * its key (keys in `seen` count as already taken).
   */
  function KeepFirstBy<T(!new), K(==)>(s: seq<T>, key: T -> K, seen: set<K>): (r: seq<T>)
    ensures forall i, j :: 0 <= i < j < |r| ==> key(r[i]) != key(r[j])
    ensures forall y :: y in r ==> y in s && key(y) !in seen
    ensures |r| <= |s|
  {
    if s == [] then []
    else if key(s[0]) in seen then KeepFirstBy(s[1..], key, seen)
    else [s[0]] + KeepFirstBy(s[1..], key, seen + {key(s[0])})
  }

  /** Every key of the input (not already taken) keeps one row. */
  lemma {:induction false} KeepFirstCovers<T(!new), K>(s: seq<T>, key: T -> K, seen: set<K>, x: T)
    requires x in s && key(x) !in seen
    ensures exists y :: y in KeepFirstBy(s, key, seen) && key(y) == key(x)
  {
    if s[0] != x && key(s[0]) != key(x) {
      if key(s[0]) in seen {
        KeepFirstCovers(s[1..], key, seen, x);
      } else {
        KeepFirstCovers(s[1..], key, seen + {key(s[0])}, x);
      }
    } else {
      assert s[0] in KeepFirstBy(s, key, seen);
    }
  }

  /** The row kept for a key is the first row with that key. */
  lemma {:induction false} KeepFirstIsFirst<T(!new), K>(s: seq<T>, key: T -> K, seen: set<K>, y: T)
    requires y in KeepFirstBy(s, key, seen)
    ensures exists i :: 0 <= i < |s| && s[i] == y && forall j :: 0 <= j < i ==> key(s[j]) != key(y)
  {
    var r := KeepFirstBy(s, key, seen);
    if key(s[0]) in seen {
      KeepFirstIsFirst(s[1..], key, seen, y);
      var i :| 0 <= i < |s[1..]| && s[1..][i] == y && forall j :: 0 <= j < i ==> key(s[1..][j]) != key(y);
      assert s[i + 1] == y;
      assert forall j :: 1 <= j < i + 1 ==> key(s[j]) != key(y) by {
        forall j | 1 <= j < i + 1 ensures key(s[j]) != key(y) { assert s[j] == s[1..][j - 1]; }
      }
    } else if y != s[0] {
      assert y in KeepFirstBy(s[1..], key, seen + {key(s[0])});
      KeepFirstIsFirst(s[1..], key, seen + {key(s[0])}, y);
      var i :| 0 <= i < |s[1..]| && s[1..][i] == y && forall j :: 0 <= j < i ==> key(s[1..][j]) != key(y);
      assert s[i + 1] == y;
      assert forall j :: 0 <= j < i + 1 ==> key(s[j]) != key(y) by {
        forall j | 0 <= j < i + 1 ensures key(s[j]) != key(y) {
          if j > 0 { assert s[j] == s[1..][j - 1]; }
        }
      }
    } else {
      assert s[0] == y;
    }
  }

  /** The kept rows are in their input order. */
  lemma {:induction false} KeepFirstIsSubsequence<T(!new), K>(s: seq<T>, key: T -> K, seen: set<K>)
    ensures Subsequence(KeepFirstBy(s, key, seen), s)
  {
    if s != [] {
      if key(s[0]) in seen {
        KeepFirstIsSubsequence(s[1..], key, seen);
        SubsequenceCons(KeepFirstBy(s[1..], key, seen), s[1..], s[0]);
      } else {
        KeepFirstIsSubsequence(s[1..], key, seen + {key(s[0])});
        SubsequenceCons(KeepFirstBy(s[1..], key, seen + {key(s[0])}), s[1..], s[0]);
      }
      assert s == [s[0]] + s[1..];
    }
  }

  /** Leaving rows out keeps keys that were distinct distinct. */
  lemma {:induction false} SubsequenceDistinctKeys<T, K>(a: seq<T>, b: seq<T>, key: T -> K)
    requires Subsequence(a, b) && forall i, j :: 0 <= i < j < |b| ==> key(b[i]) != key(b[j])
    ensures forall i, j :: 0 <= i < j < |a| ==> key(a[i]) != key(a[j])
    decreases |b|
  {
    if a != [] {
      assert forall i, j :: 0 <= i < j < |b[1..]| ==> key(b[1..][i]) != key(b[1..][j]) by {
        forall i, j | 0 <= i < j < |b[1..]| ensures key(b[1..][i]) != key(b[1..][j]) {
          assert b[1..][i] == b[i + 1] && b[1..][j] == b[j + 1];
        }
      }
      if a[0] == b[0] && Subsequence(a[1..], b[1..]) {
        SubsequenceDistinctKeys(a[1..], b[1..], key);
        forall i, j | 0 <= i < j < |a| ensures key(a[i]) != key(a[j]) {
          if i == 0 {
            assert a[j] == a[1..][j - 1];
            SubsequenceMembers(a[1..], b[1..], a[j]);
            var k :| 0 <= k < |b[1..]| && b[1..][k] == a[j];
            assert b[k + 1] == a[j];
          } else {
            assert a[i] == a[1..][i - 1] && a[j] == a[1..][j - 1];
          }
        }
      } else {
        SubsequenceDistinctKeys(a, b[1..], key);
      }
    }
  }

  /**
   * `sort_values(...).drop_duplicates(key, keep="first")`: the row kept for a
   * key is a least row of that key.
   */
  lemma {:induction false} KeepFirstOfSortedIsLeast<T(!new), K>(s: seq<T>, le: (T, T) -> bool, key: T -> K, x: T, z: T)
    requires TotalPreorder(le) && Sorted(s, le)
    requires x in KeepFirstBy(s, key, {}) && z in s && key(z) == key(x)
    ensures le(x, z)
  {
    KeepFirstIsFirst(s, key, {}, x);
    var i :| 0 <= i < |s| && s[i] == x && forall j :: 0 <= j < i ==> key(s[j]) != key(x);
    var j :| 0 <= j < |s| && s[j] == z;
    if j == i {
      assert le(x, x) || le(x, x);
    } else {
      assert i < j;
    }
  }
}
