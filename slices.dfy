/** The sequence operations the launcher uses from Go's `slices` package
    (`slices.Sort`, `slices.SortFunc`) and its own "seen-map plus append"
    de-duplication idiom, stated once for any element type. */
module Slices {

  /** `a` can be obtained from `b` by deleting elements (order kept). */
  predicate IsSubsequence<T(==)>(a: seq<T>, b: seq<T>)
    decreases |b|
  {
    a == [] || (b != [] && ((a[0] == b[0] && IsSubsequence(a[1..], b[1..])) || IsSubsequence(a, b[1..])))
  }

  /** Dropping the first element of a subsequence leaves a subsequence. */
  lemma {:induction false} SubsequenceDropFirst<T>(a: seq<T>, b: seq<T>)
    requires a != [] && IsSubsequence(a, b)
    ensures IsSubsequence(a[1..], b)
    decreases |b|
  {
    if a[1..] != [] {
      if a[0] == b[0] && IsSubsequence(a[1..], b[1..]) {
        SubsequenceSkip(a[1..], b);
      } else {
        SubsequenceDropFirst(a, b[1..]);
        SubsequenceSkip(a[1..], b);
      }
    }
  }

  /** A subsequence of the tail is a subsequence of the whole. */
  lemma SubsequenceSkip<T>(a: seq<T>, b: seq<T>)
    requires b != [] && IsSubsequence(a, b[1..])
    ensures IsSubsequence(a, b)
  {
  }

  // ---------------- De-duplication by key ----------------

  /** The seen-map loop: keeps each element whose key is not yet in `seen`,
      in input order, adding its key to `seen`. */
  function DedupBy<T, K>(s: seq<T>, key: T -> K, seen: set<K>): (r: seq<T>)
    decreases |s|
  {
    if s == [] then []
    else if key(s[0]) in seen then DedupBy(s[1..], key, seen)
    else [s[0]] + DedupBy(s[1..], key, seen + {key(s[0])})
  }

  /** No two elements of `r` share a key. */
  predicate KeysDistinct<T, K(==)>(r: seq<T>, key: T -> K) {
    forall i, j :: 0 <= i < j < |r| ==> key(r[i]) != key(r[j])
  }

  /** The keys of what DedupBy keeps are pairwise distinct and not in `seen`. */
  lemma {:induction false} DedupByDistinct<T, K>(s: seq<T>, key: T -> K, seen: set<K>)
    ensures forall i :: 0 <= i < |DedupBy(s, key, seen)| ==> key(DedupBy(s, key, seen)[i]) !in seen
    ensures KeysDistinct(DedupBy(s, key, seen), key)
    decreases |s|
  {
    if s != [] {
      if key(s[0]) in seen {
        DedupByDistinct(s[1..], key, seen);
      } else {
        var seen' := seen + {key(s[0])};
        var rest := DedupBy(s[1..], key, seen');
        DedupByDistinct(s[1..], key, seen');
        var r := [s[0]] + rest;
        assert DedupBy(s, key, seen) == r;
        forall i, j | 0 <= i < j < |r| ensures key(r[i]) != key(r[j]) {
          assert r[j] == rest[j - 1];
          if i > 0 {
            assert r[i] == rest[i - 1];
          }
        }
        forall i | 0 <= i < |r| ensures key(r[i]) !in seen {
          if i > 0 {
            assert r[i] == rest[i - 1];
          }
        }
      }
    }
  }

  /** Every key of `s` outside `seen` is the key of some element of `r`. */
  ghost predicate CoversKeys<T, K>(r: seq<T>, s: seq<T>, key: T -> K, seen: set<K>) {
    forall i :: 0 <= i < |s| && key(s[i]) !in seen ==> exists j :: 0 <= j < |r| && key(r[j]) == key(s[i])
  }

  /** Every key of the input that is not seen yet survives. */
  lemma {:induction false} DedupByKeepsKeys<T, K>(s: seq<T>, key: T -> K, seen: set<K>)
    ensures CoversKeys(DedupBy(s, key, seen), s, key, seen)
    decreases |s|
  {
    if s != [] {
      var r := DedupBy(s, key, seen);
      if key(s[0]) in seen {
        DedupByKeepsKeys(s[1..], key, seen);
        forall i | 0 <= i < |s| && key(s[i]) !in seen
          ensures exists j :: 0 <= j < |r| && key(r[j]) == key(s[i])
        {
          assert s[i] == s[1..][i - 1];
        }
      } else {
        var seen' := seen + {key(s[0])};
        var rest := DedupBy(s[1..], key, seen');
        assert r == [s[0]] + rest;
        DedupByKeepsKeys(s[1..], key, seen');
        forall i | 0 <= i < |s| && key(s[i]) !in seen
          ensures exists j :: 0 <= j < |r| && key(r[j]) == key(s[i])
        {
          if key(s[i]) == key(s[0]) {
            assert key(r[0]) == key(s[i]);
          } else {
            assert s[i] == s[1..][i - 1];
            var j :| 0 <= j < |rest| && key(rest[j]) == key(s[i]);
            assert r[j + 1] == rest[j];
          }
        }
      }
    }
  }

  /** DedupBy keeps elements in their input order. */
  lemma {:induction false} DedupBySubsequence<T, K>(s: seq<T>, key: T -> K, seen: set<K>)
    ensures IsSubsequence(DedupBy(s, key, seen), s)
    decreases |s|
  {
    if s != [] {
      if key(s[0]) in seen {
        DedupBySubsequence(s[1..], key, seen);
        var r := DedupBy(s, key, seen);
        if r != [] {
          SubsequenceSkip(r, s);
        }
      } else {
        DedupBySubsequence(s[1..], key, seen + {key(s[0])});
      }
    }
  }

  /** The position of the first element of `s` whose key is `k` (|s| if none). */
  function FirstKeyIndex<T, K(==)>(s: seq<T>, key: T -> K, k: K): (i: nat)
    ensures i <= |s|
    ensures forall j :: 0 <= j < i ==> key(s[j]) != k
    ensures i < |s| ==> key(s[i]) == k
    decreases |s|
  {
    if s == [] then 0 else if key(s[0]) == k then 0 else 1 + FirstKeyIndex(s[1..], key, k)
  }

  /** Every element DedupBy keeps is the first element of the input with its
      key. */
  lemma {:induction false} DedupByFirstWins<T, K>(s: seq<T>, key: T -> K, seen: set<K>)
    ensures forall j :: 0 <= j < |DedupBy(s, key, seen)| ==>
      var i := FirstKeyIndex(s, key, key(DedupBy(s, key, seen)[j])); i < |s| && s[i] == DedupBy(s, key, seen)[j]
    decreases |s|
  {
    if s != [] {
      var r := DedupBy(s, key, seen);
      if key(s[0]) in seen {
        DedupByFirstWins(s[1..], key, seen);
        DedupByDistinct(s[1..], key, seen);
        forall j | 0 <= j < |r|
          ensures var i := FirstKeyIndex(s, key, key(r[j])); i < |s| && s[i] == r[j]
        {
          assert key(r[j]) != key(s[0]);
        }
      } else {
        var seen' := seen + {key(s[0])};
        var rest := DedupBy(s[1..], key, seen');
        assert r == [s[0]] + rest;
        DedupByFirstWins(s[1..], key, seen');
        DedupByDistinct(s[1..], key, seen');
        forall j | 0 <= j < |r|
          ensures var i := FirstKeyIndex(s, key, key(r[j])); i < |s| && s[i] == r[j]
        {
          if j > 0 {
            assert r[j] == rest[j - 1];
            assert key(rest[j - 1]) != key(s[0]);
          }
        }
      }
    }
  }

  /** DedupBy only keeps input elements. */
  lemma {:induction false} DedupByElements<T, K>(s: seq<T>, key: T -> K, seen: set<K>)
    ensures multiset(DedupBy(s, key, seen)) <= multiset(s)
    decreases |s|
  {
    if s != [] {
      assert s == [s[0]] + s[1..];
      if key(s[0]) in seen {
        DedupByElements(s[1..], key, seen);
      } else {
        DedupByElements(s[1..], key, seen + {key(s[0])});
      }
    }
  }

  // ---------------- Sorting by a total preorder ----------------

  /** `le` is total and transitive: a comparator slices.SortFunc can use. */
  ghost predicate TotalPreorder<T(!new)>(le: (T, T) -> bool) {
    (forall a, b :: le(a, b) || le(b, a))
    && (forall a, b, c :: le(a, b) && le(b, c) ==> le(a, c))
  }

  predicate SortedBy<T>(s: seq<T>, le: (T, T) -> bool) {
    forall i, j :: 0 <= i < j < |s| ==> le(s[i], s[j])
  }

  /** Cutting a sorted sequence to its first `n` elements drops only
      elements that every kept one may precede. */
  lemma SortedCut<T>(s: seq<T>, n: nat, le: (T, T) -> bool)
    requires SortedBy(s, le) && n <= |s|
    ensures multiset(s[..n]) <= multiset(s)
    ensures forall v, w :: v in multiset(s) - multiset(s[..n]) && w in s[..n] ==> le(w, v)
  {
    assert s == s[..n] + s[n..];
    assert multiset(s) == multiset(s[..n]) + multiset(s[n..]);
    forall v, w | v in multiset(s) - multiset(s[..n]) && w in s[..n] ensures le(w, v) {
      assert v in multiset(s[n..]);
      var j :| 0 <= j < n && s[..n][j] == w;
      var k :| 0 <= k < |s| - n && s[n..][k] == v;
      assert s[j] == w && s[n + k] == v;
    }
  }

  /** Inserts `x` before the first element it may precede. */
  function InsertBy<T>(x: T, s: seq<T>, le: (T, T) -> bool): (r: seq<T>)
    ensures multiset(r) == multiset(s) + multiset{x}
    decreases |s|
  {
    if s == [] || le(x, s[0]) then [x] + s
    else
      assert s == [s[0]] + s[1..];
      [s[0]] + InsertBy(x, s[1..], le)
  }

  /** The sort that slices.Sort / slices.SortFunc perform: the result is a
      permutation of the input (and sorted, by SortByIsSorted). */
  function SortBy<T>(s: seq<T>, le: (T, T) -> bool): (r: seq<T>)
    ensures multiset(r) == multiset(s)
    decreases |s|
  {
    if s == [] then []
    else
      assert s == [s[0]] + s[1..];
      InsertBy(s[0], SortBy(s[1..], le), le)
  }

  lemma {:induction false} InsertByIsSorted<T(!new)>(x: T, s: seq<T>, le: (T, T) -> bool)
    requires TotalPreorder(le) && SortedBy(s, le)
    ensures SortedBy(InsertBy(x, s, le), le)
    decreases |s|
  {
    if s != [] && !le(x, s[0]) {
      var tail := InsertBy(x, s[1..], le);
      InsertByIsSorted(x, s[1..], le);
      var r := [s[0]] + tail;
      assert le(s[0], x);
      forall j | 0 <= j < |tail| ensures le(s[0], tail[j]) {
        assert tail[j] in multiset(tail);
        assert tail[j] == x || tail[j] in multiset(s[1..]);
        if tail[j] != x {
          var k :| 0 <= k < |s[1..]| && s[1..][k] == tail[j];
          assert le(s[0], s[k + 1]);
        }
      }
      assert SortedBy(r, le) by {
        forall i, j | 0 <= i < j < |r| ensures le(r[i], r[j]) {
          if i == 0 {
            assert r[j] == tail[j - 1];
          } else {
            assert r[i] == tail[i - 1] && r[j] == tail[j - 1];
          }
        }
      }
    } else if s != [] {
      var r := [x] + s;
      forall i, j | 0 <= i < j < |r| ensures le(r[i], r[j]) {
        if i == 0 && j > 1 {
          assert le(s[0], s[j - 1]);
        }
      }
    }
  }

  lemma {:induction false} SortByIsSorted<T(!new)>(s: seq<T>, le: (T, T) -> bool)
    requires TotalPreorder(le)
    ensures SortedBy(SortBy(s, le), le)
    decreases |s|
  {
    if s != [] {
      SortByIsSorted(s[1..], le);
      InsertByIsSorted(s[0], SortBy(s[1..], le), le);
    }
  }

  // ---------------- Distinct elements ----------------

  predicate Distinct<T(==)>(s: seq<T>) {
    forall i, j :: 0 <= i < j < |s| ==> s[i] != s[j]
  }

  /** Without repeats, every element occurs once. */
  lemma {:induction false} DistinctOnce<T>(s: seq<T>)
    requires Distinct(s)
    ensures forall x :: multiset(s)[x] <= 1
    decreases |s|
  {
    if s != [] {
      DistinctOnce(s[1..]);
      assert s == [s[0]] + s[1..];
      assert s[0] !in s[1..];
    }
  }

  /** A permutation of a sequence without repeats has none. */
  lemma DistinctPermutation<T>(s: seq<T>, t: seq<T>)
    requires Distinct(s) && multiset(s) == multiset(t)
    ensures Distinct(t)
  {
    DistinctOnce(s);
    forall i, j | 0 <= i < j < |t| ensures t[i] != t[j] {
      assert t == t[..j] + [t[j]] + t[j + 1..];
      assert t[..j][i] == t[i];
      assert multiset(t)[t[j]] >= multiset(t[..j])[t[j]] + 1;
      assert multiset(t[..j])[t[i]] >= 1;
    }
  }
}
