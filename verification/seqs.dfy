/** Generic facts about finite sequences that the pandas operations of the
    pipeline reduce to: boolean-mask filtering, order-preserving
    subsequences, duplicate removal keeping first occurrences, sums and
    grouped sums, and the distinct keys of a column in ascending order. */
module Seqs {

  /* ---------------------------------------------------------------------- */
  /* Subsequences                                                            */
  /* ---------------------------------------------------------------------- */

  /** `a` can be obtained from `b` by deleting elements, without reordering:
      either the last element of `b` supplies the last element of `a`, or it
      is one of the deleted elements. */
  ghost predicate IsSubsequence<T>(a: seq<T>, b: seq<T>)
    decreases |b|
  {
    if |a| == 0 then true
    else if |b| == 0 then false
    else
      (a[|a| - 1] == b[|b| - 1] && IsSubsequence(a[..|a| - 1], b[..|b| - 1]))
      || IsSubsequence(a, b[..|b| - 1])
  }

  /** Appending an element to the longer sequence only: it is deleted. */
  lemma SubsequenceSkip<T>(a: seq<T>, b: seq<T>, x: T)
    requires IsSubsequence(a, b)
    ensures IsSubsequence(a, b + [x])
  {
    assert (b + [x])[..|b|] == b;
  }

  /** Appending the same element to both sides: it is kept. */
  lemma SubsequenceKeep<T>(a: seq<T>, b: seq<T>, x: T)
    requires IsSubsequence(a, b)
    ensures IsSubsequence(a + [x], b + [x])
  {
    assert (b + [x])[..|b|] == b;
    assert (a + [x])[..|a|] == a;
  }

  /** A subsequence is no longer than the sequence and holds only its elements. */
  lemma {:induction false} SubsequenceMembers<T>(a: seq<T>, b: seq<T>)
    requires IsSubsequence(a, b)
    ensures |a| <= |b|
    ensures forall x :: x in a ==> x in b
    decreases |b|
  {
    if |a| > 0 {
      var a', b' := a[..|a| - 1], b[..|b| - 1];
      if a[|a| - 1] == b[|b| - 1] && IsSubsequence(a', b') {
        SubsequenceMembers(a', b');
        assert a == a' + [a[|a| - 1]] && b == b' + [b[|b| - 1]];
      } else {
        SubsequenceMembers(a, b');
        assert b == b' + [b[|b| - 1]];
      }
    }
  }

  lemma {:induction false} SubsequenceTrans<T>(a: seq<T>, b: seq<T>, c: seq<T>)
    requires IsSubsequence(a, b) && IsSubsequence(b, c)
    ensures IsSubsequence(a, c)
    decreases |c|
  {
    if |a| == 0 {
    } else if |b| == 0 {
    } else {
      assert |c| > 0;
      var c' := c[..|c| - 1];
      if b[|b| - 1] == c[|c| - 1] && IsSubsequence(b[..|b| - 1], c') {
        if a[|a| - 1] == b[|b| - 1] && IsSubsequence(a[..|a| - 1], b[..|b| - 1]) {
          SubsequenceTrans(a[..|a| - 1], b[..|b| - 1], c');
        } else {
          SubsequenceTrans(a, b[..|b| - 1], c');
        }
      } else {
        SubsequenceTrans(a, b, c');
      }
    }
  }

  /* ---------------------------------------------------------------------- */
  /* Boolean-mask filtering: df[mask]                                        */
  /* ---------------------------------------------------------------------- */

  /** Keeps, in their original order, the elements of `s` that satisfy `keep`. */
  function Filter<T>(s: seq<T>, keep: T -> bool): (r: seq<T>)
    ensures |r| <= |s|
    ensures forall i :: 0 <= i < |r| ==> keep(r[i])
    decreases |s|
  {
    if |s| == 0 then []
    else
      var init, last := s[..|s| - 1], s[|s| - 1];
      assert s == init + [last];
      var r0 := Filter(init, keep);
      if keep(last) then r0 + [last] else r0
  }

  /** A filter deletes elements without reordering the survivors. */
  lemma {:induction false} FilterIsSubsequence<T>(s: seq<T>, keep: T -> bool)
    ensures IsSubsequence(Filter(s, keep), s)
    decreases |s|
  {
    if |s| > 0 {
      var init, last := s[..|s| - 1], s[|s| - 1];
      FilterIsSubsequence(init, keep);
      assert s == init + [last];
      if keep(last) {
        SubsequenceKeep(Filter(init, keep), init, last);
      } else {
        SubsequenceSkip(Filter(init, keep), init, last);
      }
    }
  }

  /** Number of elements of `s` that satisfy `p`. */
  function Count<T>(s: seq<T>, p: T -> bool): (n: nat)
    ensures n <= |s|
    decreases |s|
  {
    if |s| == 0 then 0
    else Count(s[..|s| - 1], p) + (if p(s[|s| - 1]) then 1 else 0)
  }

  /** Every element passes exactly when all of them are counted, and none
      passes exactly when none is counted. */
  lemma {:induction false} CountExtremes<T>(s: seq<T>, p: T -> bool)
    ensures Count(s, p) == |s| <==> forall i :: 0 <= i < |s| ==> p(s[i])
    ensures Count(s, p) == 0 <==> forall i :: 0 <= i < |s| ==> !p(s[i])
    decreases |s|
  {
    if |s| > 0 {
      var init := s[..|s| - 1];
      CountExtremes(init, p);
      assert forall i :: 0 <= i < |init| ==> init[i] == s[i];
    }
  }

  /** Of two equally long columns, the one whose every position passes
      whenever the other's does has at least as many passing elements. */
  lemma {:induction false} CountPointwise<T, U>(s: seq<T>, p: T -> bool, t: seq<U>, q: U -> bool)
    requires |s| == |t|
    requires forall i :: 0 <= i < |s| && p(s[i]) ==> q(t[i])
    ensures Count(s, p) <= Count(t, q)
    decreases |s|
  {
    if |s| > 0 {
      var n := |s| - 1;
      assert forall i :: 0 <= i < n ==> s[..n][i] == s[i] && t[..n][i] == t[i];
      CountPointwise(s[..n], p, t[..n], q);
    }
  }

  /** The negation of a row predicate, as a value. */
  function Not<T>(p: T -> bool): T -> bool
  {
    x => !p(x)
  }

  /** A filter keeps exactly the elements satisfying its mask and drops the rest:
      the kept and the dropped elements add up to the input. */
  lemma {:induction false} FilterCount<T>(s: seq<T>, keep: T -> bool)
    ensures |Filter(s, keep)| == Count(s, keep)
    ensures |s| - |Filter(s, keep)| == Count(s, Not(keep))
    decreases |s|
  {
    if |s| > 0 {
      FilterCount(s[..|s| - 1], keep);
    }
  }

  /** An element survives a filter exactly when it occurs in the input and
      passes the mask. */
  lemma {:induction false} FilterMembers<T>(s: seq<T>, keep: T -> bool)
    ensures forall x :: x in Filter(s, keep) <==> x in s && keep(x)
    decreases |s|
  {
    if |s| > 0 {
      var init, last := s[..|s| - 1], s[|s| - 1];
      FilterMembers(init, keep);
      assert s == init + [last];
    }
  }

  /** A filter whose mask holds everywhere is the identity. */
  lemma {:induction false} FilterAllKept<T>(s: seq<T>, keep: T -> bool)
    requires forall i :: 0 <= i < |s| ==> keep(s[i])
    ensures Filter(s, keep) == s
    decreases |s|
  {
    if |s| > 0 {
      var init := s[..|s| - 1];
      FilterAllKept(init, keep);
      assert s == init + [s[|s| - 1]];
    }
  }

  /** Two masks that agree on every element select the same elements. */
  lemma {:induction false} FilterExt<T>(s: seq<T>, p: T -> bool, q: T -> bool)
    requires forall i :: 0 <= i < |s| ==> p(s[i]) == q(s[i])
    ensures Filter(s, p) == Filter(s, q)
    decreases |s|
  {
    if |s| > 0 {
      FilterExt(s[..|s| - 1], p, q);
    }
  }

  /** The conjunction of two masks, `p & q`. */
  function And<T>(p: T -> bool, q: T -> bool): T -> bool
  {
    x => p(x) && q(x)
  }

  /** Filtering by `p` and then by `q` is filtering once by `p & q`. */
  lemma {:induction false} FilterCompose<T>(s: seq<T>, p: T -> bool, q: T -> bool)
    ensures Filter(Filter(s, p), q) == Filter(s, And(p, q))
    decreases |s|
  {
    if |s| > 0 {
      var init, last := s[..|s| - 1], s[|s| - 1];
      FilterCompose(init, p, q);
      assert s == init + [last];
      FilterSnoc(Filter(init, p), last, q);
    }
  }

  /** Two filters in a row keep exactly the elements passing both masks,
      without reordering them. */
  lemma FilterTwice<T>(s: seq<T>, p: T -> bool, q: T -> bool)
    ensures forall x :: x in Filter(Filter(s, p), q) <==> x in s && p(x) && q(x)
    ensures IsSubsequence(Filter(Filter(s, p), q), s)
  {
    FilterCompose(s, p, q);
    FilterMembers(s, And(p, q));
    FilterIsSubsequence(s, And(p, q));
  }

  /** Filtering a sequence extended by one element. */
  lemma FilterSnoc<T>(s: seq<T>, x: T, keep: T -> bool)
    ensures Filter(s + [x], keep) == Filter(s, keep) + (if keep(x) then [x] else [])
  {
    assert (s + [x])[..|s|] == s;
  }

  /** Filtering distributes over concatenation. */
  lemma {:induction false} FilterAppend<T>(a: seq<T>, b: seq<T>, keep: T -> bool)
    ensures Filter(a + b, keep) == Filter(a, keep) + Filter(b, keep)
    decreases |b|
  {
    if |b| == 0 {
      assert a + b == a;
    } else {
      var b', last := b[..|b| - 1], b[|b| - 1];
      FilterAppend(a, b', keep);
      assert a + b == (a + b') + [last];
      assert b == b' + [last];
      FilterSnoc(a + b', last, keep);
      FilterSnoc(b', last, keep);
    }
  }

  /** A subsequence whose elements all satisfy `keep` and that is as long as
      the number of elements satisfying `keep` is the filter itself: the
      contract of a masking stage determines its output. */
  lemma {:induction false} FilterUnique<T>(r: seq<T>, s: seq<T>, keep: T -> bool)
    requires IsSubsequence(r, s)
    requires forall i :: 0 <= i < |r| ==> keep(r[i])
    requires |r| == Count(s, keep)
    ensures r == Filter(s, keep)
    decreases |s|
  {
    if |s| > 0 {
      var s', last := s[..|s| - 1], s[|s| - 1];
      assert s == s' + [last];
      if |r| > 0 && r[|r| - 1] == last && IsSubsequence(r[..|r| - 1], s') {
        var r' := r[..|r| - 1];
        assert keep(r[|r| - 1]);
        assert forall i :: 0 <= i < |r'| ==> keep(r'[i]) by {
          forall i | 0 <= i < |r'|
            ensures keep(r'[i])
          {
            assert r'[i] == r[i];
          }
        }
        FilterUnique(r', s', keep);
        assert r == r' + [last];
      } else {
        assert IsSubsequence(r, s');
        if keep(last) {
          // r fits inside s' yet needs Count(s', keep) + 1 elements that pass
          SubsequenceCount(r, s', keep);
          assert false;
        }
        FilterUnique(r, s', keep);
      }
    }
  }

  /** A subsequence all of whose elements pass `keep` has at most as many
      elements as pass `keep` in the sequence. */
  lemma {:induction false} SubsequenceCount<T>(r: seq<T>, s: seq<T>, keep: T -> bool)
    requires IsSubsequence(r, s)
    requires forall i :: 0 <= i < |r| ==> keep(r[i])
    ensures |r| <= Count(s, keep)
    decreases |s|
  {
    if |r| > 0 {
      var s' := s[..|s| - 1];
      if r[|r| - 1] == s[|s| - 1] && IsSubsequence(r[..|r| - 1], s') {
        SubsequenceCount(r[..|r| - 1], s', keep);
      } else {
        SubsequenceCount(r, s', keep);
      }
    }
  }

  /* ---------------------------------------------------------------------- */
  /* Distinct elements: drop_duplicates / nunique                            */
  /* ---------------------------------------------------------------------- */

  ghost predicate NoDuplicates<T>(s: seq<T>)
  {
    forall i, j :: 0 <= i < j < |s| ==> s[i] != s[j]
  }

  /** The set of values a column takes. */
  ghost function Elements<T>(s: seq<T>): set<T>
  {
    set x | x in s
  }

  lemma ElementsSnoc<T>(s: seq<T>, x: T)
    ensures Elements(s + [x]) == Elements(s) + {x}
  {
    assert forall y :: y in s + [x] <==> y in s || y == x;
  }

  /** The values of `r` appear in `r` in the order in which they first
      appear in `s`. */
  ghost predicate InFirstOccurrenceOrder<T>(r: seq<T>, s: seq<T>)
  {
    forall i, j :: 0 <= i < j < |r| ==>
      r[i] in s && r[j] in s && FirstIndex(s, r[i]) < FirstIndex(s, r[j])
  }

  /** Position of the first occurrence of `x` in `s`. */
  function FirstIndex<T(==)>(s: seq<T>, x: T): (i: nat)
    requires x in s
    ensures i < |s| && s[i] == x
    ensures x !in s[..i]
  {
    if s[0] == x then 0
    else
      var j := FirstIndex(s[1..], x);
      assert s[..j + 1] == [s[0]] + s[1..][..j];
      j + 1
  }

  lemma {:induction false} FirstIndexPrefix<T>(s: seq<T>, t: seq<T>, x: T)
    requires x in s
    ensures FirstIndex(s + t, x) == FirstIndex(s, x)
    decreases |s|
  {
    if s[0] != x {
      assert (s + t)[1..] == s[1..] + t;
      FirstIndexPrefix(s[1..], t, x);
    }
  }

  /** Keeps the first occurrence of every value and drops later repeats. */
  function Dedup<T(==)>(s: seq<T>): (r: seq<T>)
    ensures |r| <= |s|
    decreases |s|
  {
    if |s| == 0 then []
    else
      var init, last := s[..|s| - 1], s[|s| - 1];
      var r0 := Dedup(init);
      if last in init then r0 else r0 + [last]
  }

  /** `Dedup` leaves every value exactly once, loses none, and keeps them in
      the order of their first occurrences. */
  lemma {:induction false} DedupSpec<T>(s: seq<T>)
    ensures NoDuplicates(Dedup(s))
    ensures Elements(Dedup(s)) == Elements(s)
    ensures InFirstOccurrenceOrder(Dedup(s), s)
    decreases |s|
  {
    if |s| > 0 {
      var init, last := s[..|s| - 1], s[|s| - 1];
      DedupSpec(init);
      DedupStep(init, last, Dedup(init));
      assert s == init + [last];
    }
  }

  /** One step of `Dedup`: a repeat of an earlier value is dropped, a new
      value is kept at the end, and every contract conjunct carries over. */
  lemma DedupStep<T>(init: seq<T>, last: T, r0: seq<T>)
    requires NoDuplicates(r0)
    requires Elements(r0) == Elements(init)
    requires InFirstOccurrenceOrder(r0, init)
    ensures var s, r := init + [last], if last in init then r0 else r0 + [last];
      && NoDuplicates(r)
      && Elements(r) == Elements(s)
      && InFirstOccurrenceOrder(r, s)
  {
    var s := init + [last];
    forall x | x in init
      ensures FirstIndex(s, x) == FirstIndex(init, x)
    {
      FirstIndexPrefix(init, [last], x);
    }
    ElementsSnoc(init, last);
    if last !in init {
      var r := r0 + [last];
      ElementsSnoc(r0, last);
      assert FirstIndex(s, last) == |init|;
      forall i, j | 0 <= i < j < |r|
        ensures r[i] in s && r[j] in s && FirstIndex(s, r[i]) < FirstIndex(s, r[j])
      {
        assert r0[i] in Elements(init);
        if j == |r0| {
          assert r[i] in init;
        } else {
          assert r[i] == r0[i] && r[j] == r0[j];
        }
      }
    }
  }

  /** Duplicate removal deletes repeats without reordering what is kept. */
  lemma {:induction false} DedupIsSubsequence<T>(s: seq<T>)
    ensures IsSubsequence(Dedup(s), s)
    decreases |s|
  {
    if |s| > 0 {
      var init, last := s[..|s| - 1], s[|s| - 1];
      DedupIsSubsequence(init);
      assert s == init + [last];
      if last in init {
        SubsequenceSkip(Dedup(init), init, last);
      } else {
        SubsequenceKeep(Dedup(init), init, last);
      }
    }
  }

  /** Removing duplicates from a duplicate-free sequence changes nothing. */
  lemma {:induction false} DedupNoDuplicates<T>(s: seq<T>)
    requires NoDuplicates(s)
    ensures Dedup(s) == s
    decreases |s|
  {
    if |s| > 0 {
      var init, last := s[..|s| - 1], s[|s| - 1];
      assert forall k :: 0 <= k < |init| ==> init[k] == s[k];
      DedupNoDuplicates(init);
      assert last !in init by {
        forall k | 0 <= k < |init|
          ensures init[k] != last
        {
          assert init[k] == s[k];
        }
      }
    }
  }

  /** A sequence without repeats has as many elements as it has distinct values. */
  lemma {:induction false} NoDuplicatesCard<T>(s: seq<T>)
    requires NoDuplicates(s)
    ensures |Elements(s)| == |s|
    decreases |s|
  {
    if |s| > 0 {
      var init := s[..|s| - 1];
      NoDuplicatesCard(init);
      assert Elements(s) == Elements(init) + {s[|s| - 1]};
      assert s[|s| - 1] !in Elements(init);
    }
  }

  /** The number of values `Dedup` keeps is the number of distinct values. */
  lemma DedupCard<T>(s: seq<T>)
    ensures |Dedup(s)| == |Elements(s)|
  {
    DedupSpec(s);
    NoDuplicatesCard(Dedup(s));
  }

  /** A non-empty column has at least one distinct value. */
  lemma DedupNonEmpty<T>(s: seq<T>)
    requires |s| > 0
    ensures |Dedup(s)| > 0
  {
    DedupCard(s);
    assert s[0] in Elements(s);
  }

  /* ---------------------------------------------------------------------- */
  /* Sums and grouped sums: Series.sum(), groupby(key)[col].sum()            */
  /* ---------------------------------------------------------------------- */

  function Sum<T>(s: seq<T>, v: T -> real): real
    decreases |s|
  {
    if |s| == 0 then 0.0 else Sum(s[..|s| - 1], v) + v(s[|s| - 1])
  }

  lemma {:induction false} SumAppend<T>(a: seq<T>, b: seq<T>, v: T -> real)
    ensures Sum(a + b, v) == Sum(a, v) + Sum(b, v)
    decreases |b|
  {
    if |b| == 0 {
      assert a + b == a;
    } else {
      var b' := b[..|b| - 1];
      SumAppend(a, b', v);
      assert (a + b)[..|a + b| - 1] == a + b';
    }
  }

  /** The mask selecting the elements whose `key` is `k`. */
  function KeyIs<T, K(==)>(key: T -> K, k: K): T -> bool
  {
    x => key(x) == k
  }

  /** Sum over the listed keys of the per-key sums of `v`: the column total of
      `groupby(key)[v].sum()` restricted to those keys. */
  function GroupSum<T, K(==)>(s: seq<T>, key: T -> K, keys: seq<K>, v: T -> real): real
    decreases |keys|
  {
    if |keys| == 0 then 0.0
    else GroupSum(s, key, keys[..|keys| - 1], v) + Sum(Filter(s, KeyIs(key, keys[|keys| - 1])), v)
  }

  /** One more element adds its value to the grouped total exactly once when
      its key is listed (the keys being distinct), and not at all otherwise. */
  lemma {:induction false} GroupSumSnoc<T, K>(s: seq<T>, x: T, key: T -> K, keys: seq<K>, v: T -> real)
    requires NoDuplicates(keys)
    ensures GroupSum(s + [x], key, keys, v)
         == GroupSum(s, key, keys, v) + (if key(x) in keys then v(x) else 0.0)
    decreases |keys|
  {
    if |keys| > 0 {
      var ks, k := keys[..|keys| - 1], keys[|keys| - 1];
      assert keys == ks + [k];
      GroupSumSnoc(s, x, key, ks, v);
      FilterAppend(s, [x], KeyIs(key, k));
      SumAppend(Filter(s, KeyIs(key, k)), Filter([x], KeyIs(key, k)), v);
      assert [x][..0] == [];
      assert k !in ks;
    }
  }

  /** Partitioning by a key and adding up the per-key sums gives the total,
      as long as every element's key is listed exactly once. */
  lemma {:induction false} GroupSumTotal<T, K>(s: seq<T>, key: T -> K, keys: seq<K>, v: T -> real)
    requires NoDuplicates(keys)
    requires forall i :: 0 <= i < |s| ==> key(s[i]) in keys
    ensures GroupSum(s, key, keys, v) == Sum(s, v)
    decreases |s|
  {
    if |s| == 0 {
      GroupSumEmpty(s, key, keys, v);
    } else {
      var init, last := s[..|s| - 1], s[|s| - 1];
      GroupSumTotal(init, key, keys, v);
      GroupSumSnoc(init, last, key, keys, v);
      assert s == init + [last];
    }
  }

  lemma {:induction false} GroupSumEmpty<T, K>(s: seq<T>, key: T -> K, keys: seq<K>, v: T -> real)
    requires |s| == 0
    ensures GroupSum(s, key, keys, v) == 0.0
    decreases |keys|
  {
    if |keys| > 0 {
      GroupSumEmpty(s, key, keys[..|keys| - 1], v);
    }
  }

  /* ---------------------------------------------------------------------- */
  /* Extremes and group keys                                                 */
  /* ---------------------------------------------------------------------- */

  /** Largest element of a non-empty integer column (Series.max()). */
  function Max(s: seq<int>): (m: int)
    requires |s| > 0
    ensures m in s
    ensures forall i :: 0 <= i < |s| ==> s[i] <= m
    decreases |s|
  {
    if |s| == 1 then s[0]
    else
      var m0 := Max(s[..|s| - 1]);
      assert forall i :: 0 <= i < |s| - 1 ==> s[..|s| - 1][i] == s[i];
      if s[|s| - 1] > m0 then s[|s| - 1] else m0
  }

  predicate StrictlyIncreasing(s: seq<int>)
  {
    forall i, j :: 0 <= i < j < |s| ==> s[i] < s[j]
  }

  /** Adds `x` to an ascending duplicate-free sequence unless it is there already. */
  function InsertDistinct(x: int, s: seq<int>): (r: seq<int>)
    ensures |r| <= |s| + 1
    decreases |s|
  {
    if |s| == 0 || x < s[0] then [x] + s
    else if x == s[0] then s
    else [s[0]] + InsertDistinct(x, s[1..])
  }

  lemma {:induction false} InsertDistinctSpec(x: int, s: seq<int>)
    requires StrictlyIncreasing(s)
    ensures StrictlyIncreasing(InsertDistinct(x, s))
    ensures forall y :: y in InsertDistinct(x, s) <==> y == x || y in s
    decreases |s|
  {
    if |s| > 0 && x > s[0] {
      var tail := s[1..];
      var rest := InsertDistinct(x, tail);
      assert StrictlyIncreasing(tail);
      InsertDistinctSpec(x, tail);
      assert s == [s[0]] + tail;
      assert forall k :: 0 <= k < |rest| ==> s[0] < rest[k] by {
        forall k | 0 <= k < |rest|
          ensures s[0] < rest[k]
        {
          assert rest[k] in rest;
          if rest[k] != x {
            var m :| 0 <= m < |tail| && tail[m] == rest[k];
            assert tail[m] == s[m + 1];
          }
        }
      }
      var r := [s[0]] + rest;
      assert forall a, b :: 0 <= a < b < |r| ==> r[a] < r[b] by {
        forall a, b | 0 <= a < b < |r|
          ensures r[a] < r[b]
        {
          if a == 0 {
            assert r[b] == rest[b - 1];
          } else {
            assert r[a] == rest[a - 1] && r[b] == rest[b - 1];
          }
        }
      }
    }
  }

  /** The distinct values of an integer column in ascending order: the group
      keys of `groupby`, which sorts them. */
  function SortedKeys(s: seq<int>): (r: seq<int>)
    ensures |r| <= |s|
    decreases |s|
  {
    if |s| == 0 then [] else InsertDistinct(s[|s| - 1], SortedKeys(s[..|s| - 1]))
  }

  /** `SortedKeys` lists every value of the column once, in ascending order,
      and nothing else. */
  lemma {:induction false} SortedKeysSpec(s: seq<int>)
    ensures StrictlyIncreasing(SortedKeys(s))
    ensures forall y :: y in SortedKeys(s) <==> y in s
    decreases |s|
  {
    if |s| > 0 {
      var init := s[..|s| - 1];
      SortedKeysSpec(init);
      InsertDistinctSpec(s[|s| - 1], SortedKeys(init));
      assert s == init + [s[|s| - 1]];
    }
  }

  lemma StrictlyIncreasingNoDuplicates(s: seq<int>)
    requires StrictlyIncreasing(s)
    ensures NoDuplicates(s)
  {
  }
}
