/**
 * The LINQ operators the review strategy builds on. `Enumerable.GroupBy`: the groups come in the
 * order in which their keys first occur, and each group holds its elements in input order; it is
 * defined as the source enumerates, one element at a time, appending the element to the group of
 * its key or opening a new group at the end. `Enumerable.OrderBy` with a small natural key: a
 * stable sort, defined by insertion and proved equal to the elements taken key by key.
 */
module Linq {
  import opened Outcomes

  /**
   * The values of the present results, in order: `Select(f).Where(v => v != null)` for an `f`
   * that returns null when it has nothing.
   */
  function SelectSome<T, U>(xs: seq<T>, f: T -> Option<U>): (r: seq<U>)
    ensures |r| <= |xs|
  {
    if xs == [] then []
    else SelectSome(xs[..|xs| - 1], f) + Picked(xs[|xs| - 1], f)
  }

  /** What one element contributes to `SelectSome`. */
  function Picked<T, U>(x: T, f: T -> Option<U>): seq<U> {
    match f(x) case Some(v) => [v] case None => []
  }

  lemma SelectSomeSnoc<T, U>(xs: seq<T>, x: T, f: T -> Option<U>)
    ensures SelectSome(xs + [x], f) == SelectSome(xs, f) + Picked(x, f)
  {
    assert (xs + [x])[..|xs|] == xs;
  }

  /** Each element contributes on its own: selecting over two parts is selecting over each. */
  lemma {:induction false} SelectSomeAppend<T, U>(a: seq<T>, b: seq<T>, f: T -> Option<U>)
    ensures SelectSome(a + b, f) == SelectSome(a, f) + SelectSome(b, f)
  {
    if b == [] {
      assert a + b == a;
    } else {
      var init, x := b[..|b| - 1], b[|b| - 1];
      assert b == init + [x];
      ConcatAssoc(a, init, [x]);
      SelectSomeSnoc(a + init, x, f);
      SelectSomeSnoc(init, x, f);
      SelectSomeAppend(a, init, f);
      ConcatAssoc(SelectSome(a, f), SelectSome(init, f), Picked(x, f));
    }
  }

  /** The elements whose key is `k`, in input order (`Where(x => key(x) == k)`). */
  function WithKey<T, K(==)>(xs: seq<T>, key: T -> K, k: K): (r: seq<T>)
    ensures |r| <= |xs|
    ensures forall i :: 0 <= i < |r| ==> key(r[i]) == k
  {
    if xs == [] then []
    else WithKey(xs[..|xs| - 1], key, k) + (if key(xs[|xs| - 1]) == k then [xs[|xs| - 1]] else [])
  }

  /** The keys that occur in `xs`. */
  ghost predicate HasKey<T, K>(xs: seq<T>, key: T -> K, k: K) {
    exists i :: 0 <= i < |xs| && key(xs[i]) == k
  }

  /** The position of the group with key `k`, if there is one. */
  function GroupIndex<T, K(==)>(gs: seq<(K, seq<T>)>, k: K): (r: int)
    ensures -1 <= r < |gs|
    ensures r >= 0 ==> gs[r].0 == k
    ensures r < 0 ==> forall i :: 0 <= i < |gs| ==> gs[i].0 != k
  {
    if gs == [] then -1
    else if gs[|gs| - 1].0 == k then |gs| - 1
    else GroupIndex(gs[..|gs| - 1], k)
  }

  /** One step of the grouping: `x` joins the group of key `k`, or starts a new last group. */
  function AddToGroup<T, K(==)>(gs: seq<(K, seq<T>)>, k: K, x: T): (r: seq<(K, seq<T>)>)
    ensures var i := GroupIndex(gs, k);
      if i >= 0 then r == gs[i := (k, gs[i].1 + [x])]
      else r == gs + [(k, [x])]
  {
    var i := GroupIndex(gs, k);
    if i >= 0 then gs[i := (k, gs[i].1 + [x])] else gs + [(k, [x])]
  }

  /** `Enumerable.GroupBy(xs, key)`: the group sizes add up to the number of elements. */
  function GroupBy<T, K(==)>(xs: seq<T>, key: T -> K): (r: seq<(K, seq<T>)>)
    ensures TotalSize(r) == |xs|
  {
    if xs == [] then []
    else
      var gs, x := GroupBy(xs[..|xs| - 1], key), xs[|xs| - 1];
      var i := GroupIndex(gs, key(x));
      if i >= 0 then
        TotalSizeUpdate(gs, i, (key(x), gs[i].1 + [x]));
        AddToGroup(gs, key(x), x)
      else
        assert (gs + [(key(x), [x])])[..|gs|] == gs;
        AddToGroup(gs, key(x), x)
  }

  /** The total number of elements over all groups. */
  function TotalSize<T, K>(gs: seq<(K, seq<T>)>): nat {
    if gs == [] then 0 else TotalSize(gs[..|gs| - 1]) + |gs[|gs| - 1].1|
  }

  lemma {:induction false} TotalSizeUpdate<T, K>(gs: seq<(K, seq<T>)>, i: nat, g: (K, seq<T>))
    requires i < |gs|
    ensures TotalSize(gs[i := g]) == TotalSize(gs) - |gs[i].1| + |g.1|
  {
    if i < |gs| - 1 {
      assert gs[i := g][..|gs| - 1] == gs[..|gs| - 1][i := g];
      TotalSizeUpdate(gs[..|gs| - 1], i, g);
    } else {
      assert gs[i := g][..|gs| - 1] == gs[..|gs| - 1];
    }
  }

  /** No two groups share a key. */
  ghost predicate KeysDistinct<T, K>(gs: seq<(K, seq<T>)>) {
    forall i, j :: 0 <= i < j < |gs| ==> gs[i].0 != gs[j].0
  }

  /** Every group is non-empty and holds exactly the elements of `xs` with its key, in order. */
  ghost predicate GroupsHoldKeys<T, K>(gs: seq<(K, seq<T>)>, xs: seq<T>, key: T -> K) {
    forall i :: 0 <= i < |gs| ==> gs[i].1 != [] && gs[i].1 == WithKey(xs, key, gs[i].0)
  }

  /** The keys of the groups are pairwise different. */
  lemma {:induction false} GroupByKeysDistinct<T, K>(xs: seq<T>, key: T -> K)
    ensures KeysDistinct(GroupBy(xs, key))
  {
    if xs != [] {
      var init, x := xs[..|xs| - 1], xs[|xs| - 1];
      GroupByKeysDistinct(init, key);
      var gs0 := GroupBy(init, key);
      var gs := GroupBy(xs, key);
      var idx := GroupIndex(gs0, key(x));
      assert gs == AddToGroup(gs0, key(x), x);
      forall i, j | 0 <= i < j < |gs|
        ensures gs[i].0 != gs[j].0
      {
        if j < |gs0| {
          assert gs[i].0 == gs0[i].0 && gs[j].0 == gs0[j].0;
        } else {
          assert idx < 0 && gs[j].0 == key(x) && gs[i] == gs0[i];
        }
      }
    }
  }

  /** Every group is non-empty and holds exactly the elements with its key, in input order. */
  lemma {:induction false} GroupByContents<T, K>(xs: seq<T>, key: T -> K)
    ensures GroupsHoldKeys(GroupBy(xs, key), xs, key)
  {
    if xs != [] {
      var init, x := xs[..|xs| - 1], xs[|xs| - 1];
      GroupByContents(init, key);
      GroupByKeysDistinct(init, key);
      var gs0 := GroupBy(init, key);
      var gs := GroupBy(xs, key);
      var idx := GroupIndex(gs0, key(x));
      assert gs == AddToGroup(gs0, key(x), x);
      forall i | 0 <= i < |gs|
        ensures gs[i].1 != [] && gs[i].1 == WithKey(xs, key, gs[i].0)
      {
        assert WithKey(xs, key, gs[i].0)
          == WithKey(init, key, gs[i].0) + (if key(x) == gs[i].0 then [x] else []);
        if i < |gs0| {
          assert gs[i].0 == gs0[i].0;
          assert gs0[i].1 == WithKey(init, key, gs0[i].0);
          if i == idx {
            assert gs[i].1 == gs0[i].1 + [x];
          } else {
            assert gs[i].1 == gs0[i].1;
            assert key(x) != gs0[i].0;
          }
        } else {
          assert gs[i] == (key(x), [x]);
          assert WithKey(init, key, key(x)) == [] by {
            WithKeyAbsent(init, key, key(x));
          }
        }
      }
    }
  }

  /** No element of `xs` has key `k` exactly when `WithKey` finds nothing. */
  lemma {:induction false} WithKeyAbsent<T, K>(xs: seq<T>, key: T -> K, k: K)
    requires forall i :: 0 <= i < |GroupBy(xs, key)| ==> GroupBy(xs, key)[i].0 != k
    ensures WithKey(xs, key, k) == []
  {
    if xs != [] {
      var init := xs[..|xs| - 1];
      var gs0 := GroupBy(init, key);
      var i := GroupIndex(gs0, key(xs[|xs| - 1]));
      forall j | 0 <= j < |gs0|
        ensures gs0[j].0 != k
      {
        assert GroupBy(xs, key)[j].0 == gs0[j].0;
      }
      WithKeyAbsent(init, key, k);
      assert GroupBy(xs, key)[if i >= 0 then i else |gs0|].0 == key(xs[|xs| - 1]);
    }
  }

  /** Every element's key has a group, and every group's key is some element's key. */
  lemma {:induction false} GroupByCoversKeys<T, K>(xs: seq<T>, key: T -> K, k: K)
    ensures HasKey(xs, key, k) <==> GroupIndex(GroupBy(xs, key), k) >= 0
  {
    if xs != [] {
      var init, x := xs[..|xs| - 1], xs[|xs| - 1];
      GroupByCoversKeys(init, key, k);
      HasKeySnoc(init, x, key, k);
      assert xs == init + [x];
      AddToGroupKeys(GroupBy(init, key), key(x), x, k);
    }
  }

  /** After one step of the grouping, the keys with a group are the old ones and the new element's. */
  lemma AddToGroupKeys<T, K>(gs: seq<(K, seq<T>)>, kx: K, x: T, k: K)
    ensures GroupIndex(AddToGroup(gs, kx, x), k) >= 0 <==> GroupIndex(gs, k) >= 0 || k == kx
  {
    var gs' := AddToGroup(gs, kx, x);
    var i := GroupIndex(gs, kx);
    assert |gs'| >= |gs| && forall j :: 0 <= j < |gs| ==> gs'[j].0 == gs[j].0;
    if GroupIndex(gs', k) >= 0 && k != kx {
      var j := GroupIndex(gs', k);
      assert j < |gs|;
    }
    if GroupIndex(gs, k) >= 0 {
      assert gs'[GroupIndex(gs, k)].0 == k;
    }
    if k == kx {
      assert gs'[if i >= 0 then i else |gs|].0 == k;
    }
  }

  /** The keys of a longer input are the keys of the shorter one and the new element's. */
  lemma HasKeySnoc<T, K>(init: seq<T>, x: T, key: T -> K, k: K)
    ensures HasKey(init + [x], key, k) <==> HasKey(init, key, k) || key(x) == k
  {
    var xs := init + [x];
    if HasKey(xs, key, k) {
      var j :| 0 <= j < |xs| && key(xs[j]) == k;
      if j < |init| {
        assert key(init[j]) == k;
      }
    }
    if HasKey(init, key, k) {
      var j :| 0 <= j < |init| && key(init[j]) == k;
      assert key(xs[j]) == k;
    }
    assert key(xs[|init|]) == key(x);
  }

  /** The first element of every group, in group order (`Select(g => g.First())`). */
  function Firsts<T, K>(gs: seq<(K, seq<T>)>): (r: seq<T>)
    requires forall i :: 0 <= i < |gs| ==> gs[i].1 != []
    ensures |r| == |gs|
    ensures forall i :: 0 <= i < |gs| ==> r[i] == gs[i].1[0]
  {
    seq(|gs|, i requires 0 <= i < |gs| => gs[i].1[0])
  }

  /** Joining a group keeps the first elements; starting a new group adds `x` as the last first element. */
  lemma FirstsAddToGroup<T, K>(gs: seq<(K, seq<T>)>, k: K, x: T)
    requires forall i :: 0 <= i < |gs| ==> gs[i].1 != []
    ensures forall i :: 0 <= i < |AddToGroup(gs, k, x)| ==> AddToGroup(gs, k, x)[i].1 != []
    ensures Firsts(AddToGroup(gs, k, x)) == Firsts(gs) + (if GroupIndex(gs, k) >= 0 then [] else [x])
  {
    var r := AddToGroup(gs, k, x);
    if GroupIndex(gs, k) >= 0 {
      assert forall i :: 0 <= i < |gs| ==> r[i].1[0] == gs[i].1[0];
    } else {
      assert forall i :: 0 <= i < |gs| ==> r[i] == gs[i];
    }
  }

  /** `a` is `b` with some elements left out, the rest in their order. */
  ghost predicate IsSubsequence<T>(a: seq<T>, b: seq<T>)
    decreases |b|
  {
    || a == []
    || (b != [] && IsSubsequence(a, b[..|b| - 1]))
    || (a != [] && b != [] && a[|a| - 1] == b[|b| - 1] && IsSubsequence(a[..|a| - 1], b[..|b| - 1]))
  }

  /** Filtering distributes over concatenation. */
  lemma {:induction false} WithKeyAppend<T, K>(a: seq<T>, b: seq<T>, key: T -> K, k: K)
    ensures WithKey(a + b, key, k) == WithKey(a, key, k) + WithKey(b, key, k)
  {
    if b == [] {
      assert a + b == a;
    } else {
      var ab, init := a + b, b[..|b| - 1];
      assert ab[..|ab| - 1] == a + init && ab[|ab| - 1] == b[|b| - 1];
      WithKeyAppend(a, init, key, k);
      ConcatAssoc(WithKey(a, key, k), WithKey(init, key, k), if key(b[|b| - 1]) == k then [b[|b| - 1]] else []);
    }
  }

  /** Appending one element adds it to the filter of its own key only. */
  lemma WithKeySnoc<T, K>(init: seq<T>, x: T, key: T -> K, k: K)
    ensures WithKey(init + [x], key, k) == WithKey(init, key, k) + (if key(x) == k then [x] else [])
  {
    assert (init + [x])[..|init|] == init;
  }

  /** With no element of key `k` there is nothing to filter. */
  lemma {:induction false} WithKeyNone<T, K>(xs: seq<T>, key: T -> K, k: K)
    requires forall i :: 0 <= i < |xs| ==> key(xs[i]) != k
    ensures WithKey(xs, key, k) == []
  {
    if xs != [] {
      WithKeyNone(xs[..|xs| - 1], key, k);
    }
  }

  /** Filtering twice by the same key changes nothing; by two keys leaves nothing. */
  lemma {:induction false} WithKeyTwice<T, K>(xs: seq<T>, key: T -> K, j: K, k: K)
    ensures WithKey(WithKey(xs, key, j), key, k) == if j == k then WithKey(xs, key, j) else []
  {
    if xs != [] {
      var init, x := xs[..|xs| - 1], xs[|xs| - 1];
      WithKeyTwice(init, key, j, k);
      if key(x) == j {
        assert WithKey(xs, key, j) == WithKey(init, key, j) + [x];
        WithKeySnoc(WithKey(init, key, j), x, key, k);
      } else {
        assert WithKey(xs, key, j) == WithKey(init, key, j);
      }
    }
  }

  /** `x` placed after every element whose key is at most its own: one step of a stable sort. */
  function InsertByKey<T>(s: seq<T>, x: T, key: T -> nat): (r: seq<T>)
    ensures |r| == |s| + 1
  {
    if s == [] || key(s[|s| - 1]) <= key(x) then s + [x]
    else InsertByKey(s[..|s| - 1], x, key) + [s[|s| - 1]]
  }

  /** `Enumerable.OrderBy(xs, key)` for a natural key, built by stable insertion. */
  function OrderBy<T>(xs: seq<T>, key: T -> nat): (r: seq<T>)
    ensures |r| == |xs|
  {
    if xs == [] then [] else InsertByKey(OrderBy(xs[..|xs| - 1], key), xs[|xs| - 1], key)
  }

  /** The elements of keys `lo`, `lo + 1`, ..., `hi - 1`, key after key, each key's in input order. */
  function Buckets<T>(xs: seq<T>, key: T -> nat, lo: nat, hi: nat): seq<T>
    decreases hi - lo
  {
    if lo >= hi then [] else WithKey(xs, key, lo) + Buckets(xs, key, lo + 1, hi)
  }

  /** Inserting into a sequence whose keys are at most `key(x)` up to some point and above it after. */
  lemma {:induction false} InsertBetween<T>(p: seq<T>, q: seq<T>, x: T, key: T -> nat)
    requires forall i :: 0 <= i < |p| ==> key(p[i]) <= key(x)
    requires forall i :: 0 <= i < |q| ==> key(q[i]) > key(x)
    ensures InsertByKey(p + q, x, key) == p + [x] + q
  {
    if q == [] {
      assert p + q == p;
    } else {
      var pq, init := p + q, q[..|q| - 1];
      assert pq[..|pq| - 1] == p + init && pq[|pq| - 1] == q[|q| - 1];
      InsertBetween(p, init, x, key);
    }
  }

  lemma {:induction false} BucketsKeys<T>(xs: seq<T>, key: T -> nat, lo: nat, hi: nat)
    ensures forall i :: 0 <= i < |Buckets(xs, key, lo, hi)| ==> lo <= key(Buckets(xs, key, lo, hi)[i]) < hi
    decreases hi - lo
  {
    if lo < hi {
      BucketsKeys(xs, key, lo + 1, hi);
      var w, rest := WithKey(xs, key, lo), Buckets(xs, key, lo + 1, hi);
      forall i | 0 <= i < |w + rest|
        ensures lo <= key((w + rest)[i]) < hi
      {
        if i >= |w| {
          assert (w + rest)[i] == rest[i - |w|];
        }
      }
    }
  }

  lemma {:induction false} BucketsSplit<T>(xs: seq<T>, key: T -> nat, lo: nat, mid: nat, hi: nat)
    requires lo <= mid <= hi
    ensures Buckets(xs, key, lo, hi) == Buckets(xs, key, lo, mid) + Buckets(xs, key, mid, hi)
    decreases mid - lo
  {
    if lo < mid {
      BucketsSplit(xs, key, lo + 1, mid, hi);
      ConcatAssoc(WithKey(xs, key, lo), Buckets(xs, key, lo + 1, mid), Buckets(xs, key, mid, hi));
    }
  }

  lemma ConcatAssoc<T>(a: seq<T>, b: seq<T>, c: seq<T>)
    ensures a + (b + c) == (a + b) + c
  {
  }

  lemma {:induction false} BucketsSnocOutside<T>(init: seq<T>, x: T, key: T -> nat, lo: nat, hi: nat)
    requires key(x) < lo || hi <= key(x)
    ensures Buckets(init + [x], key, lo, hi) == Buckets(init, key, lo, hi)
    decreases hi - lo
  {
    if lo < hi {
      WithKeySnoc(init, x, key, lo);
      BucketsSnocOutside(init, x, key, lo + 1, hi);
    }
  }

  lemma BucketsSnocLast<T>(init: seq<T>, x: T, key: T -> nat, lo: nat, hi: nat)
    requires lo <= key(x) && key(x) + 1 == hi
    ensures Buckets(init + [x], key, lo, hi) == Buckets(init, key, lo, hi) + [x]
  {
    var xs, k := init + [x], key(x);
    BucketsSplit(xs, key, lo, k, hi);
    BucketsSplit(init, key, lo, k, hi);
    BucketsSnocOutside(init, x, key, lo, k);
    BucketOfLast(init, x, key);
    ConcatAssoc(Buckets(init, key, lo, k), Buckets(init, key, k, hi), [x]);
  }

  /** The one bucket of the new element's key gains the new element at its end. */
  lemma BucketOfLast<T>(init: seq<T>, x: T, key: T -> nat)
    ensures Buckets(init + [x], key, key(x), key(x) + 1) == Buckets(init, key, key(x), key(x) + 1) + [x]
  {
    var k := key(x);
    assert Buckets(init + [x], key, k + 1, k + 1) == [] && Buckets(init, key, k + 1, k + 1) == [];
    WithKeySnoc(init, x, key, k);
    assert WithKey(init, key, k) + [x] + [] == WithKey(init, key, k) + [] + [x];
  }

  /** Every key is below `n`. */
  ghost predicate KeysBelow<T>(xs: seq<T>, key: T -> nat, n: nat) {
    forall i :: 0 <= i < |xs| ==> key(xs[i]) < n
  }

  /**
   * The stable sort takes the elements key by key, each key's elements in input order: its
   * reference definition.
   */
  lemma {:induction false} OrderByIsBuckets<T>(xs: seq<T>, key: T -> nat, n: nat)
    requires KeysBelow(xs, key, n)
    ensures OrderBy(xs, key) == Buckets(xs, key, 0, n)
  {
    if xs != [] {
      var init, x := xs[..|xs| - 1], xs[|xs| - 1];
      assert xs == init + [x];
      assert KeysBelow(init, key, n) by {
        forall i | 0 <= i < |init|
          ensures key(init[i]) < n
        {
          assert init[i] == xs[i];
        }
      }
      OrderByIsBuckets(init, key, n);
      InsertIntoBuckets(init, x, key, n);
    } else {
      BucketsOfNothing(xs, key, 0, n);
    }
  }

  /** Inserting one more element into the reference ordering gives the reference ordering of the longer input. */
  lemma InsertIntoBuckets<T>(init: seq<T>, x: T, key: T -> nat, n: nat)
    requires key(x) < n
    ensures InsertByKey(Buckets(init, key, 0, n), x, key) == Buckets(init + [x], key, 0, n)
  {
    var r := key(x);
    BucketsSplit(init, key, 0, r + 1, n);
    BucketsSplit(init + [x], key, 0, r + 1, n);
    var p, q := Buckets(init, key, 0, r + 1), Buckets(init, key, r + 1, n);
    BucketsKeys(init, key, 0, r + 1);
    BucketsKeys(init, key, r + 1, n);
    InsertBetween(p, q, x, key);
    BucketsSnocLast(init, x, key, 0, r + 1);
    BucketsSnocOutside(init, x, key, r + 1, n);
  }

  lemma {:induction false} BucketsOfNothing<T>(xs: seq<T>, key: T -> nat, lo: nat, hi: nat)
    requires xs == []
    ensures Buckets(xs, key, lo, hi) == []
    decreases hi - lo
  {
    if lo < hi {
      BucketsOfNothing(xs, key, lo + 1, hi);
    }
  }

  /** Keys never decrease along the taken buckets. */
  lemma {:induction false} BucketsSorted<T>(xs: seq<T>, key: T -> nat, lo: nat, hi: nat)
    ensures forall i, j :: 0 <= i < j < |Buckets(xs, key, lo, hi)| ==>
      key(Buckets(xs, key, lo, hi)[i]) <= key(Buckets(xs, key, lo, hi)[j])
    decreases hi - lo
  {
    if lo < hi {
      BucketsSorted(xs, key, lo + 1, hi);
      BucketsKeys(xs, key, lo + 1, hi);
      var w, rest := WithKey(xs, key, lo), Buckets(xs, key, lo + 1, hi);
      forall i, j | 0 <= i < j < |w + rest|
        ensures key((w + rest)[i]) <= key((w + rest)[j])
      {
        if j < |w| {
        } else if i < |w| {
          assert key((w + rest)[j]) == key(rest[j - |w|]);
        } else {
          assert (w + rest)[i] == rest[i - |w|] && (w + rest)[j] == rest[j - |w|];
        }
      }
    }
  }

  /** The ordered sequence is sorted by key. */
  lemma OrderBySorted<T>(xs: seq<T>, key: T -> nat, n: nat)
    requires KeysBelow(xs, key, n)
    ensures forall i, j :: 0 <= i < j < |OrderBy(xs, key)| ==> key(OrderBy(xs, key)[i]) <= key(OrderBy(xs, key)[j])
  {
    OrderByIsBuckets(xs, key, n);
    BucketsSorted(xs, key, 0, n);
  }

  lemma {:induction false} BucketsFilter<T>(xs: seq<T>, key: T -> nat, lo: nat, hi: nat, k: nat)
    ensures WithKey(Buckets(xs, key, lo, hi), key, k) == if lo <= k < hi then WithKey(xs, key, k) else []
    decreases hi - lo
  {
    if lo >= hi {
      assert Buckets(xs, key, lo, hi) == [];
    } else if k == lo {
      BucketsFilterFirst(xs, key, lo, hi);
    } else {
      BucketsFilterLater(xs, key, lo, hi, k);
      BucketsFilter(xs, key, lo + 1, hi, k);
      assert lo <= k < hi <==> lo + 1 <= k < hi;
    }
  }

  /** Filtering the buckets by their first key gives that key's bucket. */
  lemma BucketsFilterFirst<T>(xs: seq<T>, key: T -> nat, lo: nat, hi: nat)
    requires lo < hi
    ensures WithKey(Buckets(xs, key, lo, hi), key, lo) == WithKey(xs, key, lo)
  {
    var w, rest := WithKey(xs, key, lo), Buckets(xs, key, lo + 1, hi);
    WithKeyAppend(w, rest, key, lo);
    WithKeyTwice(xs, key, lo, lo);
    BucketsKeys(xs, key, lo + 1, hi);
    WithKeyNone(rest, key, lo);
    assert w + [] == w;
  }

  /** Filtering the buckets by any other key skips the first bucket. */
  lemma BucketsFilterLater<T>(xs: seq<T>, key: T -> nat, lo: nat, hi: nat, k: nat)
    requires lo < hi && k != lo
    ensures WithKey(Buckets(xs, key, lo, hi), key, k) == WithKey(Buckets(xs, key, lo + 1, hi), key, k)
  {
    var w, rest := WithKey(xs, key, lo), Buckets(xs, key, lo + 1, hi);
    WithKeyAppend(w, rest, key, k);
    WithKeyTwice(xs, key, lo, k);
    assert [] + WithKey(rest, key, k) == WithKey(rest, key, k);
  }

  /** Stability: the elements of each key keep their input order. */
  lemma OrderByStable<T>(xs: seq<T>, key: T -> nat, n: nat, k: nat)
    requires KeysBelow(xs, key, n)
    ensures WithKey(OrderBy(xs, key), key, k) == WithKey(xs, key, k)
  {
    OrderByIsBuckets(xs, key, n);
    BucketsFilter(xs, key, 0, n, k);
    if k >= n {
      WithKeyNone(xs, key, k);
    }
  }

  /** The ordered sequence is a permutation of the input. */
  lemma {:induction false} OrderByPermutation<T>(xs: seq<T>, key: T -> nat)
    ensures multiset(OrderBy(xs, key)) == multiset(xs)
  {
    if xs != [] {
      var init, x := xs[..|xs| - 1], xs[|xs| - 1];
      assert xs == init + [x];
      OrderByPermutation(init, key);
      InsertByKeyPermutation(OrderBy(init, key), x, key);
    }
  }

  lemma {:induction false} InsertByKeyPermutation<T>(s: seq<T>, x: T, key: T -> nat)
    ensures multiset(InsertByKey(s, x, key)) == multiset(s) + multiset{x}
  {
    if s != [] && key(s[|s| - 1]) > key(x) {
      var init := s[..|s| - 1];
      assert s == init + [s[|s| - 1]];
      InsertByKeyPermutation(init, x, key);
    }
  }

  /** `Where`: an element is kept exactly when it is in the input and has the key. */
  lemma {:induction false} WithKeyMembers<T, K>(xs: seq<T>, key: T -> K, k: K, x: T)
    ensures x in WithKey(xs, key, k) <==> x in xs && key(x) == k
  {
    if xs != [] {
      var init := xs[..|xs| - 1];
      assert xs == init + [xs[|xs| - 1]];
      WithKeyMembers(init, key, k, x);
    }
  }

  /** `Where` keeps the kept elements in their input order. */
  lemma {:induction false} WithKeySubsequence<T, K>(xs: seq<T>, key: T -> K, k: K)
    ensures IsSubsequence(WithKey(xs, key, k), xs)
  {
    if xs != [] {
      var init := xs[..|xs| - 1];
      WithKeySubsequence(init, key, k);
      var w := WithKey(xs, key, k);
      if key(xs[|xs| - 1]) == k {
        assert w[..|w| - 1] == WithKey(init, key, k);
      } else {
        assert w == WithKey(init, key, k);
      }
    }
  }
}
