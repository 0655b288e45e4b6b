/** The order `replaceScreenshotsInMarkdown` visits placeholders in:
    `[...placeholders].sort((a, b) => b.seconds - a.seconds)`. `Array.prototype.sort`
    is stable, so the result is descending by seconds with ties in their
    original order. The sort is modelled on positions: `Order(keys)` lists the
    positions `0 .. |keys| - 1` in the order the sorted copy holds them. */
module Ordering {

  /** Position `a` comes before position `b` in the sorted copy: a larger key,
      or an equal key and an earlier position. */
  predicate Precedes(keys: seq<real>, a: nat, b: nat)
    requires a < |keys| && b < |keys|
  {
    keys[a] > keys[b] || (keys[a] == keys[b] && a < b)
  }

  predicate InRange(order: seq<nat>, n: nat) {
    forall k :: 0 <= k < |order| ==> order[k] < n
  }

  /** Every earlier entry precedes every later one. */
  predicate SortedBy(keys: seq<real>, order: seq<nat>)
    requires InRange(order, |keys|)
  {
    forall k, l :: 0 <= k < l < |order| ==> Precedes(keys, order[k], order[l])
  }

  /** The positions `0 .. n - 1`. */
  function Range(n: nat): (r: seq<nat>)
    ensures |r| == n && forall k :: 0 <= k < n ==> r[k] == k
  {
    seq(n, k requires 0 <= k < n => k)
  }

  /** One step of a stable insertion sort: position `i`, later than every
      position already placed, goes after every entry the comparator does not
      put behind it, that is after every entry with a key at least its own. */
  function Insert(keys: seq<real>, i: nat, order: seq<nat>): (r: seq<nat>)
    requires i < |keys| && InRange(order, |keys|)
    ensures |r| == |order| + 1 && InRange(r, |keys|)
    ensures multiset(r) == multiset(order) + multiset{i}
    decreases |order|
  {
    if order == [] then [i]
    else if keys[order[0]] >= keys[i] then
      assert order == [order[0]] + order[1..];
      [order[0]] + Insert(keys, i, order[1..])
    else [i] + order
  }

  /** The first `n` positions, sorted. */
  function SortPrefix(keys: seq<real>, n: nat): (r: seq<nat>)
    requires n <= |keys|
    ensures |r| == n && InRange(r, n)
    ensures multiset(r) == multiset(Range(n))
  {
    if n == 0 then []
    else
      var r := Insert(keys, n - 1, SortPrefix(keys, n - 1));
      assert Range(n) == Range(n - 1) + [n - 1];
      assert multiset(r) == multiset(Range(n));
      InRangeOfMultiset(r, n);
      r
  }

  /** The order of the stably sorted copy. */
  function Order(keys: seq<real>): (r: seq<nat>)
    ensures |r| == |keys| && InRange(r, |keys|)
  {
    SortPrefix(keys, |keys|)
  }

  lemma InRangeOfMultiset(r: seq<nat>, n: nat)
    requires multiset(r) == multiset(Range(n))
    ensures InRange(r, n)
  {
    forall k | 0 <= k < |r| ensures r[k] < n {
      assert r[k] in multiset(Range(n));
    }
  }

  /** Inserting a later position into a sorted order keeps it sorted. */
  lemma {:induction false} InsertSorted(keys: seq<real>, i: nat, order: seq<nat>)
    requires i < |keys| && InRange(order, i) && SortedBy(keys, order)
    ensures SortedBy(keys, Insert(keys, i, order))
    decreases |order|, 1
  {
    if order != [] {
      if keys[order[0]] >= keys[i] {
        InsertBehind(keys, i, order);
      } else {
        forall l | 0 <= l < |order| ensures Precedes(keys, i, order[l]) {
          if l > 0 {
            assert Precedes(keys, order[0], order[l]);
          }
        }
        ConsSorted(keys, i, order);
      }
    }
  }

  /** `i` goes behind the first entry, whose key is at least its own. */
  lemma {:induction false} InsertBehind(keys: seq<real>, i: nat, order: seq<nat>)
    requires i < |keys| && InRange(order, i) && SortedBy(keys, order)
    requires order != [] && keys[order[0]] >= keys[i]
    ensures SortedBy(keys, Insert(keys, i, order))
    decreases |order|, 0
  {
    var rest := order[1..];
    assert InRange(rest, i) && SortedBy(keys, rest) by {
      forall k | 0 <= k < |rest| ensures rest[k] == order[k + 1] {
      }
    }
    InsertSorted(keys, i, rest);
    var ins := Insert(keys, i, rest);
    forall l | 0 <= l < |ins| ensures Precedes(keys, order[0], ins[l]) {
      assert ins[l] in multiset(ins);
      if ins[l] != i {
        assert ins[l] in multiset(rest);
        var j :| 0 <= j < |rest| && rest[j] == ins[l];
        assert order[j + 1] == ins[l];
      }
    }
    ConsSorted(keys, order[0], ins);
  }

  /** An entry preceding every entry of a sorted order can go in front. */
  lemma ConsSorted(keys: seq<real>, x: nat, order: seq<nat>)
    requires x < |keys| && InRange(order, |keys|) && SortedBy(keys, order)
    requires forall l :: 0 <= l < |order| ==> Precedes(keys, x, order[l])
    ensures InRange([x] + order, |keys|) && SortedBy(keys, [x] + order)
  {
    var r := [x] + order;
    forall k | 0 <= k < |r| ensures r[k] < |keys| {
      if k > 0 { assert r[k] == order[k - 1]; }
    }
    forall k, l | 0 <= k < l < |r| ensures Precedes(keys, r[k], r[l]) {
      assert r[l] == order[l - 1];
      if k > 0 {
        assert r[k] == order[k - 1];
      }
    }
  }

  /** Every prefix sort is sorted. */
  lemma {:induction false} SortPrefixSorted(keys: seq<real>, n: nat)
    requires n <= |keys|
    ensures SortedBy(keys, SortPrefix(keys, n))
  {
    if n > 0 {
      SortPrefixSorted(keys, n - 1);
      InsertSorted(keys, n - 1, SortPrefix(keys, n - 1));
    }
  }

  /** The sorted order holds every position exactly once and is descending by
      key, ties in their original order. */
  lemma OrderIsStableSort(keys: seq<real>)
    ensures multiset(Order(keys)) == multiset(Range(|keys|))
    ensures SortedBy(keys, Order(keys))
    ensures forall k, l :: 0 <= k < l < |keys| ==> keys[Order(keys)[k]] >= keys[Order(keys)[l]]
  {
    SortPrefixSorted(keys, |keys|);
  }

  /** The entries of `xs` in the order `order` lists their positions. */
  function Select<T>(xs: seq<T>, order: seq<nat>): (r: seq<T>)
    requires InRange(order, |xs|)
    ensures |r| == |order| && forall k :: 0 <= k < |order| ==> r[k] == xs[order[k]]
  {
    seq(|order|, k requires 0 <= k < |order| => xs[order[k]])
  }

  /** Inserting position `i` into an order adds `xs[i]` to the entries it
      selects. */
  lemma {:induction false} InsertSelect<T>(xs: seq<T>, keys: seq<real>, i: nat, order: seq<nat>)
    requires |xs| == |keys| && i < |keys| && InRange(order, |keys|)
    ensures multiset(Select(xs, Insert(keys, i, order))) == multiset(Select(xs, order)) + multiset{xs[i]}
    decreases |order|
  {
    if order == [] {
      assert Select(xs, [i]) == [xs[i]];
    } else if keys[order[0]] >= keys[i] {
      var rest := order[1..];
      assert order == [order[0]] + rest;
      var ins := Insert(keys, i, rest);
      assert Insert(keys, i, order) == [order[0]] + ins;
      InsertSelect(xs, keys, i, rest);
      SelectCons(xs, order[0], ins);
      SelectCons(xs, order[0], rest);
    } else {
      SelectCons(xs, i, order);
    }
  }

  lemma SelectCons<T>(xs: seq<T>, a: nat, order: seq<nat>)
    requires a < |xs| && InRange(order, |xs|)
    ensures InRange([a] + order, |xs|)
    ensures multiset(Select(xs, [a] + order)) == multiset{xs[a]} + multiset(Select(xs, order))
  {
    assert Select(xs, [a] + order) == [xs[a]] + Select(xs, order);
  }

  /** The sorted first `n` positions select the first `n` entries, rearranged. */
  lemma {:induction false} SortPrefixSelect<T>(xs: seq<T>, keys: seq<real>, n: nat)
    requires |xs| == |keys| && n <= |keys|
    ensures multiset(Select(xs, SortPrefix(keys, n))) == multiset(xs[..n])
  {
    if n > 0 {
      var prev := SortPrefix(keys, n - 1);
      assert SortPrefix(keys, n) == Insert(keys, n - 1, prev);
      SortPrefixSelect(xs, keys, n - 1);
      InsertSelect(xs, keys, n - 1, prev);
      PrefixSnoc(xs, n);
    }
  }

  lemma PrefixSnoc<T>(xs: seq<T>, n: nat)
    requires 0 < n <= |xs|
    ensures multiset(xs[..n]) == multiset(xs[..n - 1]) + multiset{xs[n - 1]}
  {
    assert xs[..n] == xs[..n - 1] + [xs[n - 1]];
  }

  /** Reading `xs` in the sorted order rearranges it and loses nothing. */
  lemma OrderPermutes<T>(xs: seq<T>, keys: seq<real>)
    requires |xs| == |keys|
    ensures multiset(Select(xs, Order(keys))) == multiset(xs)
  {
    SortPrefixSelect(xs, keys, |keys|);
    assert xs[..|keys|] == xs;
  }

  /** The positions that precede `i` in the sorted copy: those with a larger
      key and those with an equal key earlier in the input. */
  function Ahead(keys: seq<real>, i: nat): set<nat>
    requires i < |keys|
  {
    set j: nat | j < |keys| && Precedes(keys, j, i)
  }

  /** The ordinal rule: the entry at sorted position `p` is preceded by exactly
      `p` positions, the ones with a larger key or an equal key and an earlier
      position. Its 1-based ordinal is `|Ahead| + 1`. */
  lemma OrdinalIsRank(keys: seq<real>, p: nat)
    requires p < |keys|
    ensures p == |Ahead(keys, Order(keys)[p])|
  {
    var order := Order(keys);
    var i := order[p];
    OrderIsStableSort(keys);
    var before := set q | 0 <= q < p :: order[q];
    assert before == Ahead(keys, i) by {
      forall j | j in Ahead(keys, i) ensures j in before {
        assert j in multiset(Range(|keys|)) by {
          assert Range(|keys|)[j] == j;
        }
        assert j in multiset(order);
        var q :| 0 <= q < |order| && order[q] == j;
        assert q < p;
      }
    }
    DistinctPrefix(keys, order, p);
  }

  /** A sorted order has no repeated entries, so its first `p` entries are
      `p` distinct positions. */
  lemma {:induction false} DistinctPrefix(keys: seq<real>, order: seq<nat>, p: nat)
    requires InRange(order, |keys|) && SortedBy(keys, order) && p <= |order|
    ensures |set q | 0 <= q < p :: order[q]| == p
  {
    if p > 0 {
      DistinctPrefix(keys, order, p - 1);
      var smaller := set q | 0 <= q < p - 1 :: order[q];
      var larger := set q | 0 <= q < p :: order[q];
      assert larger == smaller + {order[p - 1]};
      assert order[p - 1] !in smaller;
    }
  }
}
