/** Generic facts about sequences: duplicate-free sequences, order-preserving filters and first maxima. */
module Sequences {

  /** No element occurs twice in `s`. */
  predicate NoDups<T(==)>(s: seq<T>) {
    forall i, j :: 0 <= i < j < |s| ==> s[i] != s[j]
  }

  /** `a` and `b` have the same elements, possibly in different orders and numbers. */
  predicate SameElements<T(==)>(a: seq<T>, b: seq<T>) {
    && (forall i :: 0 <= i < |a| ==> a[i] in b)
    && (forall j :: 0 <= j < |b| ==> b[j] in a)
  }

  /** `r` can be obtained from `s` by deleting elements, keeping the order of the rest. */
  predicate IsSubsequence<T(==)>(r: seq<T>, s: seq<T>)
    decreases |s|
  {
    if r == [] then true
    else if s == [] then false
    else
      (r[|r| - 1] == s[|s| - 1] && IsSubsequence(r[..|r| - 1], s[..|s| - 1]))
      || IsSubsequence(r, s[..|s| - 1])
  }

  /** The distinct elements of `s`, each at the place of its first occurrence. */
  function Dedup<T(==)>(s: seq<T>): seq<T> {
    if s == [] then []
    else
      var r := Dedup(s[..|s| - 1]);
      if s[|s| - 1] in r then r else r + [s[|s| - 1]]
  }

  /** `Dedup(s)` holds each element of `s` exactly once. */
  lemma {:induction false} DedupSpec<T>(s: seq<T>)
    ensures NoDups(Dedup(s))
    ensures SameElements(Dedup(s), s)
  {
    if s != [] {
      var n := |s| - 1;
      DedupSpec(s[..n]);
      assert s == s[..n] + [s[n]];
    }
  }

  /** An element is among the distinct elements of `s` exactly when it occurs in `s`. */
  lemma {:induction false} DedupMember<T>(s: seq<T>, x: T)
    ensures x in Dedup(s) <==> x in s
  {
    if s != [] {
      var n := |s| - 1;
      DedupMember(s[..n], x);
      assert s == s[..n] + [s[n]];
    }
  }

  /** Extending a sequence by one element extends its distinct elements by that element
      exactly when it is new. */
  lemma DedupSnoc<T>(s: seq<T>, x: T)
    ensures Dedup(s + [x]) == if x in Dedup(s) then Dedup(s) else Dedup(s) + [x]
  {
    assert (s + [x])[..|s|] == s;
  }

  /** The elements `xs[i]` whose key `keys[i]` is `k`, in the order they have in `xs`. */
  function Select<T, K(==)>(xs: seq<T>, keys: seq<K>, k: K): seq<T>
    requires |xs| == |keys|
  {
    if xs == [] then []
    else
      var n := |xs| - 1;
      Select(xs[..n], keys[..n], k) + (if keys[n] == k then [xs[n]] else [])
  }

  /** `y` occurs in `xs` at a position whose key is `k`. */
  predicate OccursWithKey<T(==), K(==)>(xs: seq<T>, keys: seq<K>, k: K, y: T) {
    exists j :: 0 <= j < |xs| && j < |keys| && xs[j] == y && keys[j] == k
  }

  /** Every position whose key is `k` contributes its element to the selection. */
  lemma {:induction false} SelectComplete<T, K>(xs: seq<T>, keys: seq<K>, k: K)
    requires |xs| == |keys|
    ensures forall j :: 0 <= j < |xs| && keys[j] == k ==> xs[j] in Select(xs, keys, k)
  {
    if xs != [] {
      var n := |xs| - 1;
      SelectComplete(xs[..n], keys[..n], k);
      forall j | 0 <= j < n && keys[j] == k
        ensures xs[j] in Select(xs, keys, k)
      {
        assert xs[..n][j] == xs[j] && keys[..n][j] == k;
      }
    }
  }

  /** The `i`-th selected element comes from a position whose key is `k`. */
  lemma {:induction false} SelectSound<T, K>(xs: seq<T>, keys: seq<K>, k: K, i: nat)
    requires |xs| == |keys| && i < |Select(xs, keys, k)|
    ensures OccursWithKey(xs, keys, k, Select(xs, keys, k)[i])
  {
    var n := |xs| - 1;
    var p := Select(xs[..n], keys[..n], k);
    if i < |p| {
      SelectSound(xs[..n], keys[..n], k, i);
      var j :| 0 <= j < n && xs[..n][j] == p[i] && keys[..n][j] == k;
      assert xs[j] == Select(xs, keys, k)[i] && keys[j] == k;
    } else {
      assert xs[n] == Select(xs, keys, k)[i] && keys[n] == k;
    }
  }

  /** Exactly the elements at positions whose key is `k` are selected. */
  lemma SelectMembership<T, K>(xs: seq<T>, keys: seq<K>, k: K)
    requires |xs| == |keys|
    ensures forall j :: 0 <= j < |xs| && keys[j] == k ==> xs[j] in Select(xs, keys, k)
    ensures forall i :: 0 <= i < |Select(xs, keys, k)| ==>
      OccursWithKey(xs, keys, k, Select(xs, keys, k)[i])
  {
    SelectComplete(xs, keys, k);
    forall i | 0 <= i < |Select(xs, keys, k)|
      ensures OccursWithKey(xs, keys, k, Select(xs, keys, k)[i])
    {
      SelectSound(xs, keys, k, i);
    }
  }

  /** Selecting from a sequence extended by one element extends the selection by that
      element exactly when its key is `k`. */
  lemma SelectAppend<T, K>(xs: seq<T>, keys: seq<K>, x: T, c: K, k: K)
    requires |xs| == |keys|
    ensures Select(xs + [x], keys + [c], k) == Select(xs, keys, k) + (if c == k then [x] else [])
  {
    assert (xs + [x])[..|xs|] == xs;
    assert (keys + [c])[..|keys|] == keys;
  }

  /** Selecting keeps the order of `xs`. */
  lemma {:induction false} SelectIsSubsequence<T, K>(xs: seq<T>, keys: seq<K>, k: K)
    requires |xs| == |keys|
    ensures IsSubsequence(Select(xs, keys, k), xs)
  {
    if xs != [] {
      var n := |xs| - 1;
      var r := Select(xs[..n], keys[..n], k);
      SelectIsSubsequence(xs[..n], keys[..n], k);
      if keys[n] == k {
        assert (r + [xs[n]])[..|r|] == r;
      } else {
        assert Select(xs, keys, k) == r;
      }
    }
  }

  /** As many elements are selected as there are occurrences of `k` among the keys. */
  lemma {:induction false} SelectLength<T, K>(xs: seq<T>, keys: seq<K>, k: K)
    requires |xs| == |keys|
    ensures |Select(xs, keys, k)| == multiset(keys)[k]
  {
    if xs != [] {
      var n := |xs| - 1;
      SelectLength(xs[..n], keys[..n], k);
      assert keys == keys[..n] + [keys[n]];
    }
  }

  /** Selecting from a duplicate-free sequence gives a duplicate-free sequence. */
  lemma {:induction false} SelectNoDups<T, K>(xs: seq<T>, keys: seq<K>, k: K)
    requires |xs| == |keys| && NoDups(xs)
    ensures NoDups(Select(xs, keys, k))
  {
    if xs != [] {
      var n := |xs| - 1;
      assert NoDups(xs[..n]);
      SelectNoDups(xs[..n], keys[..n], k);
      if keys[n] == k {
        var r := Select(xs[..n], keys[..n], k);
        SelectMembership(xs[..n], keys[..n], k);
        forall i | 0 <= i < |r|
          ensures r[i] != xs[n]
        {
          var j :| 0 <= j < n && xs[..n][j] == r[i] && keys[..n][j] == k;
          assert xs[j] == r[i];
        }
        assert xs[n] !in r;
        assert Select(xs, keys, k) == r + [xs[n]];
      }
    }
  }

  /** Two key sequences that agree on which positions carry `k` select the same elements. */
  lemma {:induction false} SelectSameMatches<T, K>(xs: seq<T>, keys1: seq<K>, keys2: seq<K>, k: K)
    requires |xs| == |keys1| == |keys2|
    requires forall i :: 0 <= i < |xs| ==> (keys1[i] == k <==> keys2[i] == k)
    ensures Select(xs, keys1, k) == Select(xs, keys2, k)
  {
    if xs != [] {
      var n := |xs| - 1;
      SelectSameMatches(xs[..n], keys1[..n], keys2[..n], k);
    }
  }

  /** `counts` maps each element of `keys` to its number of occurrences there, and `order`
      lists the elements of `keys` in the order in which each first occurs: a dictionary
      of tallies together with its insertion-ordered keys. */
  ghost predicate IsTally<K>(keys: seq<K>, counts: map<K, nat>, order: seq<K>) {
    && order == Dedup(keys)
    && (forall k :: k in counts ==> k in order)
    && (forall k :: k in order ==> k in counts)
    && (forall k :: k in counts ==> counts[k] == multiset(keys)[k])
  }

  /** Counting one more key `k` adds `k` to the keys of the tally, and nothing else. */
  lemma TallyKeysStep<K>(counts: map<K, nat>, order: seq<K>, k: K)
    requires forall x :: x in counts <==> x in order
    ensures var c := counts[k := (if k in counts then counts[k] else 0) + 1];
            var o := if k in order then order else order + [k];
            forall x :: x in c <==> x in o
  {
  }

  /** Counting one more occurrence of `k` raises the count of `k` by one and keeps every
      other count. */
  lemma TallyCountsStep<K>(keys: seq<K>, counts: map<K, nat>, k: K)
    requires forall x :: x in counts ==> counts[x] == multiset(keys)[x]
    requires k !in counts ==> k !in keys
    ensures var c := counts[k := (if k in counts then counts[k] else 0) + 1];
            forall x :: x in c ==> c[x] == multiset(keys + [k])[x]
  {
    var c := counts[k := (if k in counts then counts[k] else 0) + 1];
    assert multiset(keys + [k]) == multiset(keys) + multiset{k};
    forall x | x in c
      ensures c[x] == multiset(keys + [k])[x]
    {
      if x != k {
        assert c[x] == counts[x];
      }
    }
  }

  /** Counting one more key keeps the tally: its count goes up by one, and it is added to
      the order when it has not been seen before. */
  lemma TallyStep<K>(keys: seq<K>, counts: map<K, nat>, order: seq<K>, k: K)
    requires IsTally(keys, counts, order)
    ensures IsTally(keys + [k], counts[k := (if k in counts then counts[k] else 0) + 1],
                    if k in order then order else order + [k])
  {
    DedupSnoc(keys, k);
    DedupMember(keys, k);
    TallyKeysStep(counts, order, k);
    TallyCountsStep(keys, counts, k);
  }

  /** For each key of `order`, whether its count exceeds `t`. */
  function Exceeds<K>(counts: map<K, nat>, order: seq<K>, t: nat): (r: seq<bool>)
    requires forall k :: k in order ==> k in counts
    ensures |r| == |order|
    ensures forall j :: 0 <= j < |order| ==> r[j] == (counts[order[j]] > t)
  {
    if order == [] then []
    else
      var n := |order| - 1;
      Exceeds(counts, order[..n], t) + [counts[order[n]] > t]
  }

  /** Keeping, in insertion order, the tallied keys whose count exceeds `t` keeps each
      distinct key exactly when it occurs more than `t` times, once, in first-occurrence
      order. */
  lemma SelectAboveThreshold<T>(keys: seq<T>, counts: map<T, nat>, order: seq<T>, t: nat)
    requires IsTally(keys, counts, order)
    ensures NoDups(Select(order, Exceeds(counts, order, t), true))
    ensures IsSubsequence(Select(order, Exceeds(counts, order, t), true), order)
    ensures forall x :: x in Select(order, Exceeds(counts, order, t), true) <==> multiset(keys)[x] > t
  {
    var above := Exceeds(counts, order, t);
    var result := Select(order, above, true);
    DedupSpec(keys);
    SelectMembership(order, above, true);
    SelectIsSubsequence(order, above, true);
    SelectNoDups(order, above, true);
    forall x
      ensures x in result <==> multiset(keys)[x] > t
    {
      if multiset(keys)[x] > t {
        assert x in keys;
        DedupMember(keys, x);
        var j :| 0 <= j < |order| && order[j] == x;
        assert above[j];
      }
      if x in result {
        var i :| 0 <= i < |result| && result[i] == x;
        var j :| 0 <= j < |order| && j < |above| && order[j] == x && above[j] == true;
      }
    }
  }

  /** The index of the first largest key, the one a left-to-right scan returns when it
      replaces its candidate only on a strictly larger key. */
  function FirstArgMax(keys: seq<nat>): (i: nat)
    requires |keys| > 0
    ensures i < |keys|
    ensures forall j :: 0 <= j < |keys| ==> keys[j] <= keys[i]
    ensures forall j :: 0 <= j < i ==> keys[j] < keys[i]
  {
    if |keys| == 1 then 0
    else
      var n := |keys| - 1;
      var i := FirstArgMax(keys[..n]);
      if keys[n] > keys[i] then n else i
  }
}
