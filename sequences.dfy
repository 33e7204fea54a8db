/** Sequence helpers shared by the loaders and the engine. */
module Sequences {

  predicate Distinct<T(==)>(xs: seq<T>)
  {
    forall i, j :: 0 <= i < j < |xs| ==> xs[i] != xs[j]
  }

  /**
   * pandas' `Series.unique()` and the key order of a Python dict filled in a loop:
   * each value once, in order of first appearance.
   */
  function Unique<T(==,!new)>(xs: seq<T>): (u: seq<T>)
    ensures Distinct(u)
    ensures forall x :: x in u <==> x in xs
    ensures |u| <= |xs|
  {
    if |xs| == 0 then []
    else
      var p := Unique(xs[..|xs| - 1]);
      assert forall x :: x in xs <==> x in xs[..|xs| - 1] || x == xs[|xs| - 1];
      if xs[|xs| - 1] in p then p else p + [xs[|xs| - 1]]
  }

  /** `Unique` grows by the appended value exactly when it is new. */
  lemma UniqueSnoc<T(!new)>(xs: seq<T>, x: T)
    ensures Unique(xs + [x]) == if x in xs then Unique(xs) else Unique(xs) + [x]
  {
    assert (xs + [x])[..|xs|] == xs;
  }

  /** The last position of `x`: a later entry under one dict key replaces an earlier one. */
  function LastIndexOf<T(==)>(xs: seq<T>, x: T): (i: nat)
    requires x in xs
    ensures i < |xs| && xs[i] == x
    ensures forall j :: i < j < |xs| ==> xs[j] != x
  {
    var n := |xs| - 1;
    if xs[n] == x then n
    else
      assert x in xs[..n] by {
        var i :| 0 <= i < |xs| && xs[i] == x;
        assert xs[..n][i] == x;
      }
      LastIndexOf(xs[..n], x)
  }

  /** After appending `y`, `y`'s last position is the new one and every other value keeps its own. */
  lemma LastIndexOfSnoc<T>(xs: seq<T>, y: T)
    ensures LastIndexOf(xs + [y], y) == |xs|
    ensures forall x :: x in xs && x != y ==> LastIndexOf(xs + [y], x) == LastIndexOf(xs, x)
  {
    forall x | x in xs && x != y
      ensures LastIndexOf(xs + [y], x) == LastIndexOf(xs, x)
    {
      var i := LastIndexOf(xs + [y], x);
      var j := LastIndexOf(xs, x);
      assert (xs + [y])[j] == x;
    }
  }

  /**
   * A dict filled in a loop, `d[keys[i]] = vals[i]`: each key ends with the
   * value of its last entry.
   */
  function LastWins<K, V>(keys: seq<K>, vals: seq<V>): (m: map<K, V>)
    requires |keys| == |vals|
  {
    if |keys| == 0 then map[]
    else
      var n := |keys| - 1;
      LastWins(keys[..n], vals[..n])[keys[n] := vals[n]]
  }

  /** Filling one more entry. */
  lemma LastWinsSnoc<K, V>(keys: seq<K>, vals: seq<V>, k: K, v: V)
    requires |keys| == |vals|
    ensures LastWins(keys + [k], vals + [v]) == LastWins(keys, vals)[k := v]
  {
    assert (keys + [k])[..|keys|] == keys && (vals + [v])[..|vals|] == vals;
  }

  /** The dict holds exactly the keys, each with the value of its last entry. */
  lemma {:induction false} LastWinsMeaning<K, V>(keys: seq<K>, vals: seq<V>, k: K)
    requires |keys| == |vals|
    ensures k in LastWins(keys, vals) <==> k in keys
    ensures k in keys ==> LastWins(keys, vals)[k] == vals[LastIndexOf(keys, k)]
  {
    if |keys| > 0 {
      var n := |keys| - 1;
      LastWinsMeaning(keys[..n], vals[..n], k);
      assert keys == keys[..n] + [keys[n]];
      LastIndexOfSnoc(keys[..n], keys[n]);
    }
  }

  /** A Python dict: its entries, and its keys in insertion order. */
  datatype Dict<K, V> = Dict(order: seq<K>, entries: map<K, V>)

  /** `d[k] = v`: a new key goes to the end of the order, a known key keeps its place. */
  function Put<K, V>(d: Dict<K, V>, k: K, v: V): Dict<K, V>
  {
    Dict(if k in d.entries then d.order else d.order + [k], d.entries[k := v])
  }

  /** The dict that `for i: d[keys[i]] = vals[i]` fills, starting from `{}`. */
  function Filled<K, V>(keys: seq<K>, vals: seq<V>): Dict<K, V>
    requires |keys| == |vals|
  {
    if |keys| == 0 then Dict([], map[])
    else
      var n := |keys| - 1;
      Put(Filled(keys[..n], vals[..n]), keys[n], vals[n])
  }

  /** Filling one more entry is one more `Put`. */
  lemma FilledSnoc<K, V>(keys: seq<K>, vals: seq<V>, k: K, v: V)
    requires |keys| == |vals|
    ensures Filled(keys + [k], vals + [v]) == Put(Filled(keys, vals), k, v)
  {
    assert (keys + [k])[..|keys|] == keys && (vals + [v])[..|vals|] == vals;
  }

  /** The filled dict holds each key's last value, and its keys in order of first appearance. */
  lemma {:induction false} FilledMeaning<K(!new), V>(keys: seq<K>, vals: seq<V>)
    requires |keys| == |vals|
    ensures Filled(keys, vals).entries == LastWins(keys, vals)
    ensures Filled(keys, vals).order == Unique(keys)
  {
    if |keys| > 0 {
      var n := |keys| - 1;
      FilledMeaning(keys[..n], vals[..n]);
      LastWinsMeaning(keys[..n], vals[..n], keys[n]);
    }
  }

  /** `list(d.values())`. */
  function Values<K, V>(d: Dict<K, V>): (vs: seq<V>)
    requires forall i :: 0 <= i < |d.order| ==> d.order[i] in d.entries
    ensures |vs| == |d.order|
  {
    seq(|d.order|, i requires 0 <= i < |d.order| => d.entries[d.order[i]])
  }

  /**
   * The values of a filled dict: one per distinct key, in order of the key's
   * first appearance, each from the key's last entry.
   */
  lemma FilledValues<K(!new), V>(keys: seq<K>, vals: seq<V>)
    requires |keys| == |vals|
    ensures var d := Filled(keys, vals);
      && (forall i :: 0 <= i < |d.order| ==> d.order[i] in d.entries)
      && |Values(d)| == |Unique(keys)|
      && forall k :: 0 <= k < |Unique(keys)| ==> Values(d)[k] == vals[LastIndexOf(keys, Unique(keys)[k])]
  {
    FilledMeaning(keys, vals);
    var d := Filled(keys, vals);
    forall i | 0 <= i < |d.order|
      ensures d.order[i] in d.entries && d.entries[d.order[i]] == vals[LastIndexOf(keys, d.order[i])]
    {
      LastWinsMeaning(keys, vals, d.order[i]);
    }
  }

  /** Extending a prefix by one element. */
  lemma PrefixSnoc<T>(xs: seq<T>, i: nat)
    requires i < |xs|
    ensures xs[..i + 1] == xs[..i] + [xs[i]]
  {
  }

  /** The prefix of full length is the whole sequence. */
  lemma PrefixAll<T>(xs: seq<T>)
    ensures xs[..|xs|] == xs
  {
  }

  /** `list.index(x)`: the first position of `x`. */
  function FirstIndex<T(==)>(xs: seq<T>, x: T): (i: nat)
    requires x in xs
    ensures i < |xs| && xs[i] == x
    ensures forall k :: 0 <= k < i ==> xs[k] != x
  {
    if xs[0] == x then 0 else 1 + FirstIndex(xs[1..], x)
  }

  /** In a sequence without repeats, the first position of an element is its only one. */
  lemma FirstIndexOfDistinct<T>(xs: seq<T>, k: nat)
    requires Distinct(xs) && k < |xs|
    ensures FirstIndex(xs, xs[k]) == k
  {
  }

  /** `sum(xs)`. */
  function Sum(xs: seq<int>): int
  {
    if |xs| == 0 then 0 else Sum(xs[..|xs| - 1]) + xs[|xs| - 1]
  }

  lemma {:induction false} SumAppend(xs: seq<int>, ys: seq<int>)
    ensures Sum(xs + ys) == Sum(xs) + Sum(ys)
    decreases |ys|
  {
    if |ys| == 0 {
      assert xs + ys == xs;
    } else {
      assert (xs + ys)[..|xs + ys| - 1] == xs + ys[..|ys| - 1];
      SumAppend(xs, ys[..|ys| - 1]);
    }
  }

  /** The element-wise sum of two sequences of one length. */
  function Plus(xs: seq<int>, ys: seq<int>): (zs: seq<int>)
    requires |xs| == |ys|
    ensures |zs| == |xs|
    ensures forall k :: 0 <= k < |zs| ==> zs[k] == xs[k] + ys[k]
  {
    seq(|xs|, k requires 0 <= k < |xs| => xs[k] + ys[k])
  }

  /** Summing is linear: the sum of an element-wise sum is the sum of the sums. */
  lemma {:induction false} SumPlus(xs: seq<int>, ys: seq<int>)
    requires |xs| == |ys|
    ensures Sum(Plus(xs, ys)) == Sum(xs) + Sum(ys)
    decreases |xs|
  {
    if |xs| > 0 {
      var n := |xs| - 1;
      assert Plus(xs, ys)[..n] == Plus(xs[..n], ys[..n]);
      SumPlus(xs[..n], ys[..n]);
    }
  }

  /** A sum of terms each at most the matching term of another is at most that sum. */
  lemma {:induction false} SumMonotone(xs: seq<int>, ys: seq<int>)
    requires |xs| == |ys|
    requires forall k :: 0 <= k < |xs| ==> xs[k] <= ys[k]
    ensures Sum(xs) <= Sum(ys)
    decreases |xs|
  {
    if |xs| > 0 {
      SumMonotone(xs[..|xs| - 1], ys[..|ys| - 1]);
    }
  }

  /** Equal terms give equal sums. */
  lemma SumEqual(xs: seq<int>, ys: seq<int>)
    requires |xs| == |ys|
    requires forall k :: 0 <= k < |xs| ==> xs[k] == ys[k]
    ensures Sum(xs) == Sum(ys)
  {
    assert xs == ys;
  }

  /** A sum of non-negative terms is non-negative. */
  lemma {:induction false} SumNonNegative(xs: seq<int>)
    requires forall k :: 0 <= k < |xs| ==> xs[k] >= 0
    ensures Sum(xs) >= 0
    decreases |xs|
  {
    if |xs| > 0 {
      SumNonNegative(xs[..|xs| - 1]);
    }
  }
}
