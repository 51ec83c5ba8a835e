/** Small value types shared by every module of the model. */
module Common {
  import opened Numeric

  /** Python's `None`/value pair, and the `np.nan` of numeric columns. */
  datatype Option<+T> = None | Some(value: T)

  /**
   * An insertion-ordered dictionary, as Python's `dict` is: assigning to a key
   * that is already present keeps its position, a new key goes to the end.
   */
  datatype Dict<K, V> = Dict(keys: seq<K>, vals: map<K, V>)

  predicate Distinct<T(==)>(s: seq<T>)
  {
    forall i, j :: 0 <= i < j < |s| ==> s[i] != s[j]
  }

  predicate WellFormed<K(==), V>(d: Dict<K, V>)
  {
    Distinct(d.keys) && d.vals.Keys == set k | k in d.keys
  }

  function EmptyDict<K(==), V>(): (d: Dict<K, V>)
    ensures WellFormed(d) && d.keys == []
  {
    Dict([], map[])
  }

  lemma KeyIn<K, V>(d: Dict<K, V>, i: int)
    requires WellFormed(d) && 0 <= i < |d.keys|
    ensures d.keys[i] in d.vals
  {
    assert d.keys[i] in d.keys;
  }

  /** `d[k] = v` */
  function Put<K(==), V>(d: Dict<K, V>, k: K, v: V): (r: Dict<K, V>)
    requires WellFormed(d)
    ensures WellFormed(r)
    ensures r.vals == d.vals[k := v]
    ensures k in d.vals ==> r.keys == d.keys
    ensures k !in d.vals ==> r.keys == d.keys + [k]
  {
    if k in d.vals then Dict(d.keys, d.vals[k := v]) else Dict(d.keys + [k], d.vals[k := v])
  }

  function Sum(s: seq<real>): real
  {
    if s == [] then 0.0 else Sum(s[..|s| - 1]) + s[|s| - 1]
  }

  /** Python's builtin `min` over a non-empty list. */
  function MinOf(s: seq<real>): (m: real)
    requires s != []
    ensures m in s
    ensures forall x :: x in s ==> m <= x
  {
    if |s| == 1 then s[0]
    else
      var m := MinOf(s[..|s| - 1]);
      assert forall x :: x in s ==> x in s[..|s| - 1] || x == s[|s| - 1];
      if s[|s| - 1] < m then s[|s| - 1] else m
  }

  /** The minimum never exceeds the mean: `|s| * min(s) <= sum(s)`. */
  lemma {:induction false} MinTimesCountAtMostSum(s: seq<real>)
    requires s != []
    ensures |s| as real * MinOf(s) <= Sum(s)
  {
    if |s| > 1 {
      var init := s[..|s| - 1];
      MinTimesCountAtMostSum(init);
      var m, mi, x := MinOf(s), MinOf(init), s[|s| - 1];
      assert m == if x < mi then x else mi;
      assert Sum(s) == Sum(init) + x;
      CountStep(|s| as real, |init| as real, m, mi, x, Sum(init));
    }
  }

  /** The arithmetic of one induction step: adding one element no smaller than the minimum. */
  lemma CountStep(n: real, k: real, m: real, mi: real, x: real, total: real)
    requires n == k + 1.0 && k >= 0.0 && m <= mi && m <= x && k * mi <= total
    ensures n * m <= total + x
  {
    MulNonNegative(k, mi - m);
  }

  lemma SumAppend(a: seq<real>, b: seq<real>)
    ensures Sum(a + b) == Sum(a) + Sum(b)
  {
    if b != [] {
      assert (a + b)[..|a + b| - 1] == a + b[..|b| - 1];
      SumAppend(a, b[..|b| - 1]);
    } else {
      assert a + b == a;
    }
  }

  /** `a` is `b` with some elements left out, the rest kept in order. */
  predicate IsSubsequence<T(==)>(a: seq<T>, b: seq<T>)
    decreases |b|
  {
    if a == [] then true
    else if b == [] then false
    else
      || (a[|a| - 1] == b[|b| - 1] && IsSubsequence(a[..|a| - 1], b[..|b| - 1]))
      || IsSubsequence(a, b[..|b| - 1])
  }

  lemma {:induction false} SubsequenceMembers<T>(a: seq<T>, b: seq<T>)
    requires IsSubsequence(a, b)
    ensures forall x :: x in a ==> x in b
    decreases |b|
  {
    if a != [] {
      if a[|a| - 1] == b[|b| - 1] && IsSubsequence(a[..|a| - 1], b[..|b| - 1]) {
        SubsequenceMembers(a[..|a| - 1], b[..|b| - 1]);
        assert forall x :: x in a ==> x in a[..|a| - 1] || x == a[|a| - 1];
      } else {
        SubsequenceMembers(a, b[..|b| - 1]);
      }
    }
  }

  lemma SubsequenceExtend<T>(a: seq<T>, b: seq<T>, x: T)
    requires IsSubsequence(a, b)
    ensures IsSubsequence(a, b + [x])
    ensures IsSubsequence(a + [x], b + [x])
  {
    assert (b + [x])[..|b + [x]| - 1] == b;
    assert (a + [x])[..|a + [x]| - 1] == a;
  }

  /** The elements of `s` whose index satisfies `keep`, in their original order. */
  function Select<T>(s: seq<T>, keep: int -> bool): seq<T>
  {
    if s == [] then []
    else Select(s[..|s| - 1], keep) + (if keep(|s| - 1) then [s[|s| - 1]] else [])
  }

  /** The indices below `n` that satisfy `keep`, ascending. */
  function SelectedIndices(n: nat, keep: int -> bool): seq<int>
  {
    if n == 0 then []
    else SelectedIndices(n - 1, keep) + (if keep(n - 1) then [n - 1] else [])
  }

  /**
   * `Select` keeps exactly the elements whose index passes `keep`, each once
   * and in the order of `s`: element k of the result is `s` at the k-th
   * passing index.
   */
  lemma {:induction false} SelectExactly<T>(s: seq<T>, keep: int -> bool)
    ensures var idx := SelectedIndices(|s|, keep);
      && |Select(s, keep)| == |idx|
      && (forall k :: 0 <= k < |idx| ==> 0 <= idx[k] < |s| && Select(s, keep)[k] == s[idx[k]])
      && (forall a, b :: 0 <= a < b < |idx| ==> idx[a] < idx[b])
      && (forall i :: i in idx <==> 0 <= i < |s| && keep(i))
  {
    if s != [] {
      var init := s[..|s| - 1];
      SelectExactly(init, keep);
      assert |init| == |s| - 1;
      var idx0 := SelectedIndices(|init|, keep);
      assert forall k :: 0 <= k < |idx0| ==> init[idx0[k]] == s[idx0[k]];
    }
  }

  /** The selected elements form a subsequence of the input. */
  lemma {:induction false} SelectIsSubsequence<T>(s: seq<T>, keep: int -> bool)
    ensures IsSubsequence(Select(s, keep), s)
  {
    if s != [] {
      var init := s[..|s| - 1];
      SelectIsSubsequence(init, keep);
      assert init + [s[|s| - 1]] == s;
      SubsequenceExtend(Select(init, keep), init, s[|s| - 1]);
      if !keep(|s| - 1) {
        assert Select(s, keep) == Select(init, keep);
      }
    }
  }
}
