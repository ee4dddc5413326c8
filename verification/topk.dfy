/** The selection ArgMax performs with `std::partial_sort` under
    `std::greater<std::pair<float, int>>`: the k largest (value, index) pairs,
    largest first. */
module TopK {

  /** A (value, index) pair. */
  datatype Entry = Entry(value: int, index: int)

  /** `std::greater` on pairs: larger value first, and among equal values the
      larger index first. The contract restates it the way `std::pair`
      defines `b < a`, through `<` on each component. */
  predicate Greater(a: Entry, b: Entry)
    ensures Greater(a, b) <==> b.value < a.value || (!(a.value < b.value) && b.index < a.index)
  {
    a.value > b.value || (a.value == b.value && a.index > b.index)
  }

  /** `Greater` is a strict total order on pairs: irreflexive, asymmetric,
      transitive, and it ranks any two distinct pairs. */
  lemma GreaterIsStrictTotal(a: Entry, b: Entry, c: Entry)
    ensures !Greater(a, a)
    ensures Greater(a, b) ==> !Greater(b, a)
    ensures Greater(a, b) && Greater(b, c) ==> Greater(a, c)
    ensures a != b ==> Greater(a, b) || Greater(b, a)
  {
  }

  /** The pairs the layer sorts: every input element with its flat index. */
  function Pairs(xs: seq<int>): (vec: seq<Entry>)
    ensures |vec| == |xs|
    ensures forall i :: 0 <= i < |xs| ==> vec[i] == Entry(xs[i], i)
    ensures Distinct(vec)
  {
    seq(|xs|, i requires 0 <= i < |xs| => Entry(xs[i], i))
  }

  /** `top` lists pairs of `vec` in strictly decreasing order, and every pair of
      `vec` it leaves out is smaller than all of them: `top` is the prefix
      `partial_sort` leaves in place. */
  predicate IsTopK(vec: seq<Entry>, top: seq<Entry>) {
    && (forall t :: 0 <= t < |top| ==> top[t] in vec)
    && (forall s, t :: 0 <= s < t < |top| ==> Greater(top[s], top[t]))
    && (forall e, t :: e in vec && e !in top && 0 <= t < |top| ==> Greater(top[t], e))
  }

  predicate Distinct(vec: seq<Entry>) {
    forall i, j :: 0 <= i < j < |vec| ==> vec[i] != vec[j]
  }

  /** The position in `rest` of its greatest pair. */
  method Best(rest: seq<Entry>) returns (m: nat)
    requires |rest| > 0
    ensures m < |rest|
    ensures forall r :: 0 <= r < |rest| && rest[r] != rest[m] ==> Greater(rest[m], rest[r])
  {
    m := 0;
    for r := 1 to |rest|
      invariant m < r
      invariant forall k :: 0 <= k < r && rest[k] != rest[m] ==> Greater(rest[m], rest[k])
    {
      if Greater(rest[r], rest[m]) {
        m := r;
      }
    }
  }

  /** Midway through the selection: `top` is sorted, drawn from `vec` and
      above every pair still in `rest`, and `top` and `rest` split `vec`. */
  predicate Selecting(vec: seq<Entry>, top: seq<Entry>, rest: seq<Entry>) {
    && |top| + |rest| == |vec|
    && Distinct(rest)
    && (forall r :: 0 <= r < |rest| ==> rest[r] in vec && rest[r] !in top)
    && (forall e :: e in vec ==> e in top || e in rest)
    && (forall t :: 0 <= t < |top| ==> top[t] in vec)
    && (forall s, t :: 0 <= s < t < |top| ==> Greater(top[s], top[t]))
    && (forall t, r :: 0 <= t < |top| && 0 <= r < |rest| ==> Greater(top[t], rest[r]))
  }

  /** Moving the greatest remaining pair to the end of `top` keeps the
      selection going. */
  lemma SelectNext(vec: seq<Entry>, top: seq<Entry>, rest: seq<Entry>, m: nat)
    requires Selecting(vec, top, rest) && m < |rest|
    requires forall r :: 0 <= r < |rest| && rest[r] != rest[m] ==> Greater(rest[m], rest[r])
    ensures Selecting(vec, top + [rest[m]], rest[..m] + rest[m + 1..])
  {
    var best := rest[m];
    var rest' := rest[..m] + rest[m + 1..];
    Removed(rest, m);
    assert forall t :: 0 <= t < |top| ==> Greater(top[t], best);
    assert forall e :: e in vec ==> e in top + [best] || e in rest';
  }

  /** Removing position `m` of a sequence of distinct pairs keeps every other
      pair, in order, and drops exactly that one. */
  lemma Removed(rest: seq<Entry>, m: nat)
    requires m < |rest| && Distinct(rest)
    ensures var rest' := rest[..m] + rest[m + 1..];
      && |rest'| == |rest| - 1
      && (forall r :: 0 <= r < |rest'| ==> rest'[r] == (if r < m then rest[r] else rest[r + 1]))
      && (forall e :: e in rest ==> e == rest[m] || e in rest')
      && (forall r :: 0 <= r < |rest'| ==> rest'[r] in rest && rest'[r] != rest[m])
      && Distinct(rest')
  {
    var rest' := rest[..m] + rest[m + 1..];
    assert forall r :: 0 <= r < |rest'| ==> rest'[r] == (if r < m then rest[r] else rest[r + 1]);
    forall e | e in rest
      ensures e == rest[m] || e in rest'
    {
      var k :| 0 <= k < |rest| && rest[k] == e;
      if k < m {
        assert rest'[k] == e;
      } else if k > m {
        assert rest'[k - 1] == e;
      }
    }
  }

  /** `partial_sort(vec.begin(), vec.begin() + k, vec.end(), greater)`,
      returning the sorted prefix. `ArgMax::forward` leaves `k <= |vec|`
      to its caller. */
  method PartialSort(vec: seq<Entry>, k: nat) returns (top: seq<Entry>)
    requires k <= |vec| && Distinct(vec)
    ensures |top| == k
    ensures IsTopK(vec, top)
  {
    top := [];
    var rest := vec;
    while |top| < k
      invariant |top| <= k
      invariant Selecting(vec, top, rest)
      decreases k - |top|
    {
      var m := Best(rest);
      SelectNext(vec, top, rest, m);
      top := top + [rest[m]];
      rest := rest[..m] + rest[m + 1..];
    }
  }

  /** Entry `j` of a selection is at least entry `j` of another selection of
      the same pairs that agrees with it before `j`. */
  lemma NotBelow(vec: seq<Entry>, a: seq<Entry>, b: seq<Entry>, j: nat)
    requires IsTopK(vec, a) && IsTopK(vec, b) && |a| == |b| && j < |a|
    requires forall k :: 0 <= k < j ==> a[k] == b[k]
    ensures a[j] == b[j] || Greater(a[j], b[j])
  {
    forall k | 0 <= k < j
      ensures a[k] != b[j]
    {
      assert a[k] == b[k] && Greater(b[k], b[j]);
    }
    if b[j] in a {
      var m :| 0 <= m < |a| && a[m] == b[j];
      if m != j {
        assert Greater(a[j], a[m]);
      }
    }
  }

  /** A selection is determined by its length: `partial_sort`'s prefix is the
      one sequence of k pairs that satisfies `IsTopK`. */
  lemma {:induction false} TopKUnique(vec: seq<Entry>, a: seq<Entry>, b: seq<Entry>)
    requires IsTopK(vec, a) && IsTopK(vec, b) && |a| == |b|
    ensures a == b
  {
    var j := 0;
    while j < |a|
      invariant j <= |a|
      invariant forall k :: 0 <= k < j ==> a[k] == b[k]
    {
      NotBelow(vec, a, b, j);
      NotBelow(vec, b, a, j);
      j := j + 1;
    }
  }
}
