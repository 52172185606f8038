/**
 Small facts about the Python lists the solver manipulates: ordering,
 duplicates, membership-preserving filtering, and `list.remove`, which
 deletes only the first occurrence of a value.
 */
module Lists {

  predicate StrictlyAscending(xs: seq<int>) {
    forall i, j :: 0 <= i < j < |xs| ==> xs[i] < xs[j]
  }

  predicate NoDup(xs: seq<int>) {
    forall i, j :: 0 <= i < j < |xs| ==> xs[i] != xs[j]
  }

  /** `xs` with every occurrence of `v` dropped, the rest in their original order. */
  function Without(xs: seq<int>, v: int): (r: seq<int>)
    ensures forall x :: x in r <==> x in xs && x != v
    ensures |r| <= |xs|
    ensures v !in xs ==> r == xs
  {
    if |xs| == 0 then []
    else (if xs[0] == v then [] else [xs[0]]) + Without(xs[1..], v)
  }

  /** Position of the first occurrence of `v` in `xs`. */
  function FirstIndex(xs: seq<int>, v: int): (i: nat)
    requires v in xs
    ensures i < |xs| && xs[i] == v && v !in xs[..i]
  {
    if xs[0] == v then 0
    else
      var i := FirstIndex(xs[1..], v);
      assert xs[..i + 1] == [xs[0]] + xs[1..][..i];
      i + 1
  }

  /** Python's `xs.remove(v)`: delete the first occurrence of `v`. The
      solver only calls it after checking `v in xs`. */
  function RemoveFirst(xs: seq<int>, v: int): (r: seq<int>)
    requires v in xs
    ensures |r| == |xs| - 1
    ensures multiset(r) + multiset{v} == multiset(xs)
    ensures exists i :: 0 <= i < |xs| && xs[i] == v && v !in xs[..i] && r == xs[..i] + xs[i + 1..]
  {
    var i := FirstIndex(xs, v);
    assert xs == xs[..i] + [v] + xs[i + 1..];
    xs[..i] + xs[i + 1..]
  }

  lemma {:induction false} WithoutAppend(xs: seq<int>, ys: seq<int>, v: int)
    ensures Without(xs + ys, v) == Without(xs, v) + Without(ys, v)
  {
    if |xs| > 0 {
      assert (xs + ys)[1..] == xs[1..] + ys;
      WithoutAppend(xs[1..], ys, v);
    } else {
      assert xs + ys == ys;
    }
  }

  lemma AscendingHasNoDup(xs: seq<int>)
    requires StrictlyAscending(xs)
    ensures NoDup(xs)
  {
  }

  /** On a list without duplicates, `list.remove` is the same as filtering the value out. */
  lemma RemoveFirstOfDistinct(xs: seq<int>, v: int)
    requires NoDup(xs) && v in xs
    ensures RemoveFirst(xs, v) == Without(xs, v)
  {
    var i := FirstIndex(xs, v);
    var pre, tail := xs[..i], xs[i + 1..];
    assert xs == pre + ([v] + tail);
    NotAfterFirst(xs, i);
    WithoutSplit(pre, tail, v);
  }

  lemma WithoutSplit(pre: seq<int>, tail: seq<int>, v: int)
    requires v !in pre && v !in tail
    ensures Without(pre + ([v] + tail), v) == pre + tail
  {
    WithoutAppend(pre, [v] + tail, v);
    WithoutAppend([v], tail, v);
    assert Without([v], v) == [] by {
      assert [v][1..] == [];
    }
    assert Without(pre, v) == pre;
    assert Without(tail, v) == tail;
    assert Without([v] + tail, v) == tail;
  }

  /** In a list without duplicates, the value at `i` does not occur after `i`. */
  lemma NotAfterFirst(xs: seq<int>, i: nat)
    requires NoDup(xs) && i < |xs|
    ensures xs[i] !in xs[i + 1..]
  {
    var tail := xs[i + 1..];
    forall j | 0 <= j < |tail| ensures tail[j] != xs[i] {
      assert tail[j] == xs[i + 1 + j];
    }
  }

  /** Filtering keeps a list free of duplicates. */
  lemma {:induction false} WithoutKeepsNoDup(xs: seq<int>, v: int)
    requires NoDup(xs)
    ensures NoDup(Without(xs, v))
  {
    if |xs| > 0 {
      WithoutKeepsNoDup(xs[1..], v);
      assert xs[0] !in xs[1..];
    }
  }
}
