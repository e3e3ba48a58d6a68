/** Generic sequence operations that mirror the JavaScript array methods the
    tab list, the bookmark list and the drag-and-drop reordering rely on:
    `map`, `filter`, `find` and the two uses of `splice`. */
module Seqs {
  import opened Wrappers

  /** `xs.map(f)`: same length, each element transformed in place. */
  function Map<A, B>(f: A -> B, xs: seq<A>): (r: seq<B>)
    ensures |r| == |xs|
    ensures forall i :: 0 <= i < |xs| ==> r[i] == f(xs[i])
  {
    if |xs| == 0 then [] else [f(xs[0])] + Map(f, xs[1..])
  }

  /** `xs.filter(p)`: the elements satisfying `p`, in their original order. */
  function Filter<T>(p: T -> bool, xs: seq<T>): (r: seq<T>)
    ensures |r| <= |xs|
    ensures forall i :: 0 <= i < |r| ==> r[i] in xs && p(r[i])
    ensures forall i :: 0 <= i < |xs| && p(xs[i]) ==> xs[i] in r
  {
    if |xs| == 0 then [] else (if p(xs[0]) then [xs[0]] else []) + Filter(p, xs[1..])
  }

  /** The number of elements satisfying `p`. */
  function Count<T>(p: T -> bool, xs: seq<T>): (n: nat)
    ensures n <= |xs|
  {
    if |xs| == 0 then 0 else (if p(xs[0]) then 1 else 0) + Count(p, xs[1..])
  }

  /** No element satisfies `p` exactly when the count is zero. */
  lemma {:induction false} CountZero<T>(p: T -> bool, xs: seq<T>)
    ensures Count(p, xs) == 0 <==> forall i :: 0 <= i < |xs| ==> !p(xs[i])
  {
    if |xs| > 0 {
      CountZero(p, xs[1..]);
      assert forall i :: 1 <= i < |xs| ==> xs[i] == xs[1..][i - 1];
    }
  }

  /** The search behind `xs.find(p)`, with "not found" as `None`: the first
      index whose element satisfies `p`. */
  function FirstIndex<T>(p: T -> bool, xs: seq<T>): (r: Option<nat>)
    ensures r.None? <==> forall i :: 0 <= i < |xs| ==> !p(xs[i])
    ensures r.Some? ==> r.value < |xs| && p(xs[r.value])
    ensures r.Some? ==> forall j :: 0 <= j < r.value ==> !p(xs[j])
  {
    if |xs| == 0 then None
    else if p(xs[0]) then Some(0)
    else
      match FirstIndex(p, xs[1..])
      case None =>
        assert forall i :: 1 <= i < |xs| ==> xs[i] == xs[1..][i - 1];
        None
      case Some(k) => Some(k + 1)
  }

  /** `xs.find(p)`: the first element satisfying `p`, if any. */
  function Find<T>(p: T -> bool, xs: seq<T>): (r: Option<T>)
    ensures r.None? <==> forall i :: 0 <= i < |xs| ==> !p(xs[i])
    ensures r.Some? ==> exists i :: 0 <= i < |xs| && xs[i] == r.value && p(xs[i])
                                    && forall j :: 0 <= j < i ==> !p(xs[j])
  {
    match FirstIndex(p, xs)
    case None => None
    case Some(i) => Some(xs[i])
  }

  /** `xs.splice(i, 1)`: the sequence without its element at `i`. */
  function RemoveAt<T>(xs: seq<T>, i: nat): (r: seq<T>)
    requires i < |xs|
    ensures |r| == |xs| - 1
    ensures forall j {:trigger r[j]} :: 0 <= j < i ==> r[j] == xs[j]
    ensures forall j {:trigger r[j]} :: i <= j < |r| ==> r[j] == xs[j + 1]
    ensures multiset(r) + multiset{xs[i]} == multiset(xs)
  {
    assert xs == xs[..i] + [xs[i]] + xs[i + 1..];
    xs[..i] + xs[i + 1..]
  }

  /** `xs.splice(i, 0, x)`: the sequence with `x` inserted before index `i`. */
  function InsertAt<T>(xs: seq<T>, i: nat, x: T): (r: seq<T>)
    requires i <= |xs|
    ensures |r| == |xs| + 1
    ensures r[i] == x
    ensures forall j {:trigger r[j]} :: 0 <= j < i ==> r[j] == xs[j]
    ensures forall j {:trigger r[j]} :: i < j <= |xs| ==> r[j] == xs[j - 1]
    ensures multiset(r) == multiset(xs) + multiset{x}
  {
    assert xs == xs[..i] + xs[i..];
    xs[..i] + [x] + xs[i..]
  }

  lemma {:induction false} FilterConcat<T>(p: T -> bool, a: seq<T>, b: seq<T>)
    ensures Filter(p, a + b) == Filter(p, a) + Filter(p, b)
  {
    if |a| == 0 {
      assert a + b == b;
    } else {
      assert (a + b)[1..] == a[1..] + b;
      FilterConcat(p, a[1..], b);
    }
  }

  /** Filtering keeps a sequence whose every element passes. */
  lemma {:induction false} FilterAllKept<T>(p: T -> bool, xs: seq<T>)
    ensures (forall i :: 0 <= i < |xs| ==> p(xs[i])) ==> Filter(p, xs) == xs
  {
    if |xs| > 0 && forall i :: 0 <= i < |xs| ==> p(xs[i]) {
      assert forall i :: 0 <= i < |xs| - 1 ==> xs[1..][i] == xs[i + 1];
      FilterAllKept(p, xs[1..]);
      assert [xs[0]] + xs[1..] == xs;
    }
  }

  lemma {:induction false} CountConcat<T>(p: T -> bool, a: seq<T>, b: seq<T>)
    ensures Count(p, a + b) == Count(p, a) + Count(p, b)
  {
    if |a| == 0 {
      assert a + b == b;
    } else {
      assert (a + b)[1..] == a[1..] + b;
      CountConcat(p, a[1..], b);
    }
  }

  lemma {:induction false} CountFilter<T>(p: T -> bool, q: T -> bool, xs: seq<T>)
    ensures Count(p, Filter(q, xs)) <= Count(p, xs)
  {
    if |xs| > 0 {
      CountFilter(p, q, xs[1..]);
      CountConcat(p, if q(xs[0]) then [xs[0]] else [], Filter(q, xs[1..]));
    }
  }

  /** Two element-wise transforms that agree on `p` after `f` and `q` before
      it keep the same count. */
  lemma {:induction false} CountMap<A, B>(p: B -> bool, f: A -> B, q: A -> bool, xs: seq<A>)
    requires forall i :: 0 <= i < |xs| ==> p(f(xs[i])) == q(xs[i])
    ensures Count(p, Map(f, xs)) == Count(q, xs)
  {
    if |xs| > 0 {
      assert forall i :: 0 <= i < |xs| - 1 ==> xs[1..][i] == xs[i + 1];
      CountMap(p, f, q, xs[1..]);
      assert Map(f, xs)[1..] == Map(f, xs[1..]);
    }
  }

  /** When exactly one position satisfies `p`, the count is one. */
  lemma CountOnlyAt<T>(p: T -> bool, xs: seq<T>, k: nat)
    requires k < |xs| && p(xs[k])
    requires forall j :: 0 <= j < |xs| && j != k ==> !p(xs[j])
    ensures Count(p, xs) == 1
  {
    SplitAt(xs, k);
    CountSplice(p, xs[..k], xs[k + 1..], xs[k]);
    CountConcat(p, xs[..k], xs[k + 1..]);
    assert forall j :: 0 <= j < k ==> xs[..k][j] == xs[j];
    CountZero(p, xs[..k]);
    CountZero(p, xs[k + 1..]);
  }

  /** Two distinct positions satisfying `p` make the count at least two. */
  lemma CountTwo<T>(p: T -> bool, xs: seq<T>, i: nat, j: nat)
    requires i < j < |xs| && p(xs[i]) && p(xs[j])
    ensures Count(p, xs) >= 2
  {
    SplitAt(xs, j);
    CountSplice(p, xs[..j], xs[j + 1..], xs[j]);
    CountConcat(p, xs[..j], xs[j + 1..]);
    assert xs[..j][i] == xs[i];
    CountZero(p, xs[..j]);
  }

  /** A sequence is its prefix, its element at `i` and its suffix. */
  lemma SplitAt<T>(xs: seq<T>, i: nat)
    requires i < |xs|
    ensures xs[..i] + [xs[i]] + xs[i + 1..] == xs
  {
  }

  /** Inserting one element adds its own contribution to the count. */
  lemma CountSplice<T>(p: T -> bool, a: seq<T>, b: seq<T>, x: T)
    ensures Count(p, a + [x] + b) == Count(p, a + b) + (if p(x) then 1 else 0)
  {
    CountConcat(p, a, b);
    CountConcat(p, a + [x], b);
    CountConcat(p, a, [x]);
    CountSingleton(p, x);
  }

  lemma CountSingleton<T>(p: T -> bool, x: T)
    ensures Count(p, [x]) == if p(x) then 1 else 0
  {
    assert [x][1..] == [];
  }

  /** Inserting and then removing at the same index is the identity. */
  lemma RemoveInsert<T>(xs: seq<T>, i: nat, x: T)
    requires i <= |xs|
    ensures RemoveAt(InsertAt(xs, i, x), i) == xs
  {
    var r := RemoveAt(InsertAt(xs, i, x), i);
    assert forall j :: 0 <= j < |xs| ==> r[j] == xs[j];
  }

  /** Removing an element and reinserting it where it was is the identity. */
  lemma InsertRemove<T>(xs: seq<T>, i: nat)
    requires i < |xs|
    ensures InsertAt(RemoveAt(xs, i), i, xs[i]) == xs
  {
    var r := InsertAt(RemoveAt(xs, i), i, xs[i]);
    assert forall j :: 0 <= j < |xs| ==> r[j] == xs[j];
  }
}
