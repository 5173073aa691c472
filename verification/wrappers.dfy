/** Failure-carrying wrappers shared by every module of the model. */
module Wrappers {

  /** A value that may be absent, Python's `None` included. */
  datatype Option<+T> = None | Some(value: T)

  /** The outcome of an operation that pb_tracker lets raise. */
  datatype Result<+T, +E> = Ok(value: T) | Err(error: E)

  /** The loop that appends `f(x)` for each `x` of `xs` that yields one,
      in order. */
  function FilterMap<A, B>(xs: seq<A>, f: A -> Option<B>): (ys: seq<B>)
    ensures |ys| <= |xs|
  {
    if xs == [] then []
    else
      var rest := FilterMap(xs[1..], f);
      match f(xs[0])
      case Some(y) => [y] + rest
      case None => rest
  }

  /** The list comprehension `[x for x in xs if keep(x)]`. */
  function Filter<T(!new)>(xs: seq<T>, keep: T -> bool): (ys: seq<T>)
    ensures |ys| <= |xs|
    ensures forall y :: y in ys <==> y in xs && keep(y)
  {
    if xs == [] then []
    else
      var rest := Filter(xs[1..], keep);
      assert forall y :: y in xs <==> y == xs[0] || y in xs[1..];
      if keep(xs[0]) then [xs[0]] + rest else rest
  }

  /** `Filter` keeps order and repetitions: it distributes over
      concatenation, so with its one-element cases it is fixed. */
  lemma {:induction false} FilterAppend<T(!new)>(a: seq<T>, b: seq<T>, keep: T -> bool)
    ensures Filter(a + b, keep) == Filter(a, keep) + Filter(b, keep)
    decreases |a|
  {
    if a == [] {
      assert a + b == b;
    } else {
      assert (a + b)[0] == a[0] && (a + b)[1..] == a[1..] + b;
      FilterAppend(a[1..], b, keep);
      var fa, fb := Filter(a[1..], keep), Filter(b, keep);
      assert [a[0]] + (fa + fb) == [a[0]] + fa + fb;
    }
  }

  lemma FilterOne<T(!new)>(x: T, keep: T -> bool)
    ensures Filter([x], keep) == if keep(x) then [x] else []
  {
    assert [x][1..] == [];
  }

  /** The value `f` yields for the last element of `xs` that yields one. */
  function LastMap<A, B>(xs: seq<A>, f: A -> Option<B>): (r: Option<B>)
    ensures r.Some? ==> exists i :: 0 <= i < |xs| && f(xs[i]) == r
    ensures r.None? <==> forall i :: 0 <= i < |xs| ==> f(xs[i]).None?
  {
    if xs == [] then None
    else if f(xs[|xs| - 1]).Some? then f(xs[|xs| - 1])
    else
      var r := LastMap(xs[..|xs| - 1], f);
      assert forall i :: 0 <= i < |xs| - 1 ==> xs[..|xs| - 1][i] == xs[i];
      r
  }

  /** Every element kept comes from some element of the input. */
  lemma {:induction false} FilterMapSound<A, B>(xs: seq<A>, f: A -> Option<B>, y: B) returns (i: nat)
    requires y in FilterMap(xs, f)
    ensures i < |xs| && f(xs[i]) == Some(y)
    decreases |xs|
  {
    if f(xs[0]) == Some(y) {
      i := 0;
    } else {
      var j := FilterMapSound(xs[1..], f, y);
      i := j + 1;
      assert xs[i] == xs[1..][j];
    }
  }

  /** What every element of the input yields is kept. */
  lemma {:induction false} FilterMapComplete<A, B>(xs: seq<A>, f: A -> Option<B>, i: nat)
    requires i < |xs| && f(xs[i]).Some?
    ensures f(xs[i]).value in FilterMap(xs, f)
    decreases i
  {
    if i > 0 {
      assert xs[1..][i - 1] == xs[i];
      FilterMapComplete(xs[1..], f, i - 1);
    }
  }

  /** An element that yields nothing may be dropped at either end. */
  lemma {:induction false} FilterMapSkip<A, B>(xs: seq<A>, f: A -> Option<B>, x: A)
    requires f(x).None?
    ensures FilterMap(xs + [x], f) == FilterMap(xs, f)
    ensures FilterMap([x] + xs, f) == FilterMap(xs, f)
    decreases |xs|
  {
    if xs != [] {
      assert (xs + [x])[1..] == xs[1..] + [x];
      FilterMapSkip(xs[1..], f, x);
    } else {
      assert xs + [x] == [x];
    }
    assert ([x] + xs)[1..] == xs;
  }
}
