/** Order-preserving filters over sequences, the shape of every `foreach … Add` loop modelled here. */
module Seqs {
  import opened Wrappers

  /** Keeps f(x).value for each x with f(x) Some, in order. Defined on the last element so that
      a loop over xs[..i] extends it by one step. */
  function FilterMap<T, U>(xs: seq<T>, f: T -> Option<U>): seq<U>
  {
    if xs == [] then []
    else
      var rest := FilterMap(xs[..|xs| - 1], f);
      match f(xs[|xs| - 1])
      case Some(y) => rest + [y]
      case None => rest
  }

  /** A single input gives its own output, if any. */
  lemma FilterMapSingle<T, U>(x: T, f: T -> Option<U>)
    ensures FilterMap([x], f) == match f(x) case Some(y) => [y] case None => []
  {
    assert [x][..0] == [];
  }

  /** At most one output per input. */
  lemma {:induction false} FilterMapLength<T, U>(xs: seq<T>, f: T -> Option<U>)
    ensures |FilterMap(xs, f)| <= |xs|
  {
    if xs != [] {
      FilterMapLength(xs[..|xs| - 1], f);
    }
  }

  /** The output for a concatenation is the concatenation of the outputs: inputs are processed
      independently and in order. */
  lemma {:induction false} FilterMapAppend<T, U>(xs: seq<T>, ys: seq<T>, f: T -> Option<U>)
    ensures FilterMap(xs + ys, f) == FilterMap(xs, f) + FilterMap(ys, f)
    decreases |ys|
  {
    if ys == [] {
      assert xs + ys == xs;
    } else {
      var ys' := ys[..|ys| - 1];
      assert (xs + ys)[..|xs + ys| - 1] == xs + ys';
      assert (xs + ys)[|xs + ys| - 1] == ys[|ys| - 1];
      FilterMapAppend(xs, ys', f);
    }
  }

  /** Every output comes from an input, and every input that maps to Some contributes. */
  lemma {:induction false} FilterMapMember<T, U>(xs: seq<T>, f: T -> Option<U>, y: U)
    ensures y in FilterMap(xs, f) <==> exists x :: x in xs && f(x) == Some(y)
  {
    if xs != [] {
      var init := xs[..|xs| - 1];
      var last := xs[|xs| - 1];
      FilterMapMember(init, f, y);
      assert xs == init + [last];
      if y in FilterMap(xs, f) && y !in FilterMap(init, f) {
        assert f(last) == Some(y);
      }
      if exists x :: x in xs && f(x) == Some(y) {
        var x :| x in xs && f(x) == Some(y);
        if x !in init {
          assert x == last;
        }
      }
    }
  }

  /** The elements of xs that satisfy p, in order. */
  function Filter<T>(xs: seq<T>, p: T -> bool): (r: seq<T>)
    ensures |r| <= |xs|
    ensures forall i :: 0 <= i < |r| ==> r[i] in xs && p(r[i])
  {
    if xs == [] then []
    else
      var rest := Filter(xs[..|xs| - 1], p);
      if p(xs[|xs| - 1]) then rest + [xs[|xs| - 1]] else rest
  }

  /** Two heads put in front of d one at a time. */
  lemma TwoHeads<T>(a: seq<T>, x: T, b: seq<T>, c: seq<T>, y: T, d: seq<T>)
    requires a == [x] + b && b == c && c == [y] + d
    ensures a == [x, y] + d
  {
  }

  /** An empty piece between x and y drops out. */
  lemma EmptyBetween<T>(z: seq<T>, x: seq<T>, r: seq<T>, e: seq<T>, y: seq<T>)
    requires z == x + r && r == e + y && e == []
    ensures z == x + y
  {
  }
}
