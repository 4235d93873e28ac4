/**
 * Facts about sequence concatenation, filtering and flattening, stated once for any element type
 * so that proofs over sequences of records can use them without reasoning about the records.
 */
module Seqs {
  lemma HeadTail<T>(xs: seq<T>)
    requires xs != []
    ensures [xs[0]] + xs[1..] == xs
  {
  }

  lemma EmptyAppend<T>(a: seq<T>)
    ensures [] + a == a && a + [] == a
  {
  }

  lemma AppendAssoc<T>(a: seq<T>, b: seq<T>, c: seq<T>)
    ensures (a + b) + c == a + (b + c)
  {
  }

  lemma IndexFront<T>(a: seq<T>, b: seq<T>, i: int)
    requires 0 <= i < |a|
    ensures (a + b)[i] == a[i]
  {
  }

  lemma IndexBack<T>(a: seq<T>, b: seq<T>, k: int)
    requires 0 <= k < |b|
    ensures (a + b)[|a| + k] == b[k]
  {
  }

  /** A property of every element of two sequences holds of every element of their concatenation. */
  lemma AllConcat<T>(a: seq<T>, b: seq<T>, P: T -> bool)
    requires forall i :: 0 <= i < |a| ==> P(a[i])
    requires forall i :: 0 <= i < |b| ==> P(b[i])
    ensures forall i :: 0 <= i < |a + b| ==> P((a + b)[i])
  {
    forall i | 0 <= i < |a + b| ensures P((a + b)[i]) {
      if i >= |a| { assert (a + b)[i] == b[i - |a|]; }
    }
  }

  /** The elements of `xs` that satisfy `P`, in order. */
  function Filter<T>(xs: seq<T>, P: T -> bool): seq<T> {
    if xs == [] then [] else Filter(xs[..|xs| - 1], P) + (if P(xs[|xs| - 1]) then [xs[|xs| - 1]] else [])
  }

  /** `Filter` keeps exactly the elements that satisfy `P`: all of them when every element does,
      none when no element does. */
  lemma {:induction false} FilterSpec<T>(xs: seq<T>, P: T -> bool)
    ensures |Filter(xs, P)| <= |xs|
    ensures forall i :: 0 <= i < |Filter(xs, P)| ==> P(Filter(xs, P)[i]) && Filter(xs, P)[i] in xs
    ensures (forall i :: 0 <= i < |xs| ==> P(xs[i])) ==> Filter(xs, P) == xs
    ensures (forall i :: 0 <= i < |xs| ==> !P(xs[i])) ==> Filter(xs, P) == []
  {
    if xs != [] {
      var init, last := xs[..|xs| - 1], xs[|xs| - 1];
      FilterSpec(init, P);
      var f, t := Filter(init, P), if P(last) then [last] else [];
      forall i | 0 <= i < |f + t| ensures P((f + t)[i]) && (f + t)[i] in xs {
        if i < |f| {
          assert (f + t)[i] == f[i] && f[i] in init;
        } else {
          assert (f + t)[i] == last;
        }
      }
      assert init + [last] == xs;
    }
  }

  lemma {:induction false} FilterConcat<T>(a: seq<T>, b: seq<T>, P: T -> bool)
    ensures Filter(a + b, P) == Filter(a, P) + Filter(b, P)
    decreases |b|
  {
    if b == [] {
      assert a + b == a;
    } else {
      var init, last := b[..|b| - 1], b[|b| - 1];
      FilterConcat(a, init, P);
      assert (a + b)[..|a + b| - 1] == a + init;
      assert (a + b)[|a + b| - 1] == last;
    }
  }

  /** The blocks `f(x)` of the elements of `xs`, concatenated in order. */
  function FlatMap<T, U>(xs: seq<T>, f: T -> seq<U>): seq<U> {
    if xs == [] then [] else FlatMap(xs[..|xs| - 1], f) + f(xs[|xs| - 1])
  }

  /** An element of the concatenation lies in the block of some element, and every element of
      every block is in the concatenation. */
  lemma {:induction false} FlatMapMember<T, U>(xs: seq<T>, f: T -> seq<U>, u: U)
    ensures u in FlatMap(xs, f) <==> exists x :: x in xs && u in f(x)
  {
    if xs != [] {
      var init, last := xs[..|xs| - 1], xs[|xs| - 1];
      FlatMapMember(init, f, u);
      assert xs == init + [last];
      if u in FlatMap(xs, f) {
        if u in FlatMap(init, f) {
          var x :| x in init && u in f(x);
          assert x in xs;
        } else {
          assert u in f(last);
        }
      }
      if exists x :: x in xs && u in f(x) {
        var x :| x in xs && u in f(x);
        if x != last {
          assert x in init;
        }
      }
    }
  }
}
