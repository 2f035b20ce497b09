/** Concatenating and summing over sequences, once for every element type. */
module Flattening {
  function Flatten<T, U>(f: T -> seq<U>, xs: seq<T>): seq<U> {
    if xs == [] then [] else f(xs[0]) + Flatten(f, xs[1..])
  }

  lemma {:induction false} Assoc<U>(a: seq<U>, b: seq<U>, c: seq<U>)
    ensures (a + b) + c == a + (b + c)
  {}

  lemma {:induction false} TakeDrop<U>(xs: seq<U>, i: nat)
    requires i <= |xs|
    ensures xs[..i] + xs[i..] == xs
  {}

  lemma {:induction false} Slices<U>(xs: seq<U>, i: nat, j: nat, k: nat)
    requires i <= j <= k <= |xs|
    ensures xs[i..j] + xs[j..k] == xs[i..k]
  {}

  lemma {:induction false} FlattenConcat<T, U>(f: T -> seq<U>, a: seq<T>, b: seq<T>)
    ensures Flatten(f, a + b) == Flatten(f, a) + Flatten(f, b)
  {
    if a == [] {
      assert a + b == b;
    } else {
      calc {
        Flatten(f, a + b);
        { assert (a + b)[1..] == a[1..] + b; }
        f(a[0]) + Flatten(f, a[1..] + b);
        { FlattenConcat(f, a[1..], b); }
        f(a[0]) + (Flatten(f, a[1..]) + Flatten(f, b));
        { Assoc(f(a[0]), Flatten(f, a[1..]), Flatten(f, b)); }
        Flatten(f, a) + Flatten(f, b);
      }
    }
  }

  lemma {:induction false} FlattenSplit<T, U>(f: T -> seq<U>, xs: seq<T>, i: nat)
    requires i <= |xs|
    ensures Flatten(f, xs) == Flatten(f, xs[..i]) + Flatten(f, xs[i..])
  {
    TakeDrop(xs, i);
    FlattenConcat(f, xs[..i], xs[i..]);
  }

  lemma {:induction false} FlattenOne<T, U>(f: T -> seq<U>, x: T)
    ensures Flatten(f, [x]) == f(x)
  {
    assert [x][1..] == [];
  }

  lemma {:induction false} FlattenAppend<T, U>(f: T -> seq<U>, xs: seq<T>, x: T)
    ensures Flatten(f, xs + [x]) == Flatten(f, xs) + f(x)
  {
    FlattenConcat(f, xs, [x]);
    FlattenOne(f, x);
  }

  lemma {:induction false} FlattenExtend<T, U>(f: T -> seq<U>, xs: seq<T>, i: nat)
    requires i < |xs|
    ensures Flatten(f, xs[..i + 1]) == Flatten(f, xs[..i]) + f(xs[i])
  {
    assert xs[..i + 1] == xs[..i] + [xs[i]];
    FlattenAppend(f, xs[..i], xs[i]);
  }

  function Sum<T>(w: T -> nat, xs: seq<T>): nat {
    if xs == [] then 0 else w(xs[0]) + Sum(w, xs[1..])
  }

  lemma {:induction false} SumConcat<T>(w: T -> nat, a: seq<T>, b: seq<T>)
    ensures Sum(w, a + b) == Sum(w, a) + Sum(w, b)
  {
    if a == [] {
      assert a + b == b;
    } else {
      SumConcat(w, a[1..], b);
      assert (a + b)[1..] == a[1..] + b;
    }
  }

  lemma {:induction false} SumOne<T>(w: T -> nat, x: T)
    ensures Sum(w, [x]) == w(x)
  {
    assert [x][1..] == [];
  }
}
