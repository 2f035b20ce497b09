/** Brigades as the doubly linked rings they are, for the one place where the
    output filter depends on it. */
module Ring {
  class Node {
    var next: Node?
    var prev: Node?
  }

  /** Distinct nodes, each linked to its neighbours. */
  ghost predicate Chain(c: seq<Node>)
    reads c
  {
    && (forall i, j | 0 <= i < j < |c| :: c[i] != c[j])
    && (forall i {:trigger c[i].next} | 0 <= i < |c| - 1 :: c[i].next == c[i + 1])
    && (forall i {:trigger c[i].prev} | 1 <= i < |c| :: c[i].prev == c[i - 1])
  }

  /** c goes from the link after `from` to the link before `to`. */
  ghost predicate Between(from: Node, c: seq<Node>, to: Node)
    reads from, to, c
  {
    if c == [] then from.next == to && to.prev == from
    else from.next == c[0] && c[0].prev == from && c[|c| - 1].next == to && to.prev == c[|c| - 1]
  }

  /** elems, in this order, are the ring with sentinel s. */
  ghost predicate IsRing(s: Node, elems: seq<Node>)
    reads s, elems
  {
    s !in elems && Chain(elems) && Between(s, elems, s)
  }

  lemma {:induction false} ChainSplit(xs: seq<Node>, ys: seq<Node>)
    requires Chain(xs + ys)
    ensures Chain(xs) && Chain(ys) && forall x | x in xs :: x !in ys
    ensures xs != [] && ys != [] ==> xs[|xs| - 1].next == ys[0] && ys[0].prev == xs[|xs| - 1]
  {
    var c := xs + ys;
    forall i | 0 <= i < |xs| ensures xs[i] == c[i] {}
    forall i | 0 <= i < |ys| ensures ys[i] == c[|xs| + i] {}
    forall i | 0 <= i < |ys| - 1 ensures ys[i].next == ys[i + 1] {
      assert c[|xs| + i].next == c[|xs| + i + 1];
    }
    forall i | 1 <= i < |ys| ensures ys[i].prev == ys[i - 1] {
      assert c[|xs| + i].prev == c[|xs| + i - 1];
    }
    if xs != [] && ys != [] {
      assert c[|xs| - 1].next == c[|xs|] && c[|xs|].prev == c[|xs| - 1];
    }
  }

  /** brigade_move(b, a, e) as the merge step calls it: ring b is empty and e, the
      bucket after the last merged one, is in ring a. The macros are written for
      an e in ring b; with the sentinel of b standing in for b's last element,
      their six pointer writes move everything before e from a into b. */
  method BrigadeMove(b: Node, a: Node, e: Node, ghost xs: seq<Node>, ghost ys: seq<Node>)
    requires IsRing(b, []) && IsRing(a, xs + ys) && ys != [] && e == ys[0]
    requires a != b && b !in xs + ys
    modifies b, a, xs, ys
    ensures IsRing(b, xs) && IsRing(a, ys)
  {
    ChainSplit(xs, ys);
    assert forall y | y in ys :: y in xs + ys;
    assert forall x | x in xs :: x in xs + ys;
    assert (xs + ys)[|xs + ys| - 1] == ys[|ys| - 1];
    assert (xs + ys)[0] == if xs == [] then ys[0] else xs[0];
    var f := b.prev;
    // APR_RING_UNSPLICE(e, f)
    e.prev.next := f.next;
    f.next.prev := e.prev;
    // APR_RING_SPLICE_HEAD(a, e, f)
    e.prev := a;
    f.next := a.next;
    a.next.prev := f;
    a.next := e;
  }
}
