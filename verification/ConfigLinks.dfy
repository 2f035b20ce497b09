/** Where the links of a directive point, as positions in file order. */
module ConfigLinks {
  import opened ConfigSpec

  /** The first entry at or after j in the same container as entry i, or -1. */
  function NextFrom(es: seq<Entry>, i: nat, j: nat): (r: int)
    requires i < |es| && j <= |es|
    ensures r == -1 || j <= r < |es|
    ensures r != -1 ==> es[r].parent == es[i].parent
    ensures forall k | j <= k < (if r == -1 then |es| else r) :: es[k].parent != es[i].parent
    decreases |es| - j
  {
    if j == |es| then -1 else if es[j].parent == es[i].parent then j else NextFrom(es, i, j + 1)
  }

  /** The next entry in the same container. */
  function Next(es: seq<Entry>, i: nat): (r: int)
    requires i < |es|
    ensures r == -1 || i < r < |es|
    ensures r != -1 ==> es[r].parent == es[i].parent
    ensures forall k | i < k < (if r == -1 then |es| else r) :: es[k].parent != es[i].parent
  {
    NextFrom(es, i, i + 1)
  }

  function FirstChild(es: seq<Entry>, i: nat): (r: int)
    requires i < |es|
    ensures r == -1 || r < |es|
  {
    if i + 1 < |es| && es[i + 1].parent == i then i + 1 else -1
  }

  /** The last of the first n entries in container o, or -1. */
  function LastBefore(es: seq<Entry>, o: int, n: nat): (r: int)
    requires n <= |es|
    ensures r == -1 || 0 <= r < n
    ensures r != -1 ==> es[r].parent == o
    ensures forall k | (if r == -1 then 0 else r + 1) <= k < n :: es[k].parent != o
  {
    if n == 0 then -1 else if es[n - 1].parent == o then n - 1 else LastBefore(es, o, n - 1)
  }

  /** The last entry read so far in container o, or -1. */
  function LastChild(es: seq<Entry>, o: int): (r: int)
    ensures r == -1 || 0 <= r < |es|
    ensures r != -1 ==> es[r].parent == o
    ensures forall k | (if r == -1 then 0 else r + 1) <= k < |es| :: es[k].parent != o
  {
    LastBefore(es, o, |es|)
  }

  /** o and the containers around it are still open: all that followed them is
      inside them. */
  ghost predicate Spine(es: seq<Entry>, o: int)
    requires Preorder(es) && -1 <= o < |es|
    decreases o
  {
    o == -1 || ((forall j | o < j < |es| :: es[j].parent >= o) && Spine(es, es[o].parent))
  }

  /** Next is determined by what it promises. */
  lemma {:induction false} NextUnique(es: seq<Entry>, i: nat, r: int)
    requires i < |es| && (r == -1 || i < r < |es|)
    requires r != -1 ==> es[r].parent == es[i].parent
    requires forall k | i < k < (if r == -1 then |es| else r) :: es[k].parent != es[i].parent
    ensures Next(es, i) == r
  {
    var n := Next(es, i);
    assert n != -1 ==> es[n].parent == es[i].parent;
  }

  lemma {:induction false} LastUnique(es: seq<Entry>, o: int, r: int)
    requires r == -1 || 0 <= r < |es|
    requires r != -1 ==> es[r].parent == o
    requires forall k | (if r == -1 then 0 else r + 1) <= k < |es| :: es[k].parent != o
    ensures LastChild(es, o) == r
  {
    var n := LastChild(es, o);
    assert n != -1 ==> es[n].parent == o;
  }

  /** The last entry of its container has no next one. */
  lemma {:induction false} NextOfLast(es: seq<Entry>, i: nat)
    requires i < |es|
    ensures Next(es, i) == -1 <==> LastChild(es, es[i].parent) == i
  {
    if Next(es, i) == -1 {
      LastUnique(es, es[i].parent, i);
    } else {
      assert es[Next(es, i)].parent == es[i].parent;
    }
  }

  /** Only the container opened by the last line has no children so far. */
  lemma {:induction false} SpineHasChild(es: seq<Entry>, o: int)
    requires Preorder(es) && 0 <= o < |es| - 1 && Spine(es, o)
    ensures LastChild(es, o) != -1
  {
    assert es[o + 1].parent == o;
  }

  /** Closing a container makes it the last entry of the one around it. */
  lemma {:induction false} SpineClose(es: seq<Entry>, o: int)
    requires Preorder(es) && 0 <= o < |es| && Spine(es, o)
    ensures Spine(es, es[o].parent) && LastChild(es, es[o].parent) == o
  {
    LastUnique(es, es[o].parent, o);
  }

  /** New entries inside o leave o and its surroundings open. */
  lemma {:induction false} SpineExtend(es: seq<Entry>, more: seq<Entry>, o: int)
    requires Preorder(es) && Preorder(es + more) && -1 <= o < |es| && Spine(es, o)
    requires forall j | 0 <= j < |more| :: more[j].parent >= o
    ensures Spine(es + more, o)
    decreases o
  {
    if o != -1 {
      assert es[o].parent == (es + more)[o].parent;
      forall j | o < j < |es + more| ensures (es + more)[j].parent >= o {
        if j >= |es| { assert (es + more)[j] == more[j - |es|]; }
      }
      forall j | 0 <= j < |more| ensures more[j].parent >= es[o].parent {
        assert more[j].parent >= o;
      }
      SpineExtend(es, more, es[o].parent);
    }
  }

  /** An entry of the tree that was there. */
  lemma {:induction false} NextBefore(es: seq<Entry>, sub: seq<Entry>, o: int, i: nat)
    requires Preorder(es) && Preorder(sub) && -1 <= o < |es| && i < |es|
    ensures Next(es + Shift(sub, o, |es|), i) ==
      if Next(es, i) == -1 && es[i].parent == o && sub != [] then |es| else Next(es, i)
  {
    var all, n := es + Shift(sub, o, |es|), Next(es, i);
    if n == -1 && es[i].parent == o && sub != [] {
      assert sub[0].parent == -1 && all[|es|] == ShiftEntry(sub[0], o, |es|);
      NextUnique(all, i, |es|);
    } else if n == -1 {
      forall k | i < k < |all| ensures all[k].parent != all[i].parent {
        if k >= |es| { assert all[k] == ShiftEntry(sub[k - |es|], o, |es|); }
      }
      NextUnique(all, i, -1);
    } else {
      NextUnique(all, i, n);
    }
  }

  /** An entry of the tree that was moved. */
  lemma {:induction false} NextMoved(es: seq<Entry>, sub: seq<Entry>, o: int, k: nat)
    requires Preorder(es) && Preorder(sub) && -1 <= o < |es| && k < |sub|
    ensures Next(es + Shift(sub, o, |es|), |es| + k) == if Next(sub, k) == -1 then -1 else Next(sub, k) + |es|
  {
    var all, i, n := es + Shift(sub, o, |es|), |es| + k, Next(sub, k);
    forall m | i < m < (if n == -1 then |all| else n + |es|) ensures all[m].parent != all[i].parent {
      assert sub[m - |es|].parent != sub[k].parent;
      assert all[m] == ShiftEntry(sub[m - |es|], o, |es|);
    }
    assert all[i] == ShiftEntry(sub[k], o, |es|);
    assert n != -1 ==> all[n + |es|] == ShiftEntry(sub[n], o, |es|);
    NextUnique(all, i, if n == -1 then -1 else n + |es|);
  }

  /** The links after a tree of its own was moved under container o, the
      innermost open one. */
  lemma {:induction false} NextSplice(es: seq<Entry>, sub: seq<Entry>, o: int, i: nat)
    requires Preorder(es) && Preorder(sub) && -1 <= o < |es| && i < |es| + |sub|
    ensures
      var all := es + Shift(sub, o, |es|);
      Next(all, i) ==
        if i < |es| then
          if Next(es, i) == -1 && es[i].parent == o && sub != [] then |es| else Next(es, i)
        else if Next(sub, i - |es|) == -1 then -1 else Next(sub, i - |es|) + |es|
  {
    if i < |es| {
      NextBefore(es, sub, o, i);
    } else {
      NextMoved(es, sub, o, i - |es|);
    }
  }

  lemma {:induction false} FirstChildSplice(es: seq<Entry>, sub: seq<Entry>, o: int, i: nat)
    requires Preorder(es) && Preorder(sub) && -1 <= o < |es| && i < |es| + |sub|
    ensures
      var all := es + Shift(sub, o, |es|);
      FirstChild(all, i) ==
        if i < |es| then
          if i == |es| - 1 && o == i && sub != [] then |es| else FirstChild(es, i)
        else if FirstChild(sub, i - |es|) == -1 then -1 else FirstChild(sub, i - |es|) + |es|
  {
    var all := es + Shift(sub, o, |es|);
    if sub != [] { assert all[|es|] == ShiftEntry(sub[0], o, |es|) && sub[0].parent == -1; }
    if i >= |es| && i + 1 < |all| {
      assert all[i + 1] == ShiftEntry(sub[i + 1 - |es|], o, |es|);
    }
  }
}
