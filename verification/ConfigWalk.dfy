/** Walking the linked tree as ap_walk_config does, and what loading a file and
    walking the result shows of the file. */
module ConfigWalk {
  import opened Basics
  import opened Flattening
  import opened ConfigSpec
  import opened ConfigMeaning
  import opened ConfigAccept
  import opened ConfigLinks
  import opened ConfigTree

  /** The same file with closing lines spelled like the opening ones. */
  function Canon(items: seq<Item>): seq<Item> {
    if items == [] then [] else [CanonItem(items[0])] + Canon(items[1..])
  }

  function CanonItem(it: Item): Item {
    match it
    case Directive(_, _) => it
    case Section(name, args, body, _) => Section(name, args, Canon(body), name + ">")
    case Conditional(k, holds, body, _) => Conditional(k, holds, Canon(body), KindName(k) + ">")
  }

  /** Every entry is in container p or inside the piece, which starts at b. */
  ghost predicate Inside(d: seq<Entry>, p: int, b: nat) {
    forall k | 0 <= k < |d| :: d[k].parent == p || b <= d[k].parent < b + |d|
  }

  lemma {:induction false} DenoteInside(items: seq<Item>, p: int, b: nat)
    requires Unconditional(items)
    ensures Inside(Denote(items, p, b), p, b)
    decreases items, 0
  {
    if items != [] {
      var d := DenoteItem(items[0], p, b);
      var more := Denote(items[1..], p, b + |d|);
      var all: seq<Entry> := d + more;
      ItemInside(items[0], p, b);
      DenoteInside(items[1..], p, b + |d|);
      forall k | 0 <= k < |all| ensures all[k].parent == p || b <= all[k].parent < b + |all| {
        if k >= |d| { assert all[k] == more[k - |d|]; }
      }
    }
  }

  lemma {:induction false} ItemInside(it: Item, p: int, b: nat)
    requires UnconditionalItem(it)
    ensures
      var d := DenoteItem(it, p, b);
      d != [] && d[0].parent == p && forall k | 1 <= k < |d| :: b <= d[k].parent < b + |d|
    decreases it, 1
  {
    if it.Section? {
      DenoteInside(it.body, b, b + 1);
      var d := DenoteItem(it, p, b);
      forall k | 1 <= k < |d| ensures b <= d[k].parent < b + |d| {
        assert d[k] == Denote(it.body, b, b + 1)[k - 1];
      }
    }
  }

  /** es[b..b+|d|] is a list of siblings in container p with all that is inside
      them, and nothing after it belongs to it. */
  ghost predicate Spans(es: seq<Entry>, items: seq<Item>, p: int, b: nat) {
    var d := Denote(items, p, b);
    && -1 <= p < b && Unconditional(items)
    && b + |d| <= |es| && es[b..b + |d|] == d
    && forall k | b + |d| <= k < |es| :: es[k].parent != p && !(b <= es[k].parent < b + |d|)
  }

  /** The first of the siblings, and the links that lead on from it. */
  lemma {:induction false} SpansHead(es: seq<Entry>, items: seq<Item>, p: int, b: nat)
    requires Preorder(es) && Spans(es, items, p, b) && items != []
    ensures
      var n := |DenoteItem(items[0], p, b)|;
      && n > 0 && b < |es| && es[b] == DenoteItem(items[0], p, b)[0]
      && Spans(es, items[1..], p, b + n)
      && Next(es, b) == if items[1..] == [] then -1 else b + n
  {
    var d := DenoteItem(items[0], p, b);
    var more := Denote(items[1..], p, b + |d|);
    assert UnconditionalItem(items[0]) && Unconditional(items[1..]);
    Cut(es, b, d, more);
    ItemInside(items[0], p, b);
    NoSibling(es, p, b, d);
    if items[1..] == [] {
      NextUnique(es, b, -1);
    } else {
      ItemInside(items[1], p, b + |d|);
      assert es[b + |d|] == es[b + |d|..b + |d| + |more|][0] == more[0];
      NextUnique(es, b, b + |d|);
    }
  }

  lemma {:induction false} NoSibling(es: seq<Entry>, p: int, b: nat, d: seq<Entry>)
    requires b + |d| <= |es| && es[b..b + |d|] == d && d != [] && p < b
    requires d[0].parent == p && forall k | 1 <= k < |d| :: b <= d[k].parent < b + |d|
    ensures es[b] == d[0] && forall j | b < j < b + |d| :: es[j].parent != p
  {
    assert forall j | b <= j < b + |d| :: es[j] == es[b..b + |d|][j - b];
  }

  lemma {:induction false} Cut(es: seq<Entry>, b: nat, d: seq<Entry>, more: seq<Entry>)
    requires b + |d + more| <= |es| && es[b..b + |d + more|] == d + more
    ensures es[b..b + |d|] == d && es[b + |d|..b + |d| + |more|] == more
  {
    assert es[b..b + |d|] == es[b..b + |d + more|][..|d|];
    assert es[b + |d|..b + |d| + |more|] == es[b..b + |d + more|][|d|..];
  }

  /** What comes behind a section is not inside it. */
  lemma {:induction false} BodyEnds(es: seq<Entry>, p: int, b: nat, n: nat, more: seq<Entry>)
    requires p < b && b + n + |more| <= |es| && es[b + n..b + n + |more|] == more
    requires forall k | 0 <= k < |more| :: more[k].parent == p || more[k].parent >= b + n
    requires forall k | b + n + |more| <= k < |es| :: es[k].parent != p && !(b <= es[k].parent < b + n + |more|)
    ensures forall k | b + n <= k < |es| :: !(b <= es[k].parent < b + n)
  {
    forall k | b + n <= k < |es| ensures !(b <= es[k].parent < b + n) {
      if k < b + n + |more| { assert es[k] == es[b + n..b + n + |more|][k - (b + n)]; }
    }
  }

  lemma {:induction false} BodyFirst(es: seq<Entry>, body: seq<Item>, b: nat)
    requires Preorder(es) && Unconditional(body) && b < |es|
    requires
      var inner := Denote(body, b, b + 1);
      b + 1 + |inner| <= |es| && es[b + 1..b + 1 + |inner|] == inner
    requires forall k | b + 1 + |Denote(body, b, b + 1)| <= k < |es| :: es[k].parent != b
    ensures FirstChild(es, b) == if body == [] then -1 else b + 1
  {
    if body != [] {
      var inner := Denote(body, b, b + 1);
      assert UnconditionalItem(body[0]);
      ItemInside(body[0], b, b + 1);
      assert inner[0] == DenoteItem(body[0], b, b + 1)[0];
      assert es[b + 1] == es[b + 1..b + 1 + |inner|][0];
    }
  }

  /** The inside of a section, and the link that leads into it. */
  lemma {:induction false} SpansBody(es: seq<Entry>, items: seq<Item>, p: int, b: nat)
    requires Preorder(es) && Spans(es, items, p, b) && items != [] && items[0].Section?
    ensures b < |es| && Spans(es, items[0].body, b, b + 1)
    ensures FirstChild(es, b) == if items[0].body == [] then -1 else b + 1
  {
    var body := items[0].body;
    assert UnconditionalItem(items[0]) && Unconditional(body) && Unconditional(items[1..]);
    var d, inner := DenoteItem(items[0], p, b), Denote(body, b, b + 1);
    var more := Denote(items[1..], p, b + |d|);
    DenoteInside(items[1..], p, b + |d|);
    Cut(es, b, d, more);
    assert d == [d[0]] + inner;
    Cut(es, b, [d[0]], inner);
    BodyEnds(es, p, b, |d|, more);
    BodyFirst(es, body, b);
  }

  lemma {:induction false} TraceStep(trace: seq<Line>, items: seq<Item>)
    requires items != []
    ensures (trace + RenderItem(CanonItem(items[0]))) + Render(Canon(items[1..])) == trace + Render(Canon(items))
  {
    var c := Canon(items);
    assert c[0] == CanonItem(items[0]) && c[1..] == Canon(items[1..]);
    Assoc(trace, RenderItem(c[0]), Render(c[1..]));
  }

  /** ap_walk_config_sub on one node; a container's handler walks its children. */
  method Visit(n: Node, ghost all: seq<Node>, ghost es: seq<Entry>, ghost items: seq<Item>, ghost p: int, ghost b: nat)
    returns (lines: seq<Line>)
    requires Linked(all, es) && Spans(es, items, p, b) && items != [] && n == At(all, b)
    ensures lines == RenderItem(CanonItem(items[0]))
    decreases items[0], 1
  {
    assert b < |es| && es[b] == DenoteItem(items[0], p, b)[0] by { SpansHead(es, items, p, b); }
    assert Shows(all[b], es[b]) && UnconditionalItem(items[0]);
    if n.section {
      SpansBody(es, items, p, b);
      assert n.firstChild == At(all, FirstChild(es, b));
      var inner := WalkConfig(n.firstChild, all, es, items[0].body, b, b + 1);
      lines := [Open(n.name, n.args)] + inner + [Close(n.name + ">")];
    } else {
      lines := [Plain(n.name, n.args)];
    }
  }

  /** ap_walk_config: visit a list of siblings. */
  method WalkConfig(first: Node?, ghost all: seq<Node>, ghost es: seq<Entry>, ghost items0: seq<Item>,
                    ghost p: int, ghost b0: nat)
    returns (trace: seq<Line>)
    requires Linked(all, es) && Spans(es, items0, p, b0)
    requires first == if items0 == [] then null else At(all, b0)
    ensures trace == Render(Canon(items0))
    decreases items0, 0
  {
    trace := [];
    var current := first;
    ghost var k: nat, items, b: nat := 0, items0, b0;
    ghost var goal, todo := Render(Canon(items0)), Render(Canon(items0));
    assert [] + todo == goal;
    if items != [] { SpansHead(es, items, p, b); }
    while current != null
      invariant k <= |items0| && items == items0[k..]
      invariant Spans(es, items, p, b)
      invariant if items == [] then current == null else b < |all| && current == all[b]
      invariant todo == Render(Canon(items)) && trace + todo == goal
      decreases |items|
    {
      assert items[0] == items0[k];
      var lines := Visit(current, all, es, items, p, b);
      TraceStep(trace, items);
      todo := Render(Canon(items[1..]));
      b := Onward(all, es, items, p, b);
      items, k := items[1..], k + 1;
      trace := trace + lines;
      current := current.next;
    }
    assert todo == [] && trace + [] == trace;
  }

  /** From one sibling to the next. */
  lemma {:induction false} Onward(all: seq<Node>, es: seq<Entry>, items: seq<Item>, p: int, b: nat) returns (b': nat)
    requires Linked(all, es) && Spans(es, items, p, b) && items != [] && b < |all|
    ensures Spans(es, items[1..], p, b')
    ensures if items[1..] == [] then all[b].next == null else b' < |all| && all[b].next == all[b']
  {
    SpansHead(es, items, p, b);
    b' := b + |DenoteItem(items[0], p, b)|;
    assert all[b].next == At(all, Next(es, b));
    if items[1..] != [] {
      SpansHead(es, items[1..], p, b');
    }
  }

  predicate SameLine(a: Line, b: Line) {
    a == b || (a.Close? && b.Close? && SameLetters(a.text, b.text))
  }

  /** Equal, but for the case of closing names. */
  predicate SameLines(a: seq<Line>, b: seq<Line>) {
    |a| == |b| && forall i | 0 <= i < |a| :: SameLine(a[i], b[i])
  }

  lemma {:induction false} SameLinesConcat(a: seq<Line>, b: seq<Line>, c: seq<Line>, d: seq<Line>)
    requires SameLines(a, b) && SameLines(c, d)
    ensures SameLines(a + c, b + d)
  {}

  lemma {:induction false} CanonLines(items: seq<Item>)
    requires Closed(items) && Unconditional(items)
    ensures SameLines(Render(Canon(items)), Render(items))
    decreases items
  {
    if items != [] {
      var c := Canon(items);
      assert c[0] == CanonItem(items[0]) && c[1..] == Canon(items[1..]);
      assert SameLines(RenderItem(c[0]), RenderItem(items[0])) by {
        if items[0].Section? {
          var it := items[0];
          CanonLines(it.body);
          EndsWhole(it.close, it.name);
          SameLinesConcat([Open(it.name, it.args)], [Open(it.name, it.args)], Render(Canon(it.body)), Render(it.body));
          SameLinesConcat([Open(it.name, it.args)] + Render(Canon(it.body)), [Open(it.name, it.args)] + Render(it.body),
                          [Close(it.name + ">")], [Close(it.close)]);
        }
      }
      CanonLines(items[1..]);
      SameLinesConcat(RenderItem(c[0]), RenderItem(items[0]), Render(c[1..]), Render(items[1..]));
    }
  }

  lemma {:induction false} SpansAll(items: seq<Item>)
    requires Unconditional(items)
    ensures Spans(Denote(items, -1, 0), items, -1, 0)
    ensures items != [] ==> Denote(items, -1, 0) != []
  {
    var d := Denote(items, -1, 0);
    assert d[0..0 + |d|] == d;
    if items != [] { ItemInside(items[0], -1, 0); }
  }

  /** Load any file and walk the tree: what the walk meets is the file, completed
      and expanded. */
  method LoadAndWalk(lines: seq<Line>) returns (ok: bool, trace: seq<Line>)
    ensures ok <==> exists t :: Acceptable(t, lines)
    ensures ok ==> exists t :: Acceptable(t, lines) && trace == Render(Canon(Expand(Completed(t))))
  {
    AcceptedIff([], lines);
    var file := new ConfigFile(lines);
    var tree;
    ghost var all;
    ok, tree, all := BuildConfig(file, null, [], [], {});
    trace := [];
    if ok {
      ghost var t :| Acceptable(t, lines);
      ghost var items := Completed(t);
      CompletedClosed(t);
      ExpandCloses(items);
      ExpandKeepsMeaning(items, -1, 0);
      SpansAll(Expand(items));
      ghost var es := Denote(items, -1, 0);
      assert [] + es == es;
      trace := WalkConfig(tree, all, es, Expand(items), -1, 0);
    }
  }

  lemma {:induction false} ExpandUnconditional(items: seq<Item>)
    requires Unconditional(items)
    ensures Expand(items) == items
    decreases items
  {
    if items != [] {
      ExpandUnconditional(items[1..]);
      if items[0].Section? {
        ExpandUnconditional(items[0].body);
      }
      assert items == [items[0]] + items[1..];
    }
  }

  /** Without conditionals, loading succeeds exactly on well-nested files, and
      walking the tree then gives the file back. */
  method RoundTrip(lines: seq<Line>) returns (ok: bool, trace: seq<Line>)
    requires NoConditionals(lines)
    ensures ok <==> exists items :: Closed(items) && Unconditional(items) && Render(items) == lines
    ensures ok ==> SameLines(trace, lines)
  {
    BuildsIffWellNested(lines);
    AcceptedIff([], lines);
    ok, trace := LoadAndWalk(lines);
    if ok {
      ghost var t :| Acceptable(t, lines) && trace == Render(Canon(Expand(Completed(t))));
      ghost var items := WholeText(t, lines);
      assert items == Completed(t);
      ExpandUnconditional(items);
      CanonLines(items);
    }
  }
}
