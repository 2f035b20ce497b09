/** Well-nested files, the tree each of them stands for, and the proof that
    reading produces that tree: conditional containers are transparent. */
module ConfigMeaning {
  import opened Flattening
  import opened Basics
  import opened ConfigSpec

  /** A well-nested file; `close` is what a closing line says after "</". */
  datatype Item =
    | Directive(name: string, args: string)
    | Section(name: string, args: string, body: seq<Item>, close: string)
    | Conditional(kind: Kind, holds: bool, body: seq<Item>, close: string)

  function Render(items: seq<Item>): seq<Line> {
    if items == [] then [] else RenderItem(items[0]) + Render(items[1..])
  }

  function RenderItem(it: Item): seq<Line> {
    match it
    case Directive(name, args) => [Plain(name, args)]
    case Section(name, args, body, close) => [Open(name, args)] + Render(body) + [Close(close)]
    case Conditional(k, holds, body, close) => [If(k, holds)] + Render(body) + [Close(close)]
  }

  /** A closing line, as reading and as skipping recognise it: skipping does not
      look at the last character. */
  predicate Ends(close: string, name: string) {
    close != "" && close[|close| - 1] == '>' && SameLetters(CutLast(close), name)
  }

  predicate EndsSkipped(close: string, name: string) {
    SameLetters(CutLast(close), name)
  }

  /** Every container is closed; what is inside an inactive one is only skipped. */
  predicate Closed(items: seq<Item>) {
    if items == [] then true else ClosedItem(items[0]) && Closed(items[1..])
  }

  predicate ClosedItem(it: Item) {
    match it
    case Directive(_, _) => true
    case Section(name, _, body, close) => Ends(close, name) && Closed(body)
    case Conditional(k, holds, body, close) =>
      if holds then Ends(close, KindName(k)) && Closed(body)
      else EndsSkipped(close, KindName(k)) && Skippable(body)
  }

  predicate Skippable(items: seq<Item>) {
    if items == [] then true else SkippableItem(items[0]) && Skippable(items[1..])
  }

  predicate SkippableItem(it: Item) {
    match it
    case Directive(_, _) => true
    case Section(name, _, body, close) => EndsSkipped(close, name) && Skippable(body)
    case Conditional(k, _, body, close) => EndsSkipped(close, KindName(k)) && Skippable(body)
  }

  /** What can be read can be skipped. */
  lemma {:induction false} ClosedSkippable(items: seq<Item>)
    requires Closed(items)
    ensures Skippable(items)
    decreases items
  {
    if items != [] {
      match items[0] {
        case Directive(_, _) =>
        case Section(_, _, body, _) => ClosedSkippable(body);
        case Conditional(_, holds, body, _) => if holds { ClosedSkippable(body); }
      }
      ClosedSkippable(items[1..]);
    }
  }

  /** The tree of a file whose first directive gets index base, inside container
      parent: a conditional contributes its body or nothing. */
  function Denote(items: seq<Item>, parent: int, base: nat): seq<Entry> {
    if items == [] then []
    else
      var d := DenoteItem(items[0], parent, base);
      d + Denote(items[1..], parent, base + |d|)
  }

  function DenoteItem(it: Item, parent: int, base: nat): seq<Entry> {
    match it
    case Directive(name, args) => [Entry(false, name, args, parent)]
    case Section(name, args, body, _) => [Entry(true, name, args, parent)] + Denote(body, base, base + 1)
    case Conditional(_, holds, body, _) => if holds then Denote(body, parent, base) else []
  }

  /** The file with active bodies put in place and inactive ones deleted. */
  function Expand(items: seq<Item>): seq<Item> {
    if items == [] then [] else ExpandItem(items[0]) + Expand(items[1..])
  }

  function ExpandItem(it: Item): seq<Item> {
    match it
    case Directive(_, _) => [it]
    case Section(name, args, body, close) => [Section(name, args, Expand(body), close)]
    case Conditional(_, holds, body, _) => if holds then Expand(body) else []
  }

  predicate Unconditional(items: seq<Item>) {
    if items == [] then true else UnconditionalItem(items[0]) && Unconditional(items[1..])
  }

  predicate UnconditionalItem(it: Item) {
    match it
    case Directive(_, _) => true
    case Section(_, _, body, _) => Unconditional(body)
    case Conditional(_, _, _, _) => false
  }

  lemma {:induction false} ConsLines(l: Line, s: seq<Line>)
    ensures ([l] + s)[0] == l && ([l] + s)[1..] == s
  {}

  lemma {:induction false} Bracketed(l: Line, body: seq<Line>, c: Line, more: seq<Line>, tail: seq<Line>)
    ensures (([l] + body + [c]) + more) + tail == [l] + (body + ([c] + (more + tail)))
  {}

  /** An active container compares its closing line as a whole. */
  lemma {:induction false} EndsWhole(text: string, name: string)
    ensures SameName(text, name + ">") <==> Ends(text, name)
  {
    var n, whole := |name|, name + ">";
    assert forall i | 0 <= i < n :: whole[i] == name[i];
    if |text| == n + 1 {
      assert forall i | 0 <= i < n :: text[i] == CutLast(text)[i];
      assert text[n] == whole[n] || CaseOf(text[n], whole[n]) || CaseOf(whole[n], text[n]) <==> text[n] == '>';
    }
  }

  /** Skipping stops right after the matching closing line. */
  lemma {:induction false} SoakItems(name: string, items: seq<Item>, tail: seq<Line>)
    requires Skippable(items)
    ensures Soak(name, Render(items) + tail) == Soak(name, tail)
    decreases items, 0
  {
    if items == [] {
      assert Render(items) + tail == tail;
    } else {
      var more := Render(items[1..]);
      match items[0] {
        case Directive(n, args) =>
          assert Render(items) + tail == [Plain(n, args)] + (more + tail);
          ConsLines(Plain(n, args), more + tail);
        case Section(n, args, body, close) =>
          SoakSection(Open(n, args), n, name, body, close, more, tail);
        case Conditional(k, holds, body, close) =>
          SoakSection(If(k, holds), KindName(k), name, body, close, more, tail);
      }
      SoakItems(name, items[1..], tail);
    }
  }

  lemma {:induction false} SoakSection(l: Line, inner: string, name: string, body: seq<Item>, close: string,
                                       more: seq<Line>, tail: seq<Line>)
    requires Skippable(body) && EndsSkipped(close, inner)
    requires (l.Open? && l.name == inner) || (l.If? && KindName(l.kind) == inner)
    ensures Soak(name, (([l] + Render(body) + [Close(close)]) + more) + tail) == Soak(name, more + tail)
    decreases body, 1
  {
    var c := Close(close);
    Bracketed(l, Render(body), c, more, tail);
    ConsLines(l, Render(body) + ([c] + (more + tail)));
    SoakItems(inner, body, [c] + (more + tail));
    ConsLines(c, more + tail);
  }

  /** The state after reading items. */
  function After(st: State, items: seq<Item>): State {
    st.(entries := st.entries + Denote(items, st.open, |st.entries|))
  }

  lemma {:induction false} AfterCons(st: State, items: seq<Item>)
    requires items != []
    ensures After(st, items) == After(After(st, [items[0]]), items[1..])
  {
    var d := DenoteItem(items[0], st.open, |st.entries|);
    assert Denote([items[0]], st.open, |st.entries|) == d + Denote([], st.open, |st.entries| + |d|) == d;
    Assoc(st.entries, d, Denote(items[1..], st.open, |st.entries| + |d|));
  }

  lemma {:induction false} DenotePreorder(items: seq<Item>, es: seq<Entry>, parent: int)
    requires Preorder(es) && -1 <= parent < |es|
    ensures Preorder(es + Denote(items, parent, |es|))
    decreases items
  {
    if items != [] {
      var d := DenoteItem(items[0], parent, |es|);
      match items[0] {
        case Directive(_, _) =>
        case Section(name, args, body, _) =>
          var e := Entry(true, name, args, parent);
          DenotePreorder(body, es + [e], |es|);
          Assoc(es, [e], Denote(body, |es|, |es| + 1));
        case Conditional(_, holds, body, _) =>
          if holds { DenotePreorder(body, es, parent); }
      }
      assert Preorder(es + d);
      DenotePreorder(items[1..], es + d, parent);
      Assoc(es, d, Denote(items[1..], parent, |es| + |d|));
    }
  }

  lemma {:induction false} ShiftConcat(a: seq<Entry>, b: seq<Entry>, open: int, base: nat)
    ensures Shift(a + b, open, base) == Shift(a, open, base) + Shift(b, open, base)
  {
  }

  /** A tree read on its own and then moved is the tree read in place. */
  lemma {:induction false} ShiftDenote(items: seq<Item>, open: int, base: nat, p: int, b: nat)
    requires -1 <= p < b
    ensures Shift(Denote(items, p, b), open, base)
         == Denote(items, if p == -1 then open else p + base, b + base)
    decreases items, 0
  {
    if items != [] {
      var d := DenoteItem(items[0], p, b);
      ShiftItem(items[0], open, base, p, b);
      ShiftDenote(items[1..], open, base, p, b + |d|);
      ShiftConcat(d, Denote(items[1..], p, b + |d|), open, base);
    }
  }

  lemma {:induction false} ShiftItem(it: Item, open: int, base: nat, p: int, b: nat)
    requires -1 <= p < b
    ensures Shift(DenoteItem(it, p, b), open, base)
         == DenoteItem(it, if p == -1 then open else p + base, b + base)
    decreases it, 1
  {
    match it {
      case Directive(_, _) =>
      case Section(name, args, body, _) =>
        ShiftDenote(body, open, base, b, b + 1);
        ShiftConcat([Entry(true, name, args, p)], Denote(body, b, b + 1), open, base);
      case Conditional(_, holds, body, _) =>
        if holds { ShiftDenote(body, open, base, p, b); }
    }
  }

  lemma {:induction false} AfterValid(st: State, items: seq<Item>)
    requires Valid(st)
    ensures Valid(After(st, items)) && After(st, items).open == st.open
  {
    DenotePreorder(items, st.entries, st.open);
  }

  /** Reading a well-nested piece of a file adds its tree, whatever comes next. */
  lemma {:induction false} RunItems(mode: Option<Kind>, st: State, items: seq<Item>, tail: seq<Line>)
    requires Valid(st) && Closed(items)
    ensures Valid(After(st, items)) && Run(mode, st, Render(items) + tail) == Run(mode, After(st, items), tail)
    decreases items, 0
  {
    AfterValid(st, items);
    if items == [] {
      assert Render(items) + tail == tail;
      assert st.entries + [] == st.entries;
    } else {
      var more := Render(items[1..]);
      RunItem(mode, st, items[0], more, tail);
      RunItems(mode, After(st, [items[0]]), items[1..], tail);
      AfterCons(st, items);
    }
  }

  lemma {:induction false} RunItem(mode: Option<Kind>, st: State, it: Item, more: seq<Line>, tail: seq<Line>)
    requires Valid(st) && ClosedItem(it)
    ensures Valid(After(st, [it]))
    ensures Run(mode, st, (RenderItem(it) + more) + tail) == Run(mode, After(st, [it]), more + tail)
    decreases it, 1
  {
    AfterValid(st, [it]);
    AfterOne(st, it);
    match it {
      case Directive(n, args) =>
        Assoc([Plain(n, args)], more, tail);
        RunStep(mode, st, Plain(n, args), more + tail);
      case Section(n, args, body, close) =>
        RunSection(mode, st, n, args, body, close, more, tail);
      case Conditional(k, holds, body, close) =>
        RunConditional(mode, st, k, holds, body, close, more, tail);
    }
  }

  lemma {:induction false} RunConditional(mode: Option<Kind>, st: State, k: Kind, holds: bool, body: seq<Item>,
                                          close: string, more: seq<Line>, tail: seq<Line>)
    requires Valid(st) && ClosedItem(Conditional(k, holds, body, close))
    ensures
      var st' := st.(entries := st.entries + if holds then Denote(body, st.open, |st.entries|) else []);
      && Valid(st')
      && Run(mode, st, (([If(k, holds)] + Render(body) + [Close(close)]) + more) + tail) == Run(mode, st', more + tail)
    decreases body, 3
  {
    var c := Close(close);
    Bracketed(If(k, holds), Render(body), c, more, tail);
    RunStep(mode, st, If(k, holds), Render(body) + ([c] + (more + tail)));
    if holds {
      SubActive(st, k, body, close, more + tail);
    } else {
      SubSkipped(st, k, body, close, more + tail);
      assert st.entries + [] == st.entries;
    }
  }

  /** An active container contributes what is inside it. */
  lemma {:induction false} SubActive(st: State, k: Kind, body: seq<Item>, close: string, tail: seq<Line>)
    requires Valid(st) && Closed(body) && Ends(close, KindName(k))
    ensures
      var st' := st.(entries := st.entries + Denote(body, st.open, |st.entries|));
      Valid(st') && Sub(st, If(k, true), Render(body) + ([Close(close)] + tail)) == Ok((st', tail))
    decreases body, 2
  {
    RunActive(k, body, close, tail);
    ShiftDenote(body, st.open, |st.entries|, -1, 0);
    DenotePreorder(body, st.entries, st.open);
  }

  /** An inactive one nothing. */
  lemma {:induction false} SubSkipped(st: State, k: Kind, body: seq<Item>, close: string, tail: seq<Line>)
    requires Valid(st) && Skippable(body) && EndsSkipped(close, KindName(k))
    ensures Sub(st, If(k, false), Render(body) + ([Close(close)] + tail)) == Ok((st, tail))
  {
    SoakItems(KindName(k), body, [Close(close)] + tail);
    ConsLines(Close(close), tail);
  }

  lemma {:induction false} AfterOne(st: State, it: Item)
    ensures After(st, [it]).entries == st.entries + DenoteItem(it, st.open, |st.entries|)
  {
    var d := DenoteItem(it, st.open, |st.entries|);
    assert Denote([it], st.open, |st.entries|) == d + Denote([], st.open, |st.entries| + |d|) == d;
  }

  lemma {:induction false} RunSection(mode: Option<Kind>, st: State, n: string, args: string, body: seq<Item>,
                                      close: string, more: seq<Line>, tail: seq<Line>)
    requires Valid(st) && Closed(body) && Ends(close, n)
    ensures
      var e := [Entry(true, n, args, st.open)];
      var st' := st.(entries := st.entries + (e + Denote(body, |st.entries|, |st.entries| + 1)));
      && Valid(st')
      && Run(mode, st, (([Open(n, args)] + Render(body) + [Close(close)]) + more) + tail)
      == Run(mode, st', more + tail)
    decreases body, 1
  {
    var c := Close(close);
    var e := Entry(true, n, args, st.open);
    var inner := State(st.entries + [e], |st.entries|);
    Bracketed(Open(n, args), Render(body), c, more, tail);
    RunStep(mode, st, Open(n, args), Render(body) + ([c] + (more + tail)));
    RunItems(mode, inner, body, [c] + (more + tail));
    AfterValid(inner, body);
    RunStep(mode, After(inner, body), c, more + tail);
    Assoc(st.entries, [e], Denote(body, |st.entries|, |st.entries| + 1));
  }

  /** An active conditional reads its body as a tree of its own and stops right
      after the matching closing line, where skipping it would have stopped. */
  lemma {:induction false} RunActive(k: Kind, body: seq<Item>, close: string, tail: seq<Line>)
    requires Closed(body) && Ends(close, KindName(k))
    ensures Run(Some(k), State([], -1), Render(body) + ([Close(close)] + tail))
         == Ok((State(Denote(body, -1, 0), -1), tail))
    decreases body, 1
  {
    var c := Close(close);
    RunItems(Some(k), State([], -1), body, [c] + tail);
    assert [] + Denote(body, -1, 0) == Denote(body, -1, 0);
    EndsWhole(close, KindName(k));
    ConsLines(c, tail);
  }

  /** A container that is read and one that is skipped stop right after the same line. */
  lemma {:induction false} SameStop(k: Kind, body: seq<Item>, close: string, tail: seq<Line>)
    requires Closed(body) && Ends(close, KindName(k))
    ensures
      var lines := Render(body) + ([Close(close)] + tail);
      && Run(Some(k), State([], -1), lines) == Ok((State(Denote(body, -1, 0), -1), tail))
      && Soak(KindName(k), lines) == Ok(tail)
  {
    RunActive(k, body, close, tail);
    ClosedSkippable(body);
    SoakItems(KindName(k), body, [Close(close)] + tail);
    ConsLines(Close(close), tail);
  }

  lemma {:induction false} DenoteConcat(a: seq<Item>, b: seq<Item>, parent: int, base: nat)
    ensures Denote(a + b, parent, base)
         == Denote(a, parent, base) + Denote(b, parent, base + |Denote(a, parent, base)|)
    decreases a
  {
    if a == [] {
      assert a + b == b;
    } else {
      assert (a + b)[0] == a[0] && (a + b)[1..] == a[1..] + b;
      var d := DenoteItem(a[0], parent, base);
      var e := Denote(a[1..], parent, base + |d|);
      DenoteConcat(a[1..], b, parent, base + |d|);
      Assoc(d, e, Denote(b, parent, base + |d| + |e|));
    }
  }

  lemma {:induction false} ClosedConcat(a: seq<Item>, b: seq<Item>)
    requires Closed(a) && Unconditional(a) && Closed(b) && Unconditional(b)
    ensures Closed(a + b) && Unconditional(a + b)
    decreases a
  {
    if a == [] {
      assert a + b == b;
    } else {
      assert (a + b)[0] == a[0] && (a + b)[1..] == a[1..] + b;
      ClosedConcat(a[1..], b);
    }
  }

  /** Expanding leaves no conditional. */
  lemma {:induction false} ExpandCloses(items: seq<Item>)
    requires Closed(items)
    ensures Closed(Expand(items)) && Unconditional(Expand(items))
    decreases items, 0
  {
    if items != [] {
      ExpandItemCloses(items[0]);
      ExpandCloses(items[1..]);
      ClosedConcat(ExpandItem(items[0]), Expand(items[1..]));
    }
  }

  lemma {:induction false} ExpandItemCloses(it: Item)
    requires ClosedItem(it)
    ensures Closed(ExpandItem(it)) && Unconditional(ExpandItem(it))
    decreases it, 1
  {
    match it {
      case Directive(_, _) =>
        assert [it][1..] == [];
      case Section(_, _, body, _) =>
        ExpandCloses(body);
        assert ExpandItem(it)[1..] == [];
      case Conditional(_, holds, body, _) =>
        if holds { ExpandCloses(body); }
    }
  }

  /** Expanding keeps the meaning. */
  lemma {:induction false} ExpandKeepsMeaning(items: seq<Item>, parent: int, base: nat)
    ensures Denote(Expand(items), parent, base) == Denote(items, parent, base)
    decreases items, 0
  {
    if items != [] {
      var d := DenoteItem(items[0], parent, base);
      ExpandItemKeepsMeaning(items[0], parent, base);
      ExpandKeepsMeaning(items[1..], parent, base + |d|);
      DenoteConcat(ExpandItem(items[0]), Expand(items[1..]), parent, base);
    }
  }

  lemma {:induction false} ExpandItemKeepsMeaning(it: Item, parent: int, base: nat)
    ensures Denote(ExpandItem(it), parent, base) == DenoteItem(it, parent, base)
    decreases it, 1
  {
    match it {
      case Directive(_, _) =>
        assert [it][1..] == [];
      case Section(name, args, body, close) =>
        ExpandKeepsMeaning(body, base, base + 1);
        assert ExpandItem(it)[1..] == [];
      case Conditional(_, holds, body, _) =>
        if holds { ExpandKeepsMeaning(body, parent, base); }
    }
  }

  /** Conditional containers are transparent: reading a well-nested file while
      running its conditionals gives the tree of the file in which active bodies
      are put in place and inactive ones deleted. */
  lemma {:induction false} ConditionalsTransparent(es: seq<Entry>, items: seq<Item>)
    requires Preorder(es) && Closed(items)
    ensures Build(es, Render(items)) == Ok(es + Denote(items, -1, |es|))
    ensures Unconditional(Expand(items)) && Build(es, Render(Expand(items))) == Build(es, Render(items))
  {
    ExpandCloses(items);
    ExpandKeepsMeaning(items, -1, |es|);
    BuildItems(es, items);
    BuildItems(es, Expand(items));
  }

  lemma {:induction false} BuildItems(es: seq<Entry>, items: seq<Item>)
    requires Preorder(es) && Closed(items)
    ensures Build(es, Render(items)) == Ok(es + Denote(items, -1, |es|))
  {
    RunItems(None, State(es, -1), items, []);
    assert Render(items) + [] == Render(items);
  }

  /** Reading a second file into the tree of a first one reads them as one. */
  lemma {:induction false} FilesConcatenate(es: seq<Entry>, a: seq<Item>, lines: seq<Line>)
    requires Preorder(es) && Closed(a)
    ensures
      var first := Build(es, Render(a));
      first.Ok? && Build(es, Render(a) + lines) == Build(first.value, lines)
  {
    BuildItems(es, a);
    RunItems(None, State(es, -1), a, lines);
  }
}
