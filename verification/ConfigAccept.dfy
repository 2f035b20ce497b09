/** Which files are accepted: the well-nested ones, and those in which an active
    conditional container is left open, with anything left open inside it. */
module ConfigAccept {
  import opened Flattening
  import opened Basics
  import opened ConfigSpec
  import opened ConfigMeaning

  /** A file that may break off: inside it, an opening line whose container is
      never closed, and what follows that line. */
  datatype Text = Whole(items: seq<Item>) | Hanging(items: seq<Item>, opener: Line, inside: Text)

  function Lines(t: Text): seq<Line> {
    match t
    case Whole(items) => Render(items)
    case Hanging(items, opener, inside) => Render(items) + ([opener] + Lines(inside))
  }

  /** What can be left open: a section, or a conditional that holds. */
  predicate Opener(l: Line) {
    l.Open? || (l.If? && l.holds)
  }

  predicate Loose(t: Text) {
    Closed(t.items) && (t.Hanging? ==> Opener(t.opener) && Loose(t.inside))
  }

  /** No section is left open at the top. */
  predicate TopClosed(t: Text) {
    t.Whole? || t.opener.If?
  }

  /** The container an opening line starts, with a closing line of its own. */
  function Container(l: Line, body: seq<Item>): Item
    requires Opener(l)
  {
    if l.Open? then Section(l.name, l.args, body, l.name + ">")
    else Conditional(l.kind, true, body, KindName(l.kind) + ">")
  }

  /** The file with what is missing put at its end. */
  function Completed(t: Text): seq<Item>
    requires Loose(t)
  {
    if t.Whole? then t.items else t.items + [Container(t.opener, Completed(t.inside))]
  }

  /** Reading a piece of a file and then a container. */
  lemma {:induction false} AfterContainer(st: State, items: seq<Item>, it: Item)
    requires Valid(st)
    ensures Valid(After(st, items))
    ensures
      var mid := After(st, items);
      After(st, items + [it]).entries == mid.entries + DenoteItem(it, st.open, |mid.entries|)
  {
    var d := Denote(items, st.open, |st.entries|);
    AfterValid(st, items);
    AfterOne(After(st, items), it);
    DenoteConcat(items, [it], st.open, |st.entries|);
    Assoc(st.entries, d, Denote([it], st.open, |st.entries| + |d|));
  }

  /** A loose file is read to its end, into the tree of the completed one; a
      container is open then exactly if a section was left open. */
  lemma {:induction false} RunText(mode: Option<Kind>, st: State, t: Text)
    requires Valid(st) && Loose(t)
    ensures
      var r := Run(mode, st, Lines(t));
      && r.Ok? && r.value.1 == [] && r.value.0.entries == After(st, Completed(t)).entries
      && (if TopClosed(t) then r.value.0.open == st.open else r.value.0.open != -1)
    decreases t, 0
  {
    var mid := After(st, t.items);
    AfterValid(st, t.items);
    if t.Whole? {
      RunItems(mode, st, t.items, []);
      assert Render(t.items) + [] == Render(t.items);
    } else {
      var l, rest := t.opener, Lines(t.inside);
      RunItems(mode, st, t.items, [l] + rest);
      RunStep(mode, mid, l, rest);
      AfterContainer(st, t.items, Container(l, Completed(t.inside)));
      if l.Open? {
        RunHangingSection(mode, mid, l, t.inside);
      } else {
        RunHangingConditional(mid, l, t.inside);
      }
    }
  }

  lemma {:induction false} RunHangingSection(mode: Option<Kind>, st: State, l: Line, t: Text)
    requires Valid(st) && Loose(t) && l.Open?
    ensures
      var inner := State(st.entries + [Entry(true, l.name, l.args, st.open)], |st.entries|);
      var r := Run(mode, inner, Lines(t));
      && Sub(st, l, Lines(t)) == Ok((inner, Lines(t)))
      && r.Ok? && r.value.1 == [] && r.value.0.open != -1
      && r.value.0.entries == st.entries + DenoteItem(Container(l, Completed(t)), st.open, |st.entries|)
    decreases t, 1
  {
    var e := Entry(true, l.name, l.args, st.open);
    var inner := State(st.entries + [e], |st.entries|);
    RunText(mode, inner, t);
    Assoc(st.entries, [e], Denote(Completed(t), |st.entries|, |st.entries| + 1));
  }

  lemma {:induction false} RunHangingConditional(st: State, l: Line, t: Text)
    requires Valid(st) && Loose(t) && l.If? && l.holds
    ensures
      var r := Sub(st, l, Lines(t));
      && r.Ok? && r.value.1 == [] && r.value.0.open == st.open
      && r.value.0.entries == st.entries + DenoteItem(Container(l, Completed(t)), st.open, |st.entries|)
    decreases t, 1
  {
    var d := Denote(Completed(t), -1, 0);
    RunText(Some(l.kind), State([], -1), t);
    assert [] + d == d;
    assert Shift(d, st.open, |st.entries|) == Denote(Completed(t), st.open, |st.entries|) by {
      ShiftDenote(Completed(t), st.open, |st.entries|, -1, 0);
    }
  }

  /** Lines that can be skipped start with a piece that can, and its end. */
  lemma {:induction false} SoakBack(name: string, lines: seq<Line>) returns (items: seq<Item>, close: string)
    requires Soak(name, lines).Ok?
    ensures Skippable(items) && EndsSkipped(close, name)
    ensures lines == Render(items) + ([Close(close)] + Soak(name, lines).value)
    decreases |lines|
  {
    var l, tail := lines[0], lines[1..];
    assert lines == [l] + tail;
    match l {
      case Plain(n, args) =>
        items, close := SoakBack(name, tail);
        items := Prepend(Directive(n, args), items, [Close(close)] + Soak(name, lines).value);
      case Close(text) =>
        items, close := [], text;
      case Open(n, args) =>
        var body, c := SoakBack(n, tail);
        items, close := SoakBack(name, Soak(n, tail).value);
        SectionText(l, body, c, items, [Close(close)] + Soak(name, lines).value);
        items := [Section(n, args, body, c)] + items;
      case If(k, holds) =>
        var body, c := SoakBack(KindName(k), tail);
        items, close := SoakBack(name, Soak(KindName(k), tail).value);
        SectionText(l, body, c, items, [Close(close)] + Soak(name, lines).value);
        items := [Conditional(k, holds, body, c)] + items;
    }
  }

  lemma {:induction false} Prepend(it: Item, items: seq<Item>, rest: seq<Line>) returns (more: seq<Item>)
    ensures more == [it] + items && more[1..] == items
    ensures Render(more) + rest == RenderItem(it) + (Render(items) + rest)
  {
    more := [it] + items;
    Assoc(RenderItem(it), Render(items), rest);
  }

  lemma {:induction false} SectionText(l: Line, body: seq<Item>, close: string, items: seq<Item>, rest: seq<Line>)
    ensures [l] + (Render(body) + ([Close(close)] + (Render(items) + rest)))
         == (([l] + Render(body) + [Close(close)]) + Render(items)) + rest
  {
    Bracketed(l, Render(body), Close(close), Render(items), rest);
  }

  /** The line ends the container that is being read. */
  predicate ClosesHere(mode: Option<Kind>, st: State, l: Line)
    requires Valid(st)
  {
    if st.open == -1 then Closes(mode, st, l) else l.Close? && Ends(l.text, st.entries[st.open].name)
  }

  /** The lines are a loose text; or a whole one, then the line that ends the
      container, then others. */
  ghost predicate ReadsAs(mode: Option<Kind>, st: State, lines: seq<Line>, t: Text, rest: seq<Line>)
    requires Valid(st)
  {
    Loose(t) && lines == Lines(t) + rest && (rest == [] || (t.Whole? && ClosesHere(mode, st, rest[0])))
  }

  /** A complete item in front. */
  lemma {:induction false} ReadsOn(mode: Option<Kind>, st: State, it: Item, lines: seq<Line>)
    requires Valid(st) && ClosedItem(it) && Run(mode, st, RenderItem(it) + lines).Ok?
    ensures
      var st' := After(st, [it]);
      && Valid(st') && Run(mode, st', lines).Ok? && st'.open == st.open
      && (st.open != -1 ==> st'.entries[st.open] == st.entries[st.open])
  {
    Gapless(RenderItem(it), lines);
    RunItem(mode, st, it, [], lines);
    AfterOne(st, it);
  }

  lemma {:induction false} Gapless(a: seq<Line>, b: seq<Line>)
    ensures (a + []) + b == a + b && [] + b == b
  {}

  lemma {:induction false} ReadsBefore(mode: Option<Kind>, st: State, it: Item, lines: seq<Line>, t: Text,
                                       rest: seq<Line>)
    returns (t': Text)
    requires Valid(st) && ClosedItem(it) && Valid(After(st, [it])) && After(st, [it]).open == st.open
    requires st.open != -1 ==> After(st, [it]).entries[st.open] == st.entries[st.open]
    requires ReadsAs(mode, After(st, [it]), lines, t, rest)
    ensures ReadsAs(mode, st, RenderItem(it) + lines, t', rest)
  {
    var items := [it] + t.items;
    assert items[1..] == t.items;
    t' := t.(items := items);
    if t.Whole? {
      Assoc(RenderItem(it), Render(t.items), rest);
    } else {
      var more := [t.opener] + Lines(t.inside);
      Assoc(RenderItem(it), Render(t.items), more);
      Assoc(RenderItem(it), Render(t.items) + more, rest);
    }
  }

  /** Lines that are read without an error are a loose text, up to the line that
      ends the container. */
  lemma {:induction false} ReadBack(mode: Option<Kind>, st: State, lines: seq<Line>) returns (t: Text, rest: seq<Line>)
    requires Valid(st) && Run(mode, st, lines).Ok?
    ensures ReadsAs(mode, st, lines, t, rest)
    decreases |lines|, 1
  {
    t, rest := Whole([]), lines;
    if lines != [] && !Closes(mode, st, lines[0]) && !lines[0].Close? {
      var hangs, it, after;
      t, hangs, it, after := ReadBackOne(mode, st, lines);
      rest := [];
      if hangs {
        assert Lines(t) + [] == lines;
      } else {
        ReadsOn(mode, st, it, after);
        t, rest := ReadBack(mode, After(st, [it]), after);
        t := ReadsBefore(mode, st, it, after, t, rest);
      }
    }
  }

  /** The first item, if it is complete, or the text that hangs on its opening line. */
  lemma {:induction false} ReadBackOne(mode: Option<Kind>, st: State, lines: seq<Line>)
    returns (t: Text, hangs: bool, it: Item, after: seq<Line>)
    requires Valid(st) && Run(mode, st, lines).Ok? && lines != [] && !lines[0].Close?
    ensures hangs ==> Loose(t) && lines == Lines(t)
    ensures !hangs ==> ClosedItem(it) && lines == RenderItem(it) + after && |after| < |lines|
    decreases |lines|, 0
  {
    var l, tail := lines[0], lines[1..];
    assert lines == [l] + tail;
    t, hangs, it, after := Whole([]), false, Directive("", ""), tail;
    match l {
      case Plain(n, args) =>
        it := Directive(n, args);
      case Open(n, args) =>
        var inner := State(st.entries + [Entry(true, n, args, st.open)], |st.entries|);
        t, after := ReadBack(mode, inner, tail);
        if after == [] {
          t := HangOn(l, t, tail);
          hangs := true;
        } else {
          it := Section(n, args, t.items, after[0].text);
          ItemLines(l, t.items, after);
          after := after[1..];
        }
      case If(k, holds) =>
        if holds {
          t, after := ReadBack(Some(k), State([], -1), tail);
          if after == [] {
            t := HangOn(l, t, tail);
            hangs := true;
          } else {
            EndsWhole(after[0].text, KindName(k));
            it := Conditional(k, true, t.items, after[0].text);
            ItemLines(l, t.items, after);
            after := after[1..];
          }
        } else {
          var body, close := SoakBack(KindName(k), tail);
          it := Conditional(k, false, body, close);
          after := Soak(KindName(k), tail).value;
          ItemLines(l, body, [Close(close)] + after);
        }
    }
  }

  lemma {:induction false} ItemLines(l: Line, body: seq<Item>, after: seq<Line>)
    requires after != [] && after[0].Close?
    ensures [l] + (Render(body) + after) == ([l] + Render(body) + [Close(after[0].text)]) + after[1..]
  {
    assert after == [after[0]] + after[1..];
  }

  lemma {:induction false} HangOn(l: Line, t: Text, tail: seq<Line>) returns (t': Text)
    requires Opener(l) && Loose(t) && tail == Lines(t) + []
    ensures t' == Hanging([], l, t) && Loose(t') && Lines(t') == [l] + tail
  {
    t' := Hanging([], l, t);
    assert [] + ([l] + Lines(t)) == [l] + Lines(t);
  }

  /** The lines are accepted as they stand. */
  ghost predicate Acceptable(t: Text, lines: seq<Line>) {
    Loose(t) && TopClosed(t) && Lines(t) == lines
  }

  /** A file is accepted if and only if it is well nested but for an active
      conditional left open at the top, with anything left open inside; it is then
      read as if what is missing stood at its end. */
  lemma {:induction false} AcceptedIff(es: seq<Entry>, lines: seq<Line>)
    requires Preorder(es)
    ensures Build(es, lines).Ok? <==> exists t :: Acceptable(t, lines)
    ensures forall t | Acceptable(t, lines) :: Build(es, lines) == Ok(es + Denote(Completed(t), -1, |es|))
  {
    var st := State(es, -1);
    forall t | Acceptable(t, lines) ensures Build(es, lines) == Ok(es + Denote(Completed(t), -1, |es|)) {
      RunText(None, st, t);
    }
    if Build(es, lines).Ok? {
      var t, rest := ReadBack(None, st, lines);
      assert rest == [] && Lines(t) + [] == Lines(t);
      RunText(None, st, t);
      assert Acceptable(t, lines);
    }
  }

  lemma {:induction false} ClosedAppend(items: seq<Item>, it: Item)
    requires Closed(items) && ClosedItem(it)
    ensures Closed(items + [it])
    decreases items
  {
    var all := items + [it];
    if items == [] {
      assert all[1..] == [];
    } else {
      assert all[1..] == items[1..] + [it];
      ClosedAppend(items[1..], it);
    }
  }

  /** The completed file is well nested. */
  lemma {:induction false} CompletedClosed(t: Text)
    requires Loose(t)
    ensures Closed(Completed(t))
  {
    if t.Hanging? {
      var name := if t.opener.Open? then t.opener.name else KindName(t.opener.kind);
      assert CutLast(name + ">") == name;
      CompletedClosed(t.inside);
      ClosedAppend(t.items, Container(t.opener, Completed(t.inside)));
    }
  }

  /** The lines missing at the end. */
  function Missing(t: Text): seq<Line>
    requires Loose(t)
  {
    if t.Whole? then [] else Missing(t.inside) + [Close(Container(t.opener, []).close)]
  }

  lemma {:induction false} RenderAppend(items: seq<Item>, it: Item)
    ensures Render(items + [it]) == Render(items) + RenderItem(it)
    decreases |items|
  {
    var all := items + [it];
    if items == [] {
      assert all == [it] && all[1..] == [];
      assert RenderItem(it) + [] == RenderItem(it) && [] + RenderItem(it) == RenderItem(it);
    } else {
      assert all[1..] == items[1..] + [it];
      RenderAppend(items[1..], it);
      Assoc(RenderItem(items[0]), Render(items[1..]), RenderItem(it));
    }
  }

  /** A file with the missing lines is the completed file. */
  lemma {:induction false} MissingCompletes(t: Text)
    requires Loose(t)
    ensures Lines(t) + Missing(t) == Render(Completed(t))
    ensures t.Hanging? ==> Missing(t) != [] && Missing(t)[0].Close?
  {
    if t.Hanging? {
      var l, body := t.opener, Completed(t.inside);
      var it := Container(l, body);
      MissingCompletes(t.inside);
      RenderAppend(t.items, it);
      assert RenderItem(it) == [l] + Render(body) + [Close(it.close)];
      Joined(Render(t.items), l, Lines(t.inside), Missing(t.inside), Close(it.close));
    } else {
      assert Render(t.items) + [] == Render(t.items);
    }
  }

  lemma {:induction false} Joined(a: seq<Line>, l: Line, b: seq<Line>, c: seq<Line>, close: Line)
    ensures (a + ([l] + b)) + (c + [close]) == a + ([l] + (b + c) + [close])
  {}

  lemma {:induction false} StrayClose(es: seq<Entry>, lines: seq<Line>)
    requires Preorder(es) && lines != [] && lines[0].Close?
    ensures Build(es, lines).Err?
  {
    assert Sub(State(es, -1), lines[0], lines[1..]).Err?;
  }

  ghost predicate WellNested(lines: seq<Line>) {
    exists items :: Closed(items) && Render(items) == lines
  }

  /** Whatever follows the lines in the same file could stand in a second one. */
  ghost predicate Separable(es: seq<Entry>, lines: seq<Line>)
    requires Preorder(es) && Build(es, lines).Ok?
  {
    forall more :: Build(es, lines + more) == Build(Build(es, lines).value, more)
  }

  /** An accepted file can be separated from what follows it if and only if it is
      well nested. */
  lemma {:induction false} SeparableIff(es: seq<Entry>, lines: seq<Line>)
    requires Preorder(es) && Build(es, lines).Ok?
    ensures Separable(es, lines) <==> WellNested(lines)
  {
    if WellNested(lines) {
      var items :| Closed(items) && Render(items) == lines;
      forall more ensures Build(es, lines + more) == Build(Build(es, lines).value, more) {
        FilesConcatenate(es, items, more);
      }
    } else {
      AcceptedIff(es, lines);
      var t :| Acceptable(t, lines);
      MissingCompletes(t);
      CompletedClosed(t);
      ConditionalsTransparent(es, Completed(t));
      StrayClose(Build(es, lines).value, Missing(t));
      assert Build(es, lines + Missing(t)) != Build(Build(es, lines).value, Missing(t));
    }
  }

  /** Containers opened and not closed. */
  function Balance(lines: seq<Line>): int {
    if lines == [] then 0
    else (match lines[0] case Plain(_, _) => 0 case Close(_) => -1 case _ => 1) + Balance(lines[1..])
  }

  lemma {:induction false} BalanceConcat(a: seq<Line>, b: seq<Line>)
    ensures Balance(a + b) == Balance(a) + Balance(b)
  {
    if a == [] {
      assert a + b == b;
    } else {
      assert (a + b)[1..] == a[1..] + b;
      BalanceConcat(a[1..], b);
    }
  }

  lemma {:induction false} RenderBalanced(items: seq<Item>)
    ensures Balance(Render(items)) == 0
    decreases items
  {
    if items != [] {
      var it := items[0];
      RenderBalanced(items[1..]);
      BalanceConcat(RenderItem(it), Render(items[1..]));
      if !it.Directive? {
        var l := if it.Section? then Open(it.name, it.args) else If(it.kind, it.holds);
        RenderBalanced(it.body);
        BalanceConcat([l], Render(it.body));
        BalanceConcat([l] + Render(it.body), [Close(it.close)]);
      }
    }
  }

  /** An active conditional and a section inside it, neither closed: the file is
      not well nested, and accepted. With the condition false it is refused. */
  lemma {:induction false} MissingCloseUnnoticed(k: Kind, name: string, args: string)
    ensures Build([], [If(k, true), Open(name, args)]).Ok?
    ensures forall items :: Render(items) != [If(k, true), Open(name, args)]
    ensures Build([], [If(k, false), Open(name, args)]).Err?
  {
    var lines := [If(k, true), Open(name, args)];
    var inside := HangOn(Open(name, args), Whole([]), []);
    var t := HangOn(If(k, true), inside, [Open(name, args)]);
    assert [If(k, true)] + [Open(name, args)] == lines;
    assert Acceptable(t, lines);
    AcceptedIff([], lines);
    OpenTwice(If(k, true), Open(name, args));
    forall items ensures Render(items) != lines {
      RenderBalanced(items);
    }
    assert [If(k, false), Open(name, args)] == [If(k, false)] + [Open(name, args)];
    RunStep(None, State([], -1), If(k, false), [Open(name, args)]);
    assert [Open(name, args)][1..] == [] && Soak(name, []).Err?;
    assert SoakNested(name, KindName(k), [Open(name, args)]).Err?;
  }

  lemma {:induction false} OpenTwice(a: Line, b: Line)
    requires !a.Plain? && !a.Close? && !b.Plain? && !b.Close?
    ensures Balance([a, b]) == 2
  {
    assert [a, b] == [a] + [b] && [a][1..] == [] && [b][1..] == [];
    BalanceConcat([a], [b]);
  }

  predicate NoConditionals(lines: seq<Line>) {
    forall i | 0 <= i < |lines| :: !lines[i].If?
  }

  lemma {:induction false} NoConditionalsIn(a: seq<Line>, b: seq<Line>)
    requires NoConditionals(a + b)
    ensures NoConditionals(a) && NoConditionals(b) && (b != [] ==> !b[0].If?)
  {
    assert forall i | 0 <= i < |a| :: a[i] == (a + b)[i];
    assert forall i | 0 <= i < |b| :: b[i] == (a + b)[|a| + i];
  }

  lemma {:induction false} RenderUnconditional(items: seq<Item>)
    requires NoConditionals(Render(items))
    ensures Unconditional(items)
    decreases items
  {
    if items != [] {
      var it := items[0];
      NoConditionalsIn(RenderItem(it), Render(items[1..]));
      RenderUnconditional(items[1..]);
      match it {
        case Directive(_, _) =>
        case Section(n, args, body, close) =>
          NoConditionalsIn([Open(n, args)] + Render(body), [Close(close)]);
          NoConditionalsIn([Open(n, args)], Render(body));
          RenderUnconditional(body);
        case Conditional(_, _, _, _) =>
          assert !RenderItem(it)[0].If?;
      }
    }
  }

  /** Without conditionals, reading succeeds exactly on well-nested files. */
  lemma {:induction false} BuildsIffWellNested(lines: seq<Line>)
    requires NoConditionals(lines)
    ensures Build([], lines).Ok? <==>
            exists items :: Closed(items) && Unconditional(items) && Render(items) == lines
  {
    AcceptedIff([], lines);
    if Build([], lines).Ok? {
      var t :| Acceptable(t, lines);
      var items := WholeText(t, lines);
      assert Closed(items) && Unconditional(items) && Render(items) == lines;
    }
    if items :| Closed(items) && Unconditional(items) && Render(items) == lines {
      assert Acceptable(Whole(items), lines);
    }
  }

  /** A section is closed by its name in any mix of capitals and small letters, and
      by nothing else. */
  lemma {:induction false} ClosingCase(name: string, args: string, close: string)
    ensures Build([], [Open(name, args), Close(close)]).Ok? <==>
            exists other | SameLetters(other, name) :: close == other + ">"
  {
    var lines := [Open(name, args), Close(close)];
    if close != "" {
      assert close == CutLast(close) + [close[|close| - 1]];
    }
    assert Ends(close, name) <==> exists other | SameLetters(other, name) :: close == other + ">" by {
      if other :| SameLetters(other, name) && close == other + ">" {
        assert CutLast(close) == other;
      }
    }
    var inner := State([Entry(true, name, args, -1)], 0);
    RunStep(None, State([], -1), Open(name, args), [Close(close)]);
    RunStep(None, inner, Close(close), []);
    assert lines == [Open(name, args)] + [Close(close)] && [Close(close)] == [Close(close)] + [];
  }

  lemma {:induction false} WholeText(t: Text, lines: seq<Line>) returns (items: seq<Item>)
    requires Acceptable(t, lines) && NoConditionals(lines)
    ensures t == Whole(items) && Closed(items) && Unconditional(items) && Render(items) == lines
  {
    items := t.items;
    if t.Hanging? {
      NoConditionalsIn(Render(t.items), [t.opener] + Lines(t.inside));
      assert false;
    } else {
      RenderUnconditional(t.items);
    }
  }
}
