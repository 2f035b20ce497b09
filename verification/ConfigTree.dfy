/** The configuration tree as the linked structure it is, built line by line. */
module ConfigTree {
  import opened Basics
  import opened ConfigSpec
  import opened ConfigLinks

  /** ap_directive_t. */
  class Node {
    const section: bool
    const name: string
    const args: string
    var next: Node?
    var firstChild: Node?
    var parent: Node?

    constructor (section: bool, name: string, args: string)
      ensures this.section == section && this.name == name && this.args == args
      ensures next == null && firstChild == null && parent == null
    {
      this.section, this.name, this.args := section, name, args;
      next, firstChild, parent := null, null, null;
    }
  }

  ghost function At(all: seq<Node>, i: int): Node? {
    if 0 <= i < |all| then all[i] else null
  }

  ghost predicate Distinct(all: seq<Node>) {
    forall i, j | 0 <= i < j < |all| :: all[i] != all[j]
  }

  ghost predicate Shows(n: Node, e: Entry) {
    n.section == e.section && n.name == e.name && n.args == e.args
  }

  ghost predicate Same(all: seq<Node>, es: seq<Entry>) {
    && |all| == |es| && Preorder(es) && Distinct(all)
    && forall i | 0 <= i < |all| :: Shows(all[i], es[i])
  }

  ghost predicate NextLinks(all: seq<Node>, es: seq<Entry>)
    reads all`next
  {
    |all| == |es| && forall i {:trigger all[i].next} | 0 <= i < |all| :: all[i].next == At(all, Next(es, i))
  }

  ghost predicate ChildLinks(all: seq<Node>, es: seq<Entry>)
    reads all`firstChild
  {
    |all| == |es| && forall i {:trigger all[i].firstChild} | 0 <= i < |all| ::
      all[i].firstChild == At(all, FirstChild(es, i))
  }

  /** Parents, except those of entries at container o from base on, beyond upTo. */
  ghost predicate ParentLinks(all: seq<Node>, es: seq<Entry>, o: int, base: nat, upTo: int)
    reads all`parent
  {
    && |all| == |es|
    && forall i {:trigger all[i].parent} | 0 <= i < |all| && (i < base || es[i].parent != o || i <= upTo) ::
         all[i].parent == At(all, es[i].parent)
  }

  /** The nodes, in file order, are linked as the entries say. */
  ghost predicate Linked(all: seq<Node>, es: seq<Entry>)
    reads all
  {
    Same(all, es) && NextLinks(all, es) && ChildLinks(all, es) && ParentLinks(all, es, 0, |es|, 0)
  }

  /** The builder's view of a state: the tree and where it is in it. */
  ghost predicate Building(all: seq<Node>, st: State, current: Node?, parent: Node?)
    reads all
  {
    && Valid(st) && Linked(all, st.entries) && Spine(st.entries, st.open)
    && parent == At(all, st.open)
    && current == At(all, LastChild(st.entries, st.open))
  }

  /** A subtree of its own, and nodes disjoint from it. */
  ghost predicate Apart(all0: seq<Node>, sub: seq<Node>) {
    forall n | n in sub :: n !in all0
  }

  lemma {:induction false} AtConcat(a: seq<Node>, b: seq<Node>, i: int)
    ensures 0 <= i < |a| ==> At(a + b, i) == At(a, i)
    ensures 0 <= i < |b| ==> At(a + b, |a| + i) == At(b, i)
    ensures At(a + b, -1) == null
  {}

  lemma {:induction false} SameSplice(all0: seq<Node>, st: State, sub: seq<Node>, subEs: seq<Entry>)
    requires Valid(st) && Same(all0, st.entries) && Same(sub, subEs) && Apart(all0, sub)
    ensures Same(all0 + sub, Splice(st, subEs).entries)
  {
    var es, all := Splice(st, subEs).entries, all0 + sub;
    forall i | 0 <= i < |all| ensures Shows(all[i], es[i]) && -1 <= es[i].parent < i {
      if i >= |all0| { assert all[i] == sub[i - |all0|] && es[i] == ShiftEntry(subEs[i - |all0|], st.open, |all0|); }
    }
    forall i, j | 0 <= i < j < |all| ensures all[i] != all[j] {
      if j >= |all0| { assert all[j] == sub[j - |all0|] && all[j] in sub; }
      if i >= |all0| { assert all[i] == sub[i - |all0|]; }
    }
  }

  /** If the last node of the open container, where there is one, points to the
      subtree and nothing else changed, the next links are those of the whole. */
  lemma {:induction false} NextSpliced(all0: seq<Node>, st: State, sub: seq<Node>, subEs: seq<Entry>)
    requires Valid(st) && Preorder(subEs) && Distinct(all0)
    requires |all0| == |st.entries| && NextLinks(sub, subEs)
    requires forall i {:trigger all0[i].next} | 0 <= i < |all0| ::
               all0[i].next == if i == LastChild(st.entries, st.open) then At(sub, 0) else At(all0, Next(st.entries, i))
    ensures NextLinks(all0 + sub, Splice(st, subEs).entries)
  {
    var es, all := Splice(st, subEs).entries, all0 + sub;
    forall i | 0 <= i < |all| ensures all[i].next == At(all, Next(es, i)) {
      NextSplice(st.entries, subEs, st.open, i);
      if i < |all0| {
        NextOfLast(st.entries, i);
        AtConcat(all0, sub, Next(st.entries, i));
        AtConcat(all0, sub, 0);
      } else {
        AtConcat(all0, sub, Next(subEs, i - |all0|));
      }
    }
  }

  lemma {:induction false} ChildSpliced(all0: seq<Node>, st: State, sub: seq<Node>, subEs: seq<Entry>)
    requires Valid(st) && Spine(st.entries, st.open) && Preorder(subEs) && Distinct(all0)
    requires |all0| == |st.entries| && ChildLinks(sub, subEs)
    requires forall i {:trigger all0[i].firstChild} | 0 <= i < |all0| ::
               all0[i].firstChild == if i == st.open && LastChild(st.entries, st.open) == -1 then At(sub, 0)
                                     else At(all0, FirstChild(st.entries, i))
    ensures ChildLinks(all0 + sub, Splice(st, subEs).entries)
  {
    var es, all := Splice(st, subEs).entries, all0 + sub;
    forall i | 0 <= i < |all| ensures all[i].firstChild == At(all, FirstChild(es, i)) {
      FirstChildSplice(st.entries, subEs, st.open, i);
      if i < |all0| {
        if i == st.open && i < |all0| - 1 { SpineHasChild(st.entries, i); }
        AtConcat(all0, sub, FirstChild(st.entries, i));
        AtConcat(all0, sub, 0);
      } else {
        AtConcat(all0, sub, FirstChild(subEs, i - |all0|));
      }
    }
  }

  /** Only the top of the subtree still lacks its parent, but for `first`. */
  lemma {:induction false} ParentSpliced(all0: seq<Node>, st: State, sub: seq<Node>, subEs: seq<Entry>, first: bool)
    requires Valid(st) && Preorder(subEs)
    requires ParentLinks(all0, st.entries, 0, |st.entries|, 0) && |sub| == |subEs|
    requires forall i {:trigger sub[i].parent} | 0 <= i < |sub| ::
               sub[i].parent == if first && i == 0 then At(all0, st.open) else At(sub, subEs[i].parent)
    ensures ParentLinks(all0 + sub, Splice(st, subEs).entries, st.open, |all0|, if first then |all0| else -1)
  {
    var es, all := Splice(st, subEs).entries, all0 + sub;
    forall i | 0 <= i < |all| && (i < |all0| || es[i].parent != st.open || (first && i == |all0|))
      ensures all[i].parent == At(all, es[i].parent)
    {
      if i < |all0| {
        AtConcat(all0, sub, st.entries[i].parent);
      } else {
        assert es[i] == ShiftEntry(subEs[i - |all0|], st.open, |all0|);
        AtConcat(all0, sub, subEs[i - |all0|].parent);
        AtConcat(all0, sub, st.open);
      }
    }
  }

  /** Hooked in, with parents still missing at container o beyond position upTo. */
  ghost predicate Hooked(all: seq<Node>, es: seq<Entry>, o: int, base: nat, upTo: int)
    reads all
  {
    Same(all, es) && NextLinks(all, es) && ChildLinks(all, es) && ParentLinks(all, es, o, base, upTo)
  }

  /** The splice of ap_build_config_sub when the container has a last node. */
  method HookAfter(ghost all0: seq<Node>, ghost st: State, ghost sub: seq<Node>, ghost subEs: seq<Entry>,
                   current: Node, ghost parent: Node?, subTree: Node?)
    requires Building(all0, st, current, parent)
    requires Linked(sub, subEs) && subTree == At(sub, 0) && Apart(all0, sub)
    modifies current`next
    ensures Hooked(all0 + sub, Splice(st, subEs).entries, st.open, |all0|, -1)
  {
    Disjoint(all0, sub);
    ghost var all, es := all0 + sub, Splice(st, subEs).entries;
    assert current == all0[LastChild(st.entries, st.open)];
    current.next := subTree;
    assert Same(all, es) by { SameSplice(all0, st, sub, subEs); }
    assert NextLinks(all, es) by { NextSpliced(all0, st, sub, subEs); }
    assert ChildLinks(all, es) by { ChildSpliced(all0, st, sub, subEs); }
    assert ParentLinks(all, es, st.open, |all0|, -1) by { ParentSpliced(all0, st, sub, subEs, false); }
  }

  /** The splice when the container is still empty. */
  method HookFirst(ghost all0: seq<Node>, ghost st: State, ghost sub: seq<Node>, ghost subEs: seq<Entry>,
                   parent: Node?, subTree: Node?)
    requires Building(all0, st, null, parent)
    requires Linked(sub, subEs) && subTree == At(sub, 0) && Apart(all0, sub)
    modifies parent, subTree
    ensures Hooked(all0 + sub, Splice(st, subEs).entries, st.open, |all0|, if sub == [] then -1 else |all0|)
  {
    Disjoint(all0, sub);
    ghost var all, es, c := all0 + sub, Splice(st, subEs).entries, if sub == [] then -1 else |all0|;
    if parent != null {
      assert parent == all0[st.open];
      parent.firstChild := subTree;
    }
    if subTree != null {
      assert subTree == sub[0];
      subTree.parent := parent;
    }
    assert Same(all, es) by { SameSplice(all0, st, sub, subEs); }
    assert NextLinks(all, es) by { NextSpliced(all0, st, sub, subEs); }
    assert ChildLinks(all, es) by { ChildSpliced(all0, st, sub, subEs); }
    assert ParentLinks(all, es, st.open, |all0|, c) by { ParentSpliced(all0, st, sub, subEs, sub != []); }
  }

  lemma {:induction false} Disjoint(all0: seq<Node>, sub: seq<Node>)
    requires Apart(all0, sub)
    ensures forall i, j | 0 <= i < |all0| && 0 <= j < |sub| :: all0[i] != sub[j]
  {
    forall i, j | 0 <= i < |all0| && 0 <= j < |sub| ensures all0[i] != sub[j] {
      assert sub[j] in sub;
    }
  }

  /** The walk of ap_build_config_sub to the end of the spliced list, giving each
      node its parent. */
  method AdoptAll(ghost all: seq<Node>, ghost region: set<Node>, ghost es: seq<Entry>, ghost o: int, ghost base: nat,
                  ghost c0: nat, current0: Node, parent: Node?)
    returns (current: Node)
    requires Hooked(all, es, o, base, c0) && c0 < |all| && es[c0].parent == o && o < base
    requires current0 == all[c0] && parent == At(all, o)
    requires forall i | 0 <= i < |all| :: all[i] in region
    modifies region`parent
    ensures Linked(all, es) && current == At(all, LastChild(es, o))
  {
    current := current0;
    ghost var c := c0;
    while current.next != null
      invariant c0 <= c < |all| && current == all[c] && es[c].parent == o
      invariant NextLinks(all, es) && ParentLinks(all, es, o, base, c)
      decreases |all| - c
    {
      assert current.next == At(all, Next(es, c));
      current := current.next;
      current.parent := parent;
      Adopted(all, es, o, base, c, Next(es, c));
      c := Next(es, c);
    }
    assert Next(es, c) == -1;
    NextOfLast(es, c);
    ParentsComplete(all, es, o, base, c);
  }

  lemma {:induction false} Adopted(all: seq<Node>, es: seq<Entry>, o: int, base: nat, c: nat, n: nat)
    requires Same(all, es) && c < n < |es| && n == Next(es, c) && es[c].parent == o
    requires all[n].parent == At(all, o)
    requires forall i {:trigger all[i].parent} | 0 <= i < |all| && i != n
      && (i < base || es[i].parent != o || i <= c) ::
               all[i].parent == At(all, es[i].parent)
    ensures ParentLinks(all, es, o, base, n)
  {}

  lemma {:induction false} ParentsComplete(all: seq<Node>, es: seq<Entry>, o: int, base: nat, c: int)
    requires ParentLinks(all, es, o, base, c) && c == LastChild(es, o)
    ensures ParentLinks(all, es, 0, |es|, 0)
  {}

  ghost predicate Within(all: seq<Node>, region: set<Node>) {
    forall i | 0 <= i < |all| :: all[i] in region
  }

  /** Past a splice the builder is where the specification says. */
  lemma {:induction false} SplicedState(all0: seq<Node>, st: State, sub: seq<Node>, subEs: seq<Entry>)
    requires Valid(st) && Spine(st.entries, st.open) && Preorder(subEs)
    requires |all0| == |st.entries| && |sub| == |subEs|
    ensures Valid(Splice(st, subEs)) && Spine(Splice(st, subEs).entries, st.open)
    ensures At(all0 + sub, st.open) == At(all0, st.open)
  {
    var shifted := Shift(subEs, st.open, |st.entries|);
    var es := st.entries + shifted;
    forall i | 0 <= i < |es| ensures -1 <= es[i].parent < i {
      if i >= |st.entries| { assert es[i] == ShiftEntry(subEs[i - |st.entries|], st.open, |st.entries|); }
    }
    SpineExtend(st.entries, shifted, st.open);
    AtConcat(all0, sub, st.open);
  }

  /** What ap_build_config_sub does with the subtree a conditional has built. */
  method SpliceIn(ghost all0: seq<Node>, ghost st: State, ghost sub: seq<Node>, ghost subEs: seq<Entry>,
                  ghost region: set<Node>, current0: Node?, parent: Node?, subTree: Node?)
    returns (current: Node?)
    requires Building(all0, st, current0, parent)
    requires Linked(sub, subEs) && subTree == At(sub, 0) && Apart(all0, sub)
    requires Within(all0, region) && Within(sub, region)
    modifies region
    ensures Building(all0 + sub, Splice(st, subEs), current, parent)
    ensures all0 == [] ==> sub == [] || current != null
  {
    ghost var all, es, o := all0 + sub, Splice(st, subEs).entries, st.open;
    SplicedState(all0, st, sub, subEs);
    current := current0;
    ghost var c := LastChild(st.entries, o);
    if current != null {
      HookAfter(all0, st, sub, subEs, current, parent, subTree);
      LateParents(all, es, o, |all0|, c);
    } else {
      HookFirst(all0, st, sub, subEs, parent, subTree);
      current, c := subTree, if sub == [] then -1 else |all0|;
    }
    if current != null {
      assert es[c].parent == o;
      current := AdoptAll(all, region, es, o, |all0|, c, current, parent);
    } else {
      assert all == all0 && es == st.entries;
    }
  }

  lemma {:induction false} LateParents(all: seq<Node>, es: seq<Entry>, o: int, base: nat, c: nat)
    requires Hooked(all, es, o, base, -1) && c < base
    ensures Hooked(all, es, o, base, c)
  {}

  /** The state after a line that adds an entry. */
  function Added(st: State, section: bool, name: string, args: string): State {
    State(st.entries + [Entry(section, name, args, st.open)], if section then |st.entries| else st.open)
  }

  lemma {:induction false} AddedState(all0: seq<Node>, st: State, n: Node, section: bool)
    requires Valid(st) && Same(all0, st.entries) && Spine(st.entries, st.open)
    ensures
      var st' := Added(st, section, n.name, n.args);
      && Valid(st') && Spine(st'.entries, st'.open)
      && st'.entries == Splice(st, [Entry(section, n.name, n.args, -1)]).entries
      && At(all0 + [n], st'.open) == (if section then n else At(all0, st.open))
      && At(all0 + [n], LastChild(st'.entries, st'.open)) == (if section then null else n)
  {
    var e := Entry(section, n.name, n.args, -1);
    var st' := Added(st, section, n.name, n.args);
    assert Shift([e], st.open, |st.entries|) == [ShiftEntry(e, st.open, |st.entries|)];
    SplicedState(all0, st, [n], [e]);
    var es := st'.entries;
    LastUnique(es, st.open, |st.entries|);
    LastUnique(es, |st.entries|, -1);
    AtConcat(all0, [n], 0);
  }

  /** ap_add_node: hook a new node in after current, or as the first in the open
      container; a section becomes the open container. */
  method AddNode(ghost all0: seq<Node>, ghost st: State, ghost region: set<Node>, current0: Node?, parent0: Node?,
                 toadd: Node, child: bool)
    returns (current: Node?, parent: Node?)
    requires Building(all0, st, current0, parent0) && Within(all0, region)
    requires Linked([toadd], [Entry(child, toadd.name, toadd.args, -1)]) && toadd !in region
    modifies region, toadd
    ensures Building(all0 + [toadd], Added(st, child, toadd.name, toadd.args), current, parent)
  {
    ghost var sub, subEs := [toadd], [Entry(child, toadd.name, toadd.args, -1)];
    ghost var all, es := all0 + sub, Splice(st, subEs).entries;
    assert Apart(all0, sub);
    Disjoint(all0, sub);
    parent := parent0;
    if current0 == null {
      if parent != null {
        parent.firstChild := toadd;
        toadd.parent := parent;
      }
    } else {
      current0.next := toadd;
      toadd.parent := parent;
    }
    assert Same(all, es) by { SameSplice(all0, st, sub, subEs); }
    assert NextLinks(all, es) by { NextSpliced(all0, st, sub, subEs); }
    assert ChildLinks(all, es) by { ChildSpliced(all0, st, sub, subEs); }
    assert ParentLinks(all, es, 0, |es|, 0) by {
      ParentSpliced(all0, st, sub, subEs, true);
    }
    AddedState(all0, st, toadd, child);
    if child {
      current, parent := null, toadd;
    } else {
      current := toadd;
    }
  }

  /** An open configuration file: the lines not yet read. */
  class ConfigFile {
    var rest: seq<Line>

    constructor (lines: seq<Line>)
      ensures rest == lines
    {
      rest := lines;
    }

    method GetLine() returns (l: Line)
      requires rest != []
      modifies this
      ensures l == old(rest)[0] && rest == old(rest)[1..]
    {
      l, rest := rest[0], rest[1..];
    }

    /** ap_soak_end_container. */
    method SoakEndContainer(directive: string) returns (ok: bool)
      modifies this
      ensures ok <==> Soak(directive, old(rest)).Ok?
      ensures ok ==> rest == Soak(directive, old(rest)).value
      ensures |rest| <= |old(rest)|
      decreases |rest|
    {
      while rest != []
        invariant Soak(directive, rest) == Soak(directive, old(rest)) && |rest| <= |old(rest)|
        decreases |rest|
      {
        var l := GetLine();
        match l {
          case Plain(_, _) =>
          case Close(text) =>
            return SameName(CutLast(text), directive);
          case Open(n, _) =>
            var nested := SoakEndContainer(n);
            if !nested { return false; }
          case If(k, _) =>
            var nested := SoakEndContainer(KindName(k));
            if !nested { return false; }
        }
      }
      return false;
    }
  }

  lemma {:induction false} LinkedOne(n: Node)
    requires n.next == null && n.firstChild == null && n.parent == null
    ensures Linked([n], [Entry(n.section, n.name, n.args, -1)])
  {}

  /** The nodes are linked as the state says, and the tree's head is known unless it
      is one of the two nodes at hand. */
  ghost predicate Built(all: seq<Node>, st: State, current: Node?, parent: Node?, tree: Node?)
    reads all
  {
    Building(all, st, current, parent) && if tree == null then |all| <= 1 else tree == At(all, 0)
  }

  /** A directive or section line: allocate the node and add it. */
  method AddLine(l: Line, ghost rest: seq<Line>, ghost all0: seq<Node>, ghost st: State, ghost region: set<Node>,
                 current0: Node?, parent0: Node?, ghost tree: Node?)
    returns (current: Node?, parent: Node?, n: Node, ghost st': State)
    requires Building(all0, st, current0, parent0) && Within(all0, region) && tree == At(all0, 0)
    requires l.Plain? || l.Open?
    modifies region
    ensures fresh(n) && Sub(st, l, rest) == Ok((st', rest)) && Built(all0 + [n], st', current, parent, tree)
  {
    st' := Sub(st, l, rest).value.0;
    n := new Node(l.Open?, l.name, l.args);
    LinkedOne(n);
    AtConcat(all0, [n], 0);
    current, parent := AddNode(all0, st, region, current0, parent0, n, l.Open?);
  }

  lemma {:induction false} WithinConcat(a: seq<Node>, b: seq<Node>, ra: set<Node>, rb: set<Node>)
    requires Within(a, ra) && Within(b, rb)
    ensures Within(a + b, ra + rb) && Within(a, ra + rb) && Within(b, ra + rb)
  {}

  lemma {:induction false} ApartFrom(a: seq<Node>, b: seq<Node>, ra: set<Node>, rb: set<Node>)
    requires Within(a, ra) && Within(b, rb) && ra !! rb
    ensures Apart(a, b)
  {}

  /** Splice the body of a conditional in; it may bring the head of the tree. */
  method SpliceBody(ghost all0: seq<Node>, ghost st: State, ghost sub: seq<Node>, ghost subEs: seq<Entry>,
                    ghost region: set<Node>, current0: Node?, parent: Node?, subTree: Node?, tree0: Node?)
    returns (current: Node?, tree: Node?)
    requires Building(all0, st, current0, parent) && Linked(sub, subEs) && Apart(all0, sub)
    requires Within(all0, region) && Within(sub, region) && subTree == At(sub, 0) && tree0 == At(all0, 0)
    modifies region
    ensures Built(all0 + sub, Splice(st, subEs), current, parent, tree)
  {
    AtConcat(all0, sub, 0);
    tree := tree0;
    current := SpliceIn(all0, st, sub, subEs, region, current0, parent, subTree);
    if current != null && tree == null {
      tree := subTree;
    }
  }

  /** A conditional that holds: start_ifmod or start_ifdefine builds its body, and
      ap_build_config_sub splices it in. */
  method RunActive(l: Line, file: ConfigFile, ghost all0: seq<Node>, ghost st: State,
                   ghost region: set<Node>, current0: Node?, parent: Node?, tree0: Node?)
    returns (ok: bool, current: Node?, tree: Node?, ghost sub: seq<Node>, ghost news: set<Node>, ghost st': State)
    requires Building(all0, st, current0, parent) && Within(all0, region) && tree0 == At(all0, 0)
    requires l.If? && l.holds
    modifies file, region
    ensures |file.rest| <= |old(file.rest)|
    ensures ok <==> Sub(st, l, old(file.rest)).Ok?
    ensures ok ==> Sub(st, l, old(file.rest)) == Ok((st', file.rest))
    ensures ok ==> Built(all0 + sub, st', current, parent, tree)
    ensures ok ==> fresh(news) && Within(sub, news)
    decreases |file.rest|, 1
  {
    current, tree, st' := current0, tree0, st;
    var subTree;
    ghost var end;
    ok, subTree, sub, news, end := BuildContConfig(l.kind, file);
    if ok {
      st' := Splice(st, end.entries);
      WithinConcat(all0, sub, region, news);
      ApartFrom(all0, sub, region, news);
      current, tree := SpliceBody(all0, st, sub, end.entries, region + news, current, parent, subTree, tree);
    }
  }

  /** A conditional that does not hold: its lines are skipped. */
  method SkipInactive(k: Kind, file: ConfigFile, ghost all0: seq<Node>, ghost st: State, ghost current: Node?,
                      ghost parent: Node?, ghost tree: Node?)
    returns (ok: bool)
    requires Building(all0, st, current, parent) && tree == At(all0, 0)
    modifies file
    ensures |file.rest| <= |old(file.rest)|
    ensures ok <==> Sub(st, If(k, false), old(file.rest)).Ok?
    ensures ok ==> Sub(st, If(k, false), old(file.rest)) == Ok((st, file.rest))
    ensures ok ==> Built(all0, st, current, parent, tree)
  {
    ok := file.SoakEndContainer(KindName(k));
  }

  /** A closing line: back to the container around the one it closes. */
  method CloseSection(text: string, ghost rest: seq<Line>, ghost all0: seq<Node>, ghost st: State, current0: Node?,
                      parent0: Node?, ghost tree: Node?)
    returns (ok: bool, current: Node?, parent: Node?, ghost st': State)
    requires Building(all0, st, current0, parent0) && tree == At(all0, 0)
    ensures ok <==> Sub(st, Close(text), rest).Ok?
    ensures ok ==> Sub(st, Close(text), rest) == Ok((st', rest)) && Built(all0, st', current, parent, tree)
  {
    ok, current, parent, st' := true, current0, parent0, st;
    if parent == null || text == "" || text[|text| - 1] != '>' || !SameName(CutLast(text), parent.name) {
      ok := false;
    } else {
      SpineClose(st.entries, st.open);
      current := parent;
      parent := current.parent;
      st' := Sub(st, Close(text), rest).value.0;
    }
  }

  /** ap_build_config_sub: what one line does to the tree. `added` are the nodes
      it creates. */
  method BuildConfigSub(l: Line, file: ConfigFile, ghost all0: seq<Node>, ghost st: State, ghost region: set<Node>,
                        current0: Node?, parent0: Node?, tree0: Node?)
    returns (ok: bool, current: Node?, parent: Node?, tree: Node?, ghost added: seq<Node>, ghost news: set<Node>,
             ghost st': State)
    requires Building(all0, st, current0, parent0) && Within(all0, region) && tree0 == At(all0, 0)
    modifies file, region
    ensures |file.rest| <= |old(file.rest)|
    ensures ok <==> Sub(st, l, old(file.rest)).Ok?
    ensures ok ==> Sub(st, l, old(file.rest)) == Ok((st', file.rest))
    ensures ok ==> Built(all0 + added, st', current, parent, tree)
    ensures ok ==> fresh(news) && Within(added, news)
    decreases |file.rest|, 2
  {
    ok, current, parent, tree, added, news, st' := true, current0, parent0, tree0, [], {}, st;
    assert all0 + [] == all0;
    if l.Plain? || l.Open? {
      var n;
      current, parent, n, st' := AddLine(l, file.rest, all0, st, region, current, parent, tree);
      added, news := [n], {n};
    } else if l.Close? {
      ok, current, parent, st' := CloseSection(l.text, file.rest, all0, st, current, parent, tree);
    } else if l.holds {
      ok, current, tree, added, news, st' := RunActive(l, file, all0, st, region, current, parent, tree);
    } else {
      ok := SkipInactive(l.kind, file, all0, st, current, parent, tree);
    }
  }

  /** The head of the tree, if it was not known, is the open container or the last
      child. */
  lemma {:induction false} HeadOf(all: seq<Node>, st: State, current: Node?, parent: Node?, tree: Node?)
    requires Built(all, st, current, parent, tree)
    ensures At(all, 0) == if tree != null then tree else if parent != null then parent else current
  {
    if tree == null && |all| == 1 { assert st.entries[0].parent == -1; }
  }

  /** One round of the reading loops: a line, and the head of the tree if it is new. */
  method BuildLine(l: Line, file: ConfigFile, ghost all0: seq<Node>, ghost st0: State, ghost region0: set<Node>,
                   current0: Node?, parent0: Node?, tree0: Node?)
    returns (ok: bool, current: Node?, parent: Node?, tree: Node?, ghost all: seq<Node>, ghost st: State,
             ghost region: set<Node>)
    requires Building(all0, st0, current0, parent0) && Within(all0, region0) && tree0 == At(all0, 0)
    modifies file, region0
    ensures |file.rest| <= |old(file.rest)|
    ensures ok <==> Sub(st0, l, old(file.rest)).Ok?
    ensures ok ==> Sub(st0, l, old(file.rest)) == Ok((st, file.rest))
    ensures ok ==> Building(all, st, current, parent) && Within(all, region) && tree == At(all, 0)
    ensures region0 <= region && fresh(region - region0)
    decreases |file.rest|, 3
  {
    ghost var added, news;
    ok, current, parent, tree, added, news, st :=
      BuildConfigSub(l, file, all0, st0, region0, current0, parent0, tree0);
    all, region := all0, region0;
    if ok {
      WithinConcat(all0, added, region0, news);
      all, region := all0 + added, region0 + news;
      HeadOf(all, st, current, parent, tree);
      if tree == null { tree := parent; }
      if tree == null { tree := current; }
    }
  }

  /** ap_build_cont_config: the body of an active conditional, as a tree of its own. */
  method BuildContConfig(k: Kind, file: ConfigFile)
    returns (ok: bool, tree: Node?, ghost all: seq<Node>, ghost region: set<Node>, ghost st: State)
    modifies file
    ensures |file.rest| <= |old(file.rest)|
    ensures ok <==> Run(Some(k), State([], -1), old(file.rest)).Ok?
    ensures ok ==> Run(Some(k), State([], -1), old(file.rest)) == Ok((st, file.rest))
    ensures ok ==> Linked(all, st.entries) && tree == At(all, 0)
    ensures ok ==> fresh(region) && Within(all, region)
    decreases |file.rest|, 0
  {
    var current: Node?, parent: Node? := null, null;
    ok, tree, all, region, st := true, null, [], {}, State([], -1);
    ghost var goal := Run(Some(k), st, file.rest);
    while file.rest != []
      invariant |file.rest| <= |old(file.rest)|
      invariant Building(all, st, current, parent) && tree == At(all, 0)
      invariant Within(all, region) && fresh(region)
      invariant Run(Some(k), st, file.rest) == goal
      decreases |file.rest|
    {
      ghost var lines := file.rest;
      var l := file.GetLine();
      assert lines == [l] + file.rest;
      if l.Close? && SameName(l.text, KindName(k) + ">") && parent == null {
        return;
      }
      RunStep(Some(k), st, l, file.rest);
      ok, current, parent, tree, all, st, region := BuildLine(l, file, all, st, region, current, parent, tree);
      if !ok { return; }
    }
  }

  /** The last node of a list of siblings at the top. */
  method LastSibling(ghost all: seq<Node>, ghost es: seq<Entry>, first: Node) returns (current: Node)
    requires Linked(all, es) && all != [] && first == all[0]
    ensures current == At(all, LastChild(es, -1))
  {
    current := first;
    ghost var c := 0;
    while current.next != null
      invariant 0 <= c < |all| && current == all[c] && es[c].parent == -1
      decreases |all| - c
    {
      assert current.next == At(all, Next(es, c));
      current := current.next;
      c := Next(es, c);
    }
    assert current.next == At(all, Next(es, c));
    NextOfLast(es, c);
  }

  /** ap_build_config: read a file into a tree that may hold directives already. */
  method BuildConfig(file: ConfigFile, tree0: Node?, ghost all0: seq<Node>, ghost es0: seq<Entry>,
                     ghost region0: set<Node>)
    returns (ok: bool, tree: Node?, ghost all: seq<Node>)
    requires Linked(all0, es0) && Within(all0, region0) && tree0 == At(all0, 0)
    modifies file, region0
    ensures ok <==> Build(es0, old(file.rest)).Ok?
    ensures ok ==> Linked(all, Build(es0, old(file.rest)).value) && tree == At(all, 0)
  {
    var current, parent: Node? := tree0, null;
    if current != null {
      current := LastSibling(all0, es0, current);
    } else {
      LastUnique(es0, -1, -1);
    }
    ok, tree, all := true, tree0, all0;
    ghost var st, region, goal := State(es0, -1), region0, Run(None, State(es0, -1), file.rest);
    while file.rest != []
      invariant Building(all, st, current, parent) && tree == At(all, 0)
      invariant Within(all, region) && fresh(region - region0)
      invariant Run(None, st, file.rest) == goal
      decreases |file.rest|
    {
      ghost var lines := file.rest;
      var l := file.GetLine();
      assert lines == [l] + file.rest;
      RunStep(None, st, l, file.rest);
      ok, current, parent, tree, all, st, region := BuildLine(l, file, all, st, region, current, parent, tree);
      if !ok { return; }
    }
    ok := parent == null;
  }
}
