/** Modules, their commands and the table that finds a command by name
    (server/config.c). */
module CommandHash {
  import opened Flattening
  import opened Basics

  const DYNAMIC_MODULE_LIMIT: nat := 128

  datatype Command = Command(name: string, id: nat)

  class Module {
    const cmds: seq<Command>
    const compatible: bool
    var next: Module?
    var index: int

    constructor (cmds: seq<Command>, compatible: bool)
      ensures this.cmds == cmds && this.compatible == compatible && next == null && index == -1
    {
      this.cmds := cmds;
      this.compatible := compatible;
      next := null;
      index := -1;
    }
  }

  /** One link of a chain in the table. */
  datatype Entry = Entry(m: Module, cmd: Command)

  type Table = map<string, seq<Entry>>

  function Get(table: Table, name: string): seq<Entry> {
    if name in table then table[name] else []
  }

  /** What a module's commands put in front of the chain for a lower-case name. */
  function Entries(m: Module, cmds: seq<Command>, name: string): seq<Entry> {
    if cmds == [] then []
    else
      var c := cmds[|cmds| - 1];
      var rest := Entries(m, cmds[..|cmds| - 1], name);
      if Lower(c.name) == name then [Entry(m, c)] + rest else rest
  }

  function Own(name: string): Module -> seq<Entry> {
    (m: Module) => Entries(m, m.cmds, name)
  }

  /** The commands of that name, module by module. */
  function Chain(modules: seq<Module>, name: string): seq<Entry> {
    Flatten(Own(name), modules)
  }

  /** The commands are in front of the chains they belong to. */
  ghost predicate InFront(table: Table, m: Module, cmds: seq<Command>, base: Table) {
    forall name :: Get(table, name) == Entries(m, cmds, name) + Get(base, name)
  }

  /** The table holds the chain of every name. */
  ghost predicate Lists(table: Table, modules: seq<Module>) {
    forall name :: Get(table, name) == Chain(modules, name)
  }

  lemma {:induction false} Push(table: Table, m: Module, cmds: seq<Command>, i: nat, base: Table)
    requires i < |cmds| && InFront(table, m, cmds[..i], base)
    ensures
      var dir := Lower(cmds[i].name);
      InFront(table[dir := [Entry(m, cmds[i])] + Get(table, dir)], m, cmds[..i + 1], base)
  {
    var dir, e := Lower(cmds[i].name), Entry(m, cmds[i]);
    var after := table[dir := [e] + Get(table, dir)];
    assert cmds[..i + 1][..i] == cmds[..i];
    forall name ensures Get(after, name) == Entries(m, cmds[..i + 1], name) + Get(base, name) {
      var more := Entries(m, cmds[..i], name);
      assert Get(table, name) == more + Get(base, name);
      if name == dir {
        Assoc([e], more, Get(base, name));
      }
    }
  }

  predicate Declares(cmds: seq<Command>, name: string) {
    exists i | 0 <= i < |cmds| :: Lower(cmds[i].name) == name
  }

  /** The chain has exactly the module's commands of that name. */
  lemma {:induction false} EntriesExact(m: Module, cmds: seq<Command>, name: string, e: Entry)
    ensures e in Entries(m, cmds, name) <==> e.m == m && e.cmd in cmds && Lower(e.cmd.name) == name
  {
    if cmds != [] {
      var rest := cmds[..|cmds| - 1];
      EntriesExact(m, rest, name, e);
      assert cmds == rest + [cmds[|cmds| - 1]];
    }
  }

  /** The module's commands of that name, in their order. */
  function Named(m: Module, cmds: seq<Command>, name: string): seq<Entry> {
    if cmds == [] then [] else IfNamed(m, cmds[0], name) + Named(m, cmds[1..], name)
  }

  function IfNamed(m: Module, c: Command, name: string): seq<Entry> {
    if Lower(c.name) == name then [Entry(m, c)] else []
  }

  function Reversed(es: seq<Entry>): seq<Entry> {
    if es == [] then [] else Reversed(es[1..]) + [es[0]]
  }

  lemma {:induction false} ReversedAppend(es: seq<Entry>, e: Entry)
    ensures Reversed(es + [e]) == [e] + Reversed(es)
  {
    if es == [] {
      assert es + [e] == [e] && [e][1..] == [];
    } else {
      assert (es + [e])[1..] == es[1..] + [e];
      ReversedAppend(es[1..], e);
    }
  }

  lemma {:induction false} NamedAppend(m: Module, cmds: seq<Command>, c: Command, name: string)
    ensures Named(m, cmds + [c], name) == Named(m, cmds, name) + IfNamed(m, c, name)
  {
    if cmds == [] {
      assert cmds + [c] == [c] && [c][1..] == [];
    } else {
      assert (cmds + [c])[1..] == cmds[1..] + [c];
      NamedAppend(m, cmds[1..], c, name);
      Assoc(IfNamed(m, cmds[0], name), Named(m, cmds[1..], name), IfNamed(m, c, name));
    }
  }

  /** A module's part of a chain is its commands of that name, last first. */
  lemma {:induction false} EntriesReversed(m: Module, cmds: seq<Command>, name: string)
    ensures Entries(m, cmds, name) == Reversed(Named(m, cmds, name))
  {
    if cmds != [] {
      var rest, c := cmds[..|cmds| - 1], cmds[|cmds| - 1];
      assert cmds == rest + [c];
      EntriesReversed(m, rest, name);
      NamedAppend(m, rest, c, name);
      ReversedAppend(Named(m, rest, name), Entry(m, c));
      assert Named(m, rest, name) + [] == Named(m, rest, name);
    }
  }

  lemma {:induction false} EntriesEmpty(m: Module, cmds: seq<Command>, name: string)
    ensures Entries(m, cmds, name) == [] <==> !Declares(cmds, name)
    ensures forall i | 0 <= i < |Entries(m, cmds, name)| :: Entries(m, cmds, name)[i].m == m
  {
    if cmds != [] {
      EntriesEmpty(m, cmds[..|cmds| - 1], name);
    }
  }

  /** The chain is empty if no module declares the name; otherwise its head is a
      command of the first module that does. */
  lemma {:induction false} ChainHead(modules: seq<Module>, name: string, k: nat)
    requires k <= |modules| && forall i | 0 <= i < k :: !Declares(modules[i].cmds, name)
    requires k < |modules| ==> Declares(modules[k].cmds, name)
    ensures k == |modules| ==> Chain(modules, name) == []
    ensures k < |modules| ==> Chain(modules, name) != [] && Chain(modules, name)[0].m == modules[k]
  {
    if modules != [] {
      EntriesEmpty(modules[0], modules[0].cmds, name);
      if k > 0 {
        ChainHead(modules[1..], name, k - 1);
      }
    }
  }

  /** The chain looked up for a name has exactly the commands that differ from it in
      case at most. */
  lemma {:induction false} ChainExact(modules: seq<Module>, name: string, e: Entry)
    ensures e in Chain(modules, Lower(name)) <==>
            e.m in modules && e.cmd in e.m.cmds && SameLetters(e.cmd.name, name)
  {
    if modules != [] {
      ChainExact(modules[1..], name, e);
      EntriesExact(modules[0], modules[0].cmds, Lower(name), e);
      LowerIff(e.cmd.name, name);
      assert Chain(modules, Lower(name)) == Own(Lower(name))(modules[0]) + Chain(modules[1..], Lower(name));
    }
  }

  predicate IsFirst(cmds: seq<Command>, name: string, cmd: Command) {
    exists i | 0 <= i < |cmds| :: cmds[i] == cmd && Lower(cmd.name) == name && !Declares(cmds[..i], name)
  }

  /** ap_find_command: the first command of that name. */
  method FindCommand(name: string, cmds: seq<Command>) returns (found: Option<Command>)
    ensures found.Some? <==> Declares(cmds, Lower(name))
    ensures found.Some? ==> IsFirst(cmds, Lower(name), found.value)
    ensures found.None? <==> forall i | 0 <= i < |cmds| :: !SameLetters(cmds[i].name, name)
    ensures found.Some? ==> SameLetters(found.value.name, name)
  {
    var i := 0;
    while i < |cmds|
      invariant i <= |cmds| && !Declares(cmds[..i], Lower(name))
      invariant forall j | 0 <= j < i :: !SameLetters(cmds[j].name, name)
    {
      if SameName(cmds[i].name, name) {
        return Some(cmds[i]);
      }
      i := i + 1;
    }
    assert cmds[..i] == cmds;
    return None;
  }

  class Registry {
    var top: Module?
    var table: Table
    var total: nat
    var loaded: nat
    ghost var modules: seq<Module>

    /** The linked modules, top first, each with an index of its own. */
    ghost predicate Linked()
      reads this, modules
    {
      && top == At(modules, 0)
      && Chained(modules)
      && Numbered(modules, total)
    }

    /** The table holds the chain of every name. */
    ghost predicate Indexed(modules: seq<Module>)
      reads this
    {
      Lists(table, modules)
    }

    constructor ()
      ensures Linked() && Indexed(modules) && modules == [] && total == 0 && loaded == 0
    {
      top, table, total, loaded, modules := null, map[], 0, 0, [];
    }

    /** Puts a module's commands in front of their chains. */
    method AddModuleCommands(m: Module)
      modifies this`table
      ensures InFront(table, m, m.cmds, old(table))
    {
      var i := 0;
      while i < |m.cmds|
        invariant i <= |m.cmds| && InFront(table, m, m.cmds[..i], old(table))
      {
        var cmd := m.cmds[i];
        Push(table, m, m.cmds, i, old(table));
        table := table[Lower(cmd.name) := [Entry(m, cmd)] + Get(table, Lower(cmd.name))];
        i := i + 1;
      }
      assert m.cmds[..i] == m.cmds;
    }

    /** Links a module that is in no list. Of the modules that are linked already,
        the bottom one looks the same: linking it again closes a cycle. */
    method Link(m: Module)
      requires Linked()
      modifies this`top, m`next
      ensures m !in modules && old(m.next) == null ==> top == m && m.next == old(top)
      ensures m in modules && m != modules[|modules| - 1] ==> top == old(top) && m.next == old(m.next)
      ensures m in modules && m == modules[|modules| - 1] ==> top == m && m.next == modules[0]
    {
      if m.next == null {
        m.next := top;
        top := m;
      }
    }

    /** ap_find_command_in_modules: the search agrees with the table. */
    method FindCommandInModules(name: string) returns (found: Option<Entry>)
      requires Linked() && Indexed(modules)
      ensures found.None? <==> Get(table, Lower(name)) == []
      ensures found.Some? ==> Get(table, Lower(name))[0].m == found.value.m
      ensures found.Some? ==> IsFirst(found.value.m.cmds, Lower(name), found.value.cmd)
      ensures found.Some? ==> SameLetters(found.value.cmd.name, name)
      ensures found.None? ==> forall m, i | m in modules && 0 <= i < |m.cmds| :: !SameLetters(m.cmds[i].name, name)
    {
      var p := top;
      ghost var k := 0;
      while p != null
        invariant k <= |modules| && p == At(modules, k)
        invariant forall i | 0 <= i < k :: !Declares(modules[i].cmds, Lower(name))
        invariant forall m, i | m in modules[..k] && 0 <= i < |m.cmds| :: !SameLetters(m.cmds[i].name, name)
        decreases |modules| - k
      {
        assert p == modules[k];
        var cmd := FindCommand(name, p.cmds);
        if cmd.Some? {
          ChainHead(modules, Lower(name), k);
          return Some(Entry(p, cmd.value));
        }
        p := p.next;
        k := k + 1;
      }
      ChainHead(modules, Lower(name), k);
      return None;
    }

    /** The module is in the list, or in none and not numbered like one of these. */
    ghost predicate Addable(m: Module)
      reads this, modules, m
    {
      m in modules || (m.next == null && Unused(m, modules, total))
    }

    /** Links and numbers a module. One that is in the list already has its number,
        and stays where it is unless it is the bottom one, which breaks the list. */
    method Enter(m: Module) returns (ok: bool)
      requires Linked() && Addable(m)
      modifies this`top, this`modules, this`total, this`loaded, m
      ensures modules == if m in old(modules) then old(modules) else [m] + old(modules)
      ensures Linked() <==> m !in old(modules) || m != old(modules)[|old(modules)| - 1]
      ensures ok <==> old(m.index) != -1 || old(loaded) < DYNAMIC_MODULE_LIMIT
      ensures total == old(total) + (if old(m.index) == -1 then 1 else 0)
      ensures m.index == if old(m.index) == -1 then old(total) else old(m.index)
      ensures loaded == old(loaded) + (if old(m.index) == -1 then 1 else 0)
      ensures m in old(modules) ==> ok
    {
      Link(m);
      ok := true;
      if m.index == -1 {
        m.index := total;
        total, loaded := total + 1, loaded + 1;
        ok := loaded <= DYNAMIC_MODULE_LIMIT;
      }
      if m !in modules {
        modules := [m] + modules;
        Relinked(m, old(modules), old(top));
        Renumbered(m, old(modules), old(total), total);
      } else {
        ghost var last := |modules| - 1;
        assert old(modules[last].next) == null;
      }
    }

    /** Adds a module. When the limit refuses it, it is linked but its commands are
        not in the table. One that is in the list already puts its commands into
        the table once more. */
    method AddModule(m: Module) returns (ok: bool)
      requires Linked() && Indexed(modules) && Addable(m)
      modifies this, m
      ensures total >= old(total)
      ensures ok ==> m.index == if old(m.index) == -1 then old(total) else old(m.index)
      ensures ok ==> old(m.index) == -1 ==> total > old(total)
      ensures ok <==> m.compatible && (old(m.index) != -1 || old(loaded) < DYNAMIC_MODULE_LIMIT)
      ensures modules == if m.compatible && m !in old(modules) then [m] + old(modules) else old(modules)
      ensures loaded == old(loaded) + (if m.compatible && old(m.index) == -1 then 1 else 0)
      ensures m !in old(modules) ==> Linked() && Indexed(if ok then modules else old(modules))
      ensures ok ==> InFront(table, m, m.cmds, old(table))
      ensures !ok ==> table == old(table)
      ensures m in old(modules) && ok ==>
        (Linked() && Indexed(modules) <==> m != modules[|modules| - 1] && m.cmds == [])
    {
      if !m.compatible {
        return false;
      }
      ok := Enter(m);
      if ok {
        AddModuleCommands(m);
        if m !in old(modules) {
          Once(m, old(table), table, old(modules));
        } else {
          Twice(m, old(table), table, modules);
        }
      }
    }
  }

  lemma {:induction false} Once(m: Module, before: Table, after: Table, modules: seq<Module>)
    requires Lists(before, modules) && InFront(after, m, m.cmds, before)
    ensures Lists(after, [m] + modules)
  {
    assert ([m] + modules)[1..] == modules;
  }

  /** A second set of a module's commands leaves the chains as they were exactly
      if there are none. */
  lemma {:induction false} Twice(m: Module, before: Table, after: Table, modules: seq<Module>)
    requires Lists(before, modules) && InFront(after, m, m.cmds, before)
    ensures Lists(after, modules) <==> m.cmds == []
  {
    if m.cmds != [] {
      var name := Lower(m.cmds[0].name);
      EntriesEmpty(m, m.cmds, name);
      assert |Get(after, name)| == |Entries(m, m.cmds, name)| + |Chain(modules, name)|;
    } else {
      forall name ensures Get(after, name) == Chain(modules, name) {
        assert Entries(m, [], name) + Get(before, name) == Get(before, name);
      }
    }
  }

  function Backwards(modules: seq<Module>): seq<Module> {
    if modules == [] then [] else [modules[|modules| - 1]] + Backwards(modules[..|modules| - 1])
  }

  lemma {:induction false} BackwardsNext(modules: seq<Module>, n: nat, base: seq<Module>)
    requires n < |modules|
    ensures Backwards(modules[..n + 1]) + base == [modules[n]] + (Backwards(modules[..n]) + base)
  {
    assert modules[..n + 1][..n] == modules[..n];
    Assoc([modules[n]], Backwards(modules[..n]), base);
  }

  /** The modules from number n on are in no list, and each has no number yet or
      one of its own. */
  ghost predicate Loadable(r: Registry, loading: seq<Module>, n: nat)
    reads r, r.modules, loading
  {
    && (forall i | n <= i < |loading| :: loading[i] !in r.modules && r.Addable(loading[i]))
    && (forall i, j | n <= i < j < |loading| :: loading[i] != loading[j])
    && (forall i, j | n <= i < j < |loading| && loading[i].index != -1 :: loading[i].index != loading[j].index)
  }

  /** The first n modules are loaded onto base. */
  ghost predicate Loaded(r: Registry, loading: seq<Module>, n: nat, base: seq<Module>)
    reads r, r.modules
  {
    n <= |loading| && r.Linked() && r.Indexed(r.modules) && r.modules == Backwards(loading[..n]) + base
  }

  ghost function Indices(modules: seq<Module>): seq<int>
    reads modules
  {
    seq(|modules|, i requires 0 <= i < |modules| reads modules => modules[i].index)
  }

  /** How many of the first n modules have no number. */
  function Unnumbered(indices: seq<int>, n: nat): nat
    requires n <= |indices|
  {
    if n == 0 then 0 else Unnumbered(indices, n - 1) + if indices[n - 1] == -1 then 1 else 0
  }

  /** Module i is compatible and, if it needs a number, within the limit. */
  predicate Accepted(loading: seq<Module>, indices: seq<int>, loaded: nat, i: nat)
    requires i < |loading| == |indices|
  {
    loading[i].compatible && (indices[i] != -1 || loaded + Unnumbered(indices, i) < DYNAMIC_MODULE_LIMIT)
  }

  predicate AcceptedTo(loading: seq<Module>, indices: seq<int>, loaded: nat, n: nat)
    requires n <= |loading| == |indices|
  {
    forall i | 0 <= i < n :: Accepted(loading, indices, loaded, i)
  }

  lemma {:induction false} AcceptedMore(loading: seq<Module>, indices: seq<int>, loaded: nat, n: nat)
    requires n < |loading| == |indices| && AcceptedTo(loading, indices, loaded, n)
    ensures Accepted(loading, indices, loaded, n) ==> AcceptedTo(loading, indices, loaded, n + 1)
  {}

  /** The first n modules are loaded, the others as they were. */
  ghost predicate Pending(r: Registry, loading: seq<Module>, n: nat, base: seq<Module>, indices: seq<int>, loaded: nat)
    reads r, r.modules, loading
  {
    && Loaded(r, loading, n, base) && Loadable(r, loading, n)
    && |indices| == |loading| && r.loaded == loaded + Unnumbered(indices, n)
    && forall i | n <= i < |loading| :: loading[i].index == indices[i]
  }

  method LoadNext(r: Registry, loading: seq<Module>, n: nat, ghost base: seq<Module>, ghost indices: seq<int>,
                  ghost loaded: nat)
    returns (ok: bool)
    requires n < |loading| && Pending(r, loading, n, base, indices, loaded)
    modifies r, loading[n]
    ensures ok <==> Accepted(loading, indices, loaded, n)
    ensures ok ==> Pending(r, loading, n + 1, base, indices, loaded)
    ensures r.Linked() && r.Indexed(Backwards(loading[..if ok then n + 1 else n]) + base)
  {
    var m := loading[n];
    ghost var modules := r.modules;
    ok := r.AddModule(m);
    BackwardsNext(loading, n, base);
    if ok {
      forall i | n < i < |loading| ensures loading[i] !in r.modules && r.Addable(loading[i]) {
        assert loading[i] != m && loading[i].index == old(loading[i].index);
        UnusedMore(loading[i], m, modules, old(r.total), r.total);
      }
    }
  }

  /** Loading modules one after the other, numbered before or not: as long as none
      is refused, the table holds for every name its commands in all modules, last
      loaded first. */
  method LoadModules(r: Registry, loading: seq<Module>) returns (n: nat)
    requires r.Linked() && r.Indexed(r.modules) && Loadable(r, loading, 0)
    modifies r, loading
    ensures r.Linked() && n <= |loading| && AcceptedTo(loading, old(Indices(loading)), old(r.loaded), n)
    ensures n < |loading| ==> !Accepted(loading, old(Indices(loading)), old(r.loaded), n)
    ensures n == |loading| ==> r.modules == Backwards(loading) + old(r.modules)
    ensures r.Indexed(Backwards(loading[..n]) + old(r.modules))
  {
    ghost var base, indices, loaded := r.modules, Indices(loading), r.loaded;
    n := 0;
    assert loading[..0] == [] && [] + base == base;
    while n < |loading|
      invariant Pending(r, loading, n, base, indices, loaded) && AcceptedTo(loading, indices, loaded, n)
    {
      AcceptedMore(loading, indices, loaded, n);
      var ok := LoadNext(r, loading, n, base, indices, loaded);
      if !ok {
        return;
      }
      n := n + 1;
    }
    assert loading[..n] == loading;
  }

  ghost predicate Unused(m: Module, modules: seq<Module>, total: nat)
    reads m, modules
  {
    m.index == -1 || (0 <= m.index < total && forall i | 0 <= i < |modules| :: modules[i].index != m.index)
  }

  lemma {:induction false} UnusedMore(x: Module, m: Module, modules: seq<Module>, before: nat, total: nat)
    requires Unused(x, modules, before) && before <= total && (x.index != -1 ==> x.index != m.index)
    ensures Unused(x, [m] + modules, total)
  {}

  ghost predicate Numbered(modules: seq<Module>, total: nat)
    reads modules
  {
    && (forall i | 0 <= i < |modules| :: 0 <= modules[i].index < total)
    && (forall i, j | 0 <= i < j < |modules| :: modules[i].index != modules[j].index)
  }

  lemma {:induction false} Renumbered(m: Module, modules: seq<Module>, before: nat, total: nat)
    requires Numbered(modules, before) && before <= total && 0 <= m.index < total
    requires forall i | 0 <= i < |modules| :: modules[i].index != m.index
    ensures Numbered([m] + modules, total)
  {
  }

  ghost predicate Chained(modules: seq<Module>)
    reads modules
  {
    forall i {:trigger modules[i].next} | 0 <= i < |modules| :: modules[i].next == At(modules, i + 1)
  }

  lemma {:induction false} Relinked(m: Module, modules: seq<Module>, top: Module?)
    requires Chained(modules) && top == At(modules, 0) && m.next == top
    ensures Chained([m] + modules)
  {
    var all := [m] + modules;
    forall i {:trigger all[i].next} | 0 <= i < |all| ensures all[i].next == At(all, i + 1) {
      if i > 0 {
        assert all[i] == modules[i - 1];
      }
    }
  }

  ghost function At(modules: seq<Module>, i: nat): Module? {
    if i < |modules| then modules[i] else null
  }
}
