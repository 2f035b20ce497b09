/** What reading a configuration file means. A file is a sequence of lines, a
    tree is the list of its directives in file order, each with the index of its
    container (-1 at the top). */
module ConfigSpec {
  import opened Basics

  /** The containers that run while the file is read. */
  datatype Kind = IfModule | IfDefine

  /** `Close` keeps everything after "</", its '>' included; `If` is an opening
      line of a conditional container and the truth of its condition. */
  datatype Line =
    | Plain(name: string, args: string)
    | Open(name: string, args: string)
    | Close(text: string)
    | If(kind: Kind, holds: bool)

  datatype Entry = Entry(section: bool, name: string, args: string, parent: int)

  /** The directives read so far and the innermost open container. */
  datatype State = State(entries: seq<Entry>, open: int)

  datatype Result<+T> = Ok(value: T) | Err

  function KindName(k: Kind): string {
    match k
    case IfModule => "IfModule"
    case IfDefine => "IfDefine"
  }

  /** Containers come before what they contain. */
  predicate Preorder(es: seq<Entry>) {
    forall i | 0 <= i < |es| :: -1 <= es[i].parent < i
  }

  predicate Valid(st: State) {
    Preorder(st.entries) && -1 <= st.open < |st.entries|
  }

  function ShiftEntry(e: Entry, open: int, base: nat): Entry {
    e.(parent := if e.parent == -1 then open else e.parent + base)
  }

  /** The entries of a tree of its own, moved under `open` at position base. */
  function Shift(es: seq<Entry>, open: int, base: nat): (r: seq<Entry>)
    ensures |r| == |es| && forall i | 0 <= i < |es| :: r[i] == ShiftEntry(es[i], open, base)
  {
    seq(|es|, i requires 0 <= i < |es| => ShiftEntry(es[i], open, base))
  }

  function Add(st: State, e: Entry): State {
    st.(entries := st.entries + [e])
  }

  function Splice(st: State, sub: seq<Entry>): State {
    st.(entries := st.entries + Shift(sub, st.open, |st.entries|))
  }

  function CutLast(s: string): string {
    if s == "" then "" else s[..|s| - 1]
  }

  /** ap_soak_end_container: skip to the line that closes `name`. */
  function Soak(name: string, lines: seq<Line>): (r: Result<seq<Line>>)
    ensures r.Ok? ==> |r.value| < |lines|
    decreases |lines|, 1
  {
    if lines == [] then Err
    else match lines[0]
      case Plain(_, _) => Soak(name, lines[1..])
      case Close(text) => if SameName(CutLast(text), name) then Ok(lines[1..]) else Err
      case Open(n, _) => SoakNested(n, name, lines)
      case If(k, _) => SoakNested(KindName(k), name, lines)
  }

  function SoakNested(inner: string, name: string, lines: seq<Line>): (r: Result<seq<Line>>)
    requires lines != []
    ensures r.Ok? ==> |r.value| < |lines|
    decreases |lines|, 0
  {
    var s := Soak(inner, lines[1..]);
    if s.Err? then Err else Soak(name, s.value)
  }

  /** ap_build_config_sub on line l; a conditional also consumes lines. */
  function Sub(st: State, l: Line, rest: seq<Line>): (r: Result<(State, seq<Line>)>)
    requires Valid(st)
    ensures r.Ok? ==> Valid(r.value.0) && |r.value.1| <= |rest|
    decreases |rest|, 1
  {
    match l
    case Plain(name, args) => Ok((Add(st, Entry(false, name, args, st.open)), rest))
    case Open(name, args) =>
      Ok((State(st.entries + [Entry(true, name, args, st.open)], |st.entries|), rest))
    case Close(text) =>
      if st.open == -1 || text == "" || text[|text| - 1] != '>'
         || !SameName(CutLast(text), st.entries[st.open].name) then Err
      else Ok((st.(open := st.entries[st.open].parent), rest))
    case If(k, holds) =>
      if holds then
        var r := Run(Some(k), State([], -1), rest);
        if r.Err? then Err else Ok((Splice(st, r.value.0.entries), r.value.1))
      else
        var r := Soak(KindName(k), rest);
        if r.Err? then Err else Ok((st, r.value))
  }

  predicate Closes(mode: Option<Kind>, st: State, l: Line) {
    mode.Some? && l.Close? && SameName(l.text, KindName(mode.value) + ">") && st.open == -1
  }

  /** The reading loop: of a whole file, or of the active conditional container
      `mode`, which ends after its closing line or with the file. */
  function Run(mode: Option<Kind>, st: State, lines: seq<Line>): (r: Result<(State, seq<Line>)>)
    requires Valid(st)
    ensures r.Ok? ==> Valid(r.value.0) && |r.value.1| <= |lines|
    decreases |lines|, 0
  {
    if lines == [] then Ok((st, []))
    else if Closes(mode, st, lines[0]) then Ok((st, lines[1..]))
    else
      var r := Sub(st, lines[0], lines[1..]);
      if r.Err? then Err else Run(mode, r.value.0, r.value.1)
  }

  lemma {:induction false} RunStep(mode: Option<Kind>, st: State, l: Line, rest: seq<Line>)
    requires Valid(st) && !Closes(mode, st, l)
    ensures
      var r := Sub(st, l, rest);
      Run(mode, st, [l] + rest) == if r.Err? then Err else Run(mode, r.value.0, r.value.1)
  {
    assert ([l] + rest)[1..] == rest;
  }

  /** ap_build_config: read a file into a tree, which may hold entries already. */
  function Build(es: seq<Entry>, lines: seq<Line>): (r: Result<seq<Entry>>)
    requires Preorder(es)
    ensures r.Ok? ==> Preorder(r.value)
  {
    var r := Run(None, State(es, -1), lines);
    if r.Err? || r.value.0.open != -1 then Err else Ok(r.value.0.entries)
  }
}
