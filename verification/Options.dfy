/** The Options directive and the merging of per-directory configurations
    (server/core.c). An option mask is the set of its bits. */
module Options {
  import opened Basics

  datatype Bit = INDEXES | INCLUDES | SYM_LINKS | EXECCGI | UNSET | INC_WITH_EXEC | SYM_OWNER | MULTI

  type Mask = set<Bit>

  const ALL: Mask := {INDEXES, INCLUDES, INC_WITH_EXEC, SYM_LINKS, EXECCGI}

  datatype Keyword = Indexes | Includes | IncludesNoExec | FollowSymLinks | SymLinksIfOwnerMatch
                   | ExecCgi | MultiViews | RunScripts | NoOptions | AllOptions | Illegal

  datatype Action = Absolute | Plus | Minus

  datatype Word = Word(action: Action, keyword: Keyword)

  function Bits(k: Keyword): (m: Mask)
    ensures UNSET !in m
  {
    match k
    case Indexes => {INDEXES}
    case Includes => {INCLUDES, INC_WITH_EXEC}
    case IncludesNoExec => {INCLUDES}
    case FollowSymLinks => {SYM_LINKS}
    case SymLinksIfOwnerMatch => {SYM_OWNER}
    case ExecCgi => {EXECCGI}
    case MultiViews => {MULTI}
    case RunScripts => {MULTI, EXECCGI}
    case NoOptions => {}
    case AllOptions => ALL
    case Illegal => {}
  }

  /** A word may stand here: it is known, and every option it names may be set. */
  predicate Allowed(w: Word, overrides: Mask) {
    w.keyword != Illegal && forall bit | bit in Bits(w.keyword) :: bit in overrides
  }

  datatype Config = Config(opts: Mask, add: Mask, remove: Mask)

  /** A configuration before any directive: of a directory, or of a server. */
  function Fresh(dir: bool): Config {
    Config(if dir then {UNSET} else {UNSET} + ALL, {}, {})
  }

  /** One word of an Options line. */
  function Change(c: Config, action: Action, m: Mask): Config {
    match action
    case Absolute => c.(opts := c.opts + m)
    case Plus => Config(c.opts + m, c.add + m, c.remove - m)
    case Minus => Config(c.opts - m, c.add - m, c.remove + m)
  }

  /** A word, as the first absolute word of its line or not: the first one
      starts from nothing. */
  function Step(c: Config, w: Word, first: bool): Config {
    var d := if w.action.Absolute? && first then c.(opts := {}) else c;
    Change(d, w.action, Bits(w.keyword))
  }

  function Line(c: Config, words: seq<Word>, first: bool): Config
    decreases |words|
  {
    if words == [] then c
    else Line(Step(c, words[0], first), words[1..], first && !words[0].action.Absolute?)
  }

  /** No word of the line is absolute. */
  predicate AllSigned(words: seq<Word>) {
    forall i | 0 <= i < |words| :: !words[i].action.Absolute?
  }

  /** A line can be read in two parts. */
  lemma {:induction false} LineSplit(c: Config, a: seq<Word>, b: seq<Word>, first: bool)
    ensures Line(c, a + b, first) == Line(Line(c, a, first), b, first && AllSigned(a))
    decreases |a|
  {
    if a == [] {
      assert a + b == b;
    } else {
      LineSplit(Step(c, a[0], first), a[1..], b, first && !a[0].action.Absolute?);
      assert (a + b)[1..] == a[1..] + b;
      assert AllSigned(a) <==> !a[0].action.Absolute? && AllSigned(a[1..]);
    }
  }

  /** The words before i and one more. */
  lemma {:induction false} LineNext(c: Config, words: seq<Word>, i: nat, w: Word)
    requires i < |words|
    ensures
      var first := AllSigned(words[..i]);
      && Line(c, words[..i] + [w], true) == Step(Line(c, words[..i], true), w, first)
      && (AllSigned(words[..i + 1]) <==> first && !words[i].action.Absolute?)
      && words[..i + 1] == words[..i] + [words[i]]
  {
    var some, more := words[..i], words[..i + 1];
    LineSplit(c, some, [w], true);
    assert [w][1..] == [];
    assert more == some + [words[i]] && forall j | 0 <= j < i :: some[j] == more[j];
    assert more[i] == words[i];
  }

  /** The Options lines of one section. */
  function Section(c: Config, lines: seq<seq<Word>>): Config
    decreases |lines|
  {
    if lines == [] then c else Section(Line(c, lines[0], true), lines[1..])
  }

  /** The configuration of a directory inside another. */
  function Merge(base: Config, new_: Config): Config {
    if UNSET in new_.opts then
      var add := (base.add - new_.remove) + new_.add;
      var remove := (base.remove - new_.add) + new_.remove;
      var opts := (base.opts - remove) + add;
      var both := {INCLUDES, INC_WITH_EXEC};
      var dropExec := base.opts * both == both && new_.opts * both == {INCLUDES};
      Config(if dropExec then opts - {INC_WITH_EXEC} else opts, add, remove)
    else new_
  }

  class DirConfig {
    var opts: Mask
    var add: Mask
    var remove: Mask

    ghost function View(): Config
      reads this
    {
      Config(opts, add, remove)
    }

    constructor (dir: bool)
      ensures View() == Fresh(dir)
    {
      opts := if dir then {UNSET} else {UNSET} + ALL;
      add := {};
      remove := {};
    }

    method Apply(action: Action, m: Mask)
      modifies this
      ensures View() == old(Change(View(), action, m))
    {
      match action {
        case Minus =>
          remove := remove + m;
          add := add - m;
          opts := opts - m;
        case Plus =>
          add := add + m;
          remove := remove - m;
          opts := opts + m;
        case Absolute =>
          opts := opts + m;
      }
    }

    /** One Options line. It stops at the first word that is not allowed, which then
        counts as one that names no option. No bit changes that may not be set. */
    method SetOptions(words: seq<Word>, overrides: Mask) returns (bad: Option<nat>)
      modifies this
      ensures bad.None? ==> View() == old(Line(View(), words, true))
      ensures bad.None? <==> forall i | 0 <= i < |words| :: Allowed(words[i], overrides)
      ensures bad.Some? ==> bad.value < |words| && !Allowed(words[bad.value], overrides)
      ensures bad.Some? ==> forall i | 0 <= i < bad.value :: Allowed(words[i], overrides)
      ensures bad.Some? ==>
                View() == old(Line(View(), words[..bad.value] + [words[bad.value].(keyword := NoOptions)], true))
      ensures opts <= old(opts) + overrides && add <= old(add) + overrides && remove <= old(remove) + overrides
    {
      var first, i := true, 0;
      ghost var c := View();
      while i < |words|
        invariant i <= |words| && View() == Line(c, words[..i], true) && first == AllSigned(words[..i])
        invariant forall j | 0 <= j < i :: Allowed(words[j], overrides)
        invariant opts <= old(opts) + overrides && add <= old(add) + overrides && remove <= old(remove) + overrides
      {
        var w := words[i];
        LineNext(c, words, i, w);
        LineNext(c, words, i, w.(keyword := NoOptions));
        if w.action.Absolute? && first {
          opts := {};
          first := false;
        }
        var opt := Bits(w.keyword);
        if w.keyword.Illegal? || overrides * opt != opt {
          return Some(i);
        }
        Apply(w.action, opt);
        i := i + 1;
      }
      assert words[..i] == words;
      return None;
    }
  }

  /** What the words leave of bit b, if it was v before. */
  function LineBit(b: Bit, v: bool, words: seq<Word>, first: bool): bool
    decreases |words|
  {
    if words == [] then v
    else
      var w := words[0];
      var named := b in Bits(w.keyword);
      var now := match w.action
        case Absolute => named || (v && !first)
        case Plus => named || v
        case Minus => v && !named;
      LineBit(b, now, words[1..], first && !w.action.Absolute?)
  }

  function SectionBit(b: Bit, v: bool, lines: seq<seq<Word>>): bool
    decreases |lines|
  {
    if lines == [] then v else SectionBit(b, LineBit(b, v, lines[0], true), lines[1..])
  }

  /** What a section does to bit b of the configuration around it. */
  function Effect(c: Config, b: Bit, v: bool): bool {
    if UNSET !in c.opts then b in c.opts
    else if b in c.add then true
    else if b in c.remove then false
    else v
  }

  /** No bit is both added and removed. */
  predicate Disjoint(c: Config) {
    c.add !! c.remove
  }

  /** What is added is on and what is removed is off. */
  predicate Coherent(c: Config, b: Bit) {
    (b in c.add ==> b in c.opts) && (b in c.remove ==> b !in c.opts)
  }

  /** The state in the middle of a line. */
  predicate Open(c: Config, b: Bit, first: bool) {
    && Disjoint(c)
    && (!first ==> UNSET !in c.opts)
    && (UNSET in c.opts ==> Coherent(c, b))
  }

  lemma {:induction false} StepBit(c: Config, w: Word, first: bool, b: Bit, v: bool)
    requires Open(c, b, first) && b != UNSET
    ensures Open(Step(c, w, first), b, first && !w.action.Absolute?)
    ensures Effect(Step(c, w, first), b, v) ==
      (match w.action
       case Absolute => b in Bits(w.keyword) || (Effect(c, b, v) && !first)
       case Plus => b in Bits(w.keyword) || Effect(c, b, v)
       case Minus => Effect(c, b, v) && b !in Bits(w.keyword))
  {
  }

  lemma {:induction false} LineEffect(c: Config, words: seq<Word>, first: bool, b: Bit, v: bool)
    requires Open(c, b, first) && b != UNSET
    ensures Open(Line(c, words, first), b, true)
    ensures Effect(Line(c, words, first), b, v) == LineBit(b, Effect(c, b, v), words, first)
    decreases |words|
  {
    if words != [] {
      StepBit(c, words[0], first, b, v);
      LineEffect(Step(c, words[0], first), words[1..], first && !words[0].action.Absolute?, b, v);
    }
  }

  /** A section's configuration has, on every bit, the effect of its words. */
  lemma {:induction false} SectionEffect(c: Config, lines: seq<seq<Word>>, b: Bit, v: bool)
    requires Open(c, b, true) && b != UNSET
    ensures Open(Section(c, lines), b, true)
    ensures Effect(Section(c, lines), b, v) == SectionBit(b, Effect(c, b, v), lines)
    decreases |lines|
  {
    if lines != [] {
      LineEffect(c, lines[0], true, b, v);
      SectionEffect(Line(c, lines[0], true), lines[1..], b, v);
    }
  }

  /** Merging a section in has its effect on the bit, if the configuration around
      it is coherent there. */
  lemma {:induction false} MergeEffect(base: Config, new_: Config, b: Bit)
    requires Disjoint(base) && Coherent(base, b) && Disjoint(new_) && b != INC_WITH_EXEC
    ensures Disjoint(Merge(base, new_))
    ensures (b in Merge(base, new_).opts) == Effect(new_, b, b in base.opts)
    ensures Coherent(new_, b) ==> Coherent(Merge(base, new_), b)
  {
  }

  /** Sections merged one inside the other. */
  function Nest(base: Config, sections: seq<seq<seq<Word>>>): Config
    decreases |sections|
  {
    if sections == [] then base
    else Nest(Merge(base, Section(Fresh(true), sections[0])), sections[1..])
  }

  /** The words of all sections, one after the other. */
  function NestBit(b: Bit, v: bool, sections: seq<seq<seq<Word>>>): bool
    decreases |sections|
  {
    if sections == [] then v else NestBit(b, SectionBit(b, v, sections[0]), sections[1..])
  }

  predicate AllCoherent(sections: seq<seq<seq<Word>>>, b: Bit) {
    forall i | 0 <= i < |sections| :: Coherent(Section(Fresh(true), sections[i]), b)
  }

  /** Nesting sections is the same as running all their words in order. */
  lemma {:induction false} LastWordWins(base: Config, sections: seq<seq<seq<Word>>>, b: Bit)
    requires Disjoint(base) && Coherent(base, b)
    requires b != UNSET && b != INC_WITH_EXEC && AllCoherent(sections, b)
    ensures (b in Nest(base, sections).opts) == NestBit(b, b in base.opts, sections)
    ensures Disjoint(Nest(base, sections)) && Coherent(Nest(base, sections), b)
    decreases |sections|
  {
    if sections != [] {
      var first := Section(Fresh(true), sections[0]);
      SectionEffect(Fresh(true), sections[0], b, b in base.opts);
      MergeEffect(base, first, b);
      forall i | 0 <= i < |sections[1..]| ensures Coherent(Section(Fresh(true), sections[1..][i]), b) {
        assert sections[1..][i] == sections[i + 1];
      }
      LastWordWins(Merge(base, first), sections[1..], b);
    }
  }

  lemma {:induction false} LineDisjoint(c: Config, words: seq<Word>, first: bool)
    requires Disjoint(c)
    ensures Disjoint(Line(c, words, first))
    decreases |words|
  {
    if words != [] {
      LineDisjoint(Step(c, words[0], first), words[1..], first && !words[0].action.Absolute?);
    }
  }

  lemma {:induction false} SectionDisjoint(c: Config, lines: seq<seq<Word>>)
    requires Disjoint(c)
    ensures Disjoint(Section(c, lines))
    decreases |lines|
  {
    if lines != [] {
      LineDisjoint(c, lines[0], true);
      SectionDisjoint(Line(c, lines[0], true), lines[1..]);
    }
  }

  /** No bit is ever both added and removed, whatever the words. */
  lemma {:induction false} NestDisjoint(base: Config, sections: seq<seq<seq<Word>>>)
    requires Disjoint(base)
    ensures Disjoint(Nest(base, sections))
    decreases |sections|
  {
    if sections != [] {
      SectionDisjoint(Fresh(true), sections[0]);
      NestDisjoint(Merge(base, Section(Fresh(true), sections[0])), sections[1..]);
    }
  }

  /** The sign of the last signed word that names bit b. */
  function LineSign(b: Bit, sign: Option<bool>, words: seq<Word>): Option<bool>
    decreases |words|
  {
    if words == [] then sign
    else
      var w := words[0];
      LineSign(b, if b in Bits(w.keyword) && !w.action.Absolute? then Some(w.action.Plus?) else sign, words[1..])
  }

  function SectionSign(b: Bit, sign: Option<bool>, lines: seq<seq<Word>>): Option<bool>
    decreases |lines|
  {
    if lines == [] then sign else SectionSign(b, LineSign(b, sign, lines[0]), lines[1..])
  }

  function SignOf(c: Config, b: Bit): Option<bool> {
    if b in c.add then Some(true) else if b in c.remove then Some(false) else None
  }

  lemma {:induction false} LineTracks(c: Config, words: seq<Word>, first: bool, b: Bit)
    requires Disjoint(c)
    ensures (b in Line(c, words, first).opts) == LineBit(b, b in c.opts, words, first)
    ensures SignOf(Line(c, words, first), b) == LineSign(b, SignOf(c, b), words)
    decreases |words|
  {
    if words != [] {
      LineTracks(Step(c, words[0], first), words[1..], first && !words[0].action.Absolute?, b);
    }
  }

  lemma {:induction false} SectionTracks(c: Config, lines: seq<seq<Word>>, b: Bit)
    requires Disjoint(c)
    ensures (b in Section(c, lines).opts) == SectionBit(b, b in c.opts, lines)
    ensures SignOf(Section(c, lines), b) == SectionSign(b, SignOf(c, b), lines)
    decreases |lines|
  {
    if lines != [] {
      LineDisjoint(c, lines[0], true);
      LineTracks(c, lines[0], true, b);
      SectionTracks(Line(c, lines[0], true), lines[1..], b);
    }
  }

  /** A section is coherent if and only if the last signed word that names the
      bit has the last say on it. */
  lemma {:induction false} CoherentIff(lines: seq<seq<Word>>, b: Bit)
    requires b != UNSET
    ensures Coherent(Section(Fresh(true), lines), b) <==>
      var sign := SectionSign(b, None, lines);
      sign.None? || sign.value == SectionBit(b, false, lines)
  {
    SectionTracks(Fresh(true), lines, b);
    SectionDisjoint(Fresh(true), lines);
  }

  predicate Signed(words: seq<Word>, signed: bool) {
    signed || exists i | 0 <= i < |words| :: !words[i].action.Absolute?
  }

  /** No absolute word follows a signed one. */
  predicate Orderly(words: seq<Word>, signed: bool) {
    words == [] ||
    (if words[0].action.Absolute? then !signed && Orderly(words[1..], signed) else Orderly(words[1..], true))
  }

  predicate OrderlySection(lines: seq<seq<Word>>, signed: bool) {
    lines == [] || (Orderly(lines[0], signed) && OrderlySection(lines[1..], Signed(lines[0], signed)))
  }

  lemma {:induction false} OrderlyLine(c: Config, words: seq<Word>, first: bool, signed: bool, b: Bit)
    requires Disjoint(c) && Coherent(c, b) && Orderly(words, signed)
    requires !signed ==> c.add == {} && c.remove == {}
    ensures Coherent(Line(c, words, first), b)
    ensures !Signed(words, signed) ==> Line(c, words, first).add == {} && Line(c, words, first).remove == {}
    decreases |words|
  {
    if words != [] {
      var w := words[0];
      OrderlyLine(Step(c, w, first), words[1..], first && !w.action.Absolute?, signed || !w.action.Absolute?, b);
    }
  }

  /** If no absolute word follows a signed one, the section is coherent. */
  lemma {:induction false} OrderlyCoherent(c: Config, lines: seq<seq<Word>>, signed: bool, b: Bit)
    requires Disjoint(c) && Coherent(c, b) && OrderlySection(lines, signed)
    requires !signed ==> c.add == {} && c.remove == {}
    ensures Coherent(Section(c, lines), b)
    decreases |lines|
  {
    if lines != [] {
      LineDisjoint(c, lines[0], true);
      OrderlyLine(c, lines[0], true, signed, b);
      OrderlyCoherent(Line(c, lines[0], true), lines[1..], Signed(lines[0], signed), b);
    }
  }

  /** An empty section changes a bit if and only if the configuration around it
      is not coherent there. */
  lemma {:induction false} EmptySection(c: Config, b: Bit)
    requires Disjoint(c)
    ensures (b in Merge(c, Fresh(true)).opts) == (b in c.opts) <==> Coherent(c, b)
  {
  }

  lemma {:induction false} NestMore(base: Config, sections: seq<seq<seq<Word>>>, lines: seq<seq<Word>>)
    ensures Nest(base, sections + [lines]) == Merge(Nest(base, sections), Section(Fresh(true), lines))
    decreases |sections|
  {
    var all := sections + [lines];
    if sections == [] {
      assert all == [lines] && all[1..] == [];
    } else {
      assert all[1..] == sections[1..] + [lines];
      NestMore(Merge(base, Section(Fresh(true), sections[0])), sections[1..], lines);
    }
  }

  lemma {:induction false} NestBitMore(b: Bit, v: bool, sections: seq<seq<seq<Word>>>, lines: seq<seq<Word>>)
    ensures NestBit(b, v, sections + [lines]) == SectionBit(b, NestBit(b, v, sections), lines)
    decreases |sections|
  {
    var all := sections + [lines];
    if sections == [] {
      assert all == [lines] && all[1..] == [];
    } else {
      assert all[1..] == sections[1..] + [lines];
      NestBitMore(b, SectionBit(b, v, sections[0]), sections[1..], lines);
    }
  }

  /** Every nest of the first k sections, with an empty section inside it, has
      the bit its words give it. */
  ghost predicate Faithful(base: Config, sections: seq<seq<seq<Word>>>, b: Bit) {
    forall k | 0 <= k <= |sections| ::
      (b in Nest(base, sections[..k] + [[]]).opts) == NestBit(b, b in base.opts, sections[..k])
  }

  /** A section that is not coherent is absolute, so it replaces what is around it. */
  lemma {:induction false} IncoherentShows(base: Config, sections: seq<seq<seq<Word>>>, lines: seq<seq<Word>>, b: Bit)
    requires Disjoint(base) && b != UNSET && !Coherent(Section(Fresh(true), lines), b)
    ensures (b in Nest(base, sections + [lines] + [[]]).opts) != NestBit(b, b in base.opts, sections + [lines])
  {
    var c := Section(Fresh(true), lines);
    var v := NestBit(b, b in base.opts, sections);
    SectionEffect(Fresh(true), lines, b, v);
    assert c == Merge(Nest(base, sections), c);
    NestMore(base, sections, lines);
    NestMore(base, sections + [lines], []);
    NestBitMore(b, b in base.opts, sections, lines);
    SectionDisjoint(Fresh(true), lines);
    EmptySection(c, b);
  }

  /** The last word wins in every nest if and only if every section is coherent. */
  lemma {:induction false} LastWordWinsIff(base: Config, sections: seq<seq<seq<Word>>>, b: Bit)
    requires Disjoint(base) && Coherent(base, b) && b != UNSET && b != INC_WITH_EXEC
    ensures Faithful(base, sections, b) <==> AllCoherent(sections, b)
  {
    if AllCoherent(sections, b) {
      forall k | 0 <= k <= |sections|
        ensures (b in Nest(base, sections[..k] + [[]]).opts) == NestBit(b, b in base.opts, sections[..k])
      {
        LastWordWins(base, sections[..k], b);
        NestMore(base, sections[..k], []);
        EmptySection(Nest(base, sections[..k]), b);
      }
    } else {
      var i :| 0 <= i < |sections| && !Coherent(Section(Fresh(true), sections[i]), b);
      assert sections[..i + 1] == sections[..i] + [sections[i]];
      IncoherentShows(base, sections[..i], sections[i], b);
    }
  }

  /** +Includes, then +IncludesNOEXEC, then +Indexes: exec is on again. */
  lemma {:induction false} ExecComesBack()
    ensures
      var plus := (k: Keyword) => [[Word(Plus, k)]];
      var base := Fresh(true);
      && INC_WITH_EXEC !in Nest(base, [plus(Includes), plus(IncludesNoExec)]).opts
      && INC_WITH_EXEC in Nest(base, [plus(Includes), plus(IncludesNoExec), plus(Indexes)]).opts
  {
    var base := Fresh(true);
    var a, b, c := [[Word(Plus, Includes)]], [[Word(Plus, IncludesNoExec)]], [[Word(Plus, Indexes)]];
    NestMore(base, [], a);
    NestMore(base, [a], b);
    NestMore(base, [a, b], c);
    var sa, sb, sc := Section(base, a), Section(base, b), Section(base, c);
    MergeExecBits(base, sa);
    MergeExecBits(Merge(base, sa), sb);
    MergeExecBits(Merge(Merge(base, sa), sb), sc);
  }

  /** No word of the section is absolute. */
  predicate Relative(lines: seq<seq<Word>>) {
    lines == [] || (RelativeLine(lines[0]) && Relative(lines[1..]))
  }

  predicate RelativeLine(words: seq<Word>) {
    words == [] || (!words[0].action.Absolute? && RelativeLine(words[1..]))
  }

  lemma {:induction false} RelativeLineUnset(v: bool, words: seq<Word>, first: bool)
    ensures LineBit(UNSET, v, words, first) <==> v && (first ==> RelativeLine(words))
    decreases |words|
  {
    if words != [] {
      var w := words[0];
      var now := match w.action case Absolute => v && !first case _ => v;
      RelativeLineUnset(now, words[1..], first && !w.action.Absolute?);
    }
  }

  lemma {:induction false} RelativeUnset(v: bool, lines: seq<seq<Word>>)
    ensures SectionBit(UNSET, v, lines) <==> v && Relative(lines)
    decreases |lines|
  {
    if lines != [] {
      RelativeLineUnset(v, lines[0], true);
      RelativeUnset(LineBit(UNSET, v, lines[0], true), lines[1..]);
    }
  }

  lemma {:induction false} LineSignFrom(b: Bit, sign: Option<bool>, words: seq<Word>)
    ensures LineSign(b, sign, words) == if LineSign(b, None, words).Some? then LineSign(b, None, words) else sign
    decreases |words|
  {
    if words != [] {
      var w := words[0];
      if b in Bits(w.keyword) && !w.action.Absolute? {
        LineSignFrom(b, Some(w.action.Plus?), words[1..]);
      } else {
        LineSignFrom(b, sign, words[1..]);
      }
    }
  }

  lemma {:induction false} SectionSignFrom(b: Bit, sign: Option<bool>, lines: seq<seq<Word>>)
    ensures SectionSign(b, sign, lines)
      == if SectionSign(b, None, lines).Some? then SectionSign(b, None, lines) else sign
    decreases |lines|
  {
    if lines != [] {
      LineSignFrom(b, sign, lines[0]);
      SectionSignFrom(b, LineSign(b, sign, lines[0]), lines[1..]);
      SectionSignFrom(b, LineSign(b, None, lines[0]), lines[1..]);
    }
  }

  /** A section of words on one bit: an absolute word decides anew; otherwise the
      last sign it was named with decides, and without one the bit stays. */
  lemma {:induction false} SectionSays(lines: seq<seq<Word>>, b: Bit, v: bool)
    requires b != UNSET
    ensures SectionBit(b, v, lines) ==
      var sign := SectionSign(b, None, lines);
      if !Relative(lines) then SectionBit(b, false, lines) else if sign.Some? then sign.value else v
  {
    SectionEffect(Fresh(true), lines, b, v);
    SectionTracks(Fresh(true), lines, b);
    SectionTracks(Fresh(true), lines, UNSET);
    SectionDisjoint(Fresh(true), lines);
    RelativeUnset(true, lines);
  }

  // ---- the law of nests, coherent or not ----

  /** What decides about a bit: whether it is on, and the last sign it was named
      with since the last absolute word. */
  datatype Track = Track(on: bool, sign: Option<bool>)

  function TrackOf(c: Config, b: Bit): Track {
    Track(b in c.opts, SignOf(c, b))
  }

  /** What a section inside sees of the bit. */
  function Shown(t: Track): bool {
    if t.sign.Some? then t.sign.value else t.on
  }

  /** The section decides about the bit, whatever is around it. */
  predicate Decides(lines: seq<seq<Word>>, b: Bit) {
    !Relative(lines) || SectionSign(b, None, lines).Some?
  }

  function TrackSection(t: Track, b: Bit, lines: seq<seq<Word>>): Track {
    var sign := SectionSign(b, None, lines);
    if !Relative(lines) then Track(SectionBit(b, false, lines), sign)
    else if sign.Some? then Track(sign.value, sign)
    else Track(Shown(t), t.sign)
  }

  function TrackNest(t: Track, b: Bit, sections: seq<seq<seq<Word>>>): Track
    decreases |sections|
  {
    if sections == [] then t else TrackNest(TrackSection(t, b, sections[0]), b, sections[1..])
  }

  lemma {:induction false} MergeTrack(base: Config, lines: seq<seq<Word>>, b: Bit)
    requires Disjoint(base) && b != UNSET && b != INC_WITH_EXEC
    ensures TrackOf(Merge(base, Section(Fresh(true), lines)), b) == TrackSection(TrackOf(base, b), b, lines)
  {
    SectionTracks(Fresh(true), lines, UNSET);
    SectionTracks(Fresh(true), lines, b);
    SectionDisjoint(Fresh(true), lines);
    RelativeUnset(true, lines);
  }

  /** Every bit but exec, in any nest, is what its words say by these rules. */
  lemma {:induction false} NestLaw(base: Config, sections: seq<seq<seq<Word>>>, b: Bit)
    requires Disjoint(base) && b != UNSET && b != INC_WITH_EXEC
    ensures TrackOf(Nest(base, sections), b) == TrackNest(TrackOf(base, b), b, sections)
    decreases |sections|
  {
    if sections != [] {
      MergeTrack(base, sections[0], b);
      SectionDisjoint(Fresh(true), sections[0]);
      NestLaw(Merge(base, Section(Fresh(true), sections[0])), sections[1..], b);
    }
  }

  /** The last section that decides about the bit, or else the outermost
      configuration, is coherent there. */
  predicate DecidedWell(base: Config, sections: seq<seq<seq<Word>>>, b: Bit)
    decreases |sections|
  {
    if sections == [] then Coherent(base, b)
    else
      var n := |sections| - 1;
      if Decides(sections[n], b) then Coherent(Section(Fresh(true), sections[n]), b)
      else DecidedWell(base, sections[..n], b)
  }

  /** A section that adds to what is around it, as one step outwards in. */
  lemma {:induction false} NestStep(base: Config, sections: seq<seq<seq<Word>>>, b: Bit)
    requires Disjoint(base) && b != UNSET && b != INC_WITH_EXEC && sections != []
    ensures
      var n := |sections| - 1;
      var v := NestBit(b, b in base.opts, sections[..n]);
      && TrackOf(Nest(base, sections), b) == TrackSection(TrackOf(Nest(base, sections[..n]), b), b, sections[n])
      && NestBit(b, b in base.opts, sections) == SectionBit(b, v, sections[n])
  {
    var n := |sections| - 1;
    assert sections == sections[..n] + [sections[n]];
    NestMore(base, sections[..n], sections[n]);
    NestBitMore(b, b in base.opts, sections[..n], sections[n]);
    NestDisjoint(base, sections[..n]);
    MergeTrack(Nest(base, sections[..n]), sections[n], b);
  }

  /** What a nest shows to sections inside is what its words say exactly when its
      last decider is coherent. */
  lemma {:induction false} ShownIff(base: Config, sections: seq<seq<seq<Word>>>, b: Bit)
    requires Disjoint(base) && b != UNSET && b != INC_WITH_EXEC
    ensures Shown(TrackOf(Nest(base, sections), b)) == NestBit(b, b in base.opts, sections) <==>
            DecidedWell(base, sections, b)
    decreases |sections|
  {
    if sections != [] {
      var n := |sections| - 1;
      NestStep(base, sections, b);
      SectionSays(sections[n], b, NestBit(b, b in base.opts, sections[..n]));
      if Decides(sections[n], b) {
        SectionSays(sections[n], b, false);
        CoherentIff(sections[n], b);
      } else {
        ShownIff(base, sections[..n], b);
      }
    }
  }

  /** In one given nest, the last word wins if and only if the last section that
      decides about the bit is coherent or is the innermost one. */
  lemma {:induction false} LastWordWinsHere(base: Config, sections: seq<seq<seq<Word>>>, b: Bit)
    requires Disjoint(base) && b != UNSET && b != INC_WITH_EXEC
    ensures (b in Nest(base, sections).opts) == NestBit(b, b in base.opts, sections) <==>
            sections == [] || Decides(sections[|sections| - 1], b) || DecidedWell(base, sections, b)
  {
    if sections != [] {
      var n := |sections| - 1;
      NestStep(base, sections, b);
      SectionSays(sections[n], b, NestBit(b, b in base.opts, sections[..n]));
      if !Decides(sections[n], b) {
        ShownIff(base, sections[..n], b);
      }
    }
  }

  // ---- exec ----

  /** What decides about exec: the same, and what decides about Includes. */
  datatype Exec = Exec(on: bool, sign: Option<bool>, includes: Track)

  /** A section of words. An absolute word decides anew. Otherwise naming Includes
      without exec turns exec off; a section that does not name exec falls back on
      the last sign it was named with. */
  function ExecSection(e: Exec, lines: seq<seq<Word>>): Exec {
    var only := SectionBit(INCLUDES, false, lines) && !SectionBit(INC_WITH_EXEC, false, lines);
    var sign := SectionSign(INC_WITH_EXEC, if Relative(lines) then e.sign else None, lines);
    var on :=
      if !Relative(lines) then SectionBit(INC_WITH_EXEC, false, lines)
      else if e.includes.on && e.on && only then false
      else if sign.Some? then sign.value
      else e.on;
    Exec(on, sign, TrackSection(e.includes, INCLUDES, lines))
  }

  function ExecNest(e: Exec, sections: seq<seq<seq<Word>>>): Exec
    decreases |sections|
  {
    if sections == [] then e else ExecNest(ExecSection(e, sections[0]), sections[1..])
  }

  function ExecOf(c: Config): Exec {
    Exec(INC_WITH_EXEC in c.opts, SignOf(c, INC_WITH_EXEC), TrackOf(c, INCLUDES))
  }

  lemma {:induction false} MergeExec(base: Config, lines: seq<seq<Word>>)
    requires Disjoint(base)
    ensures ExecOf(Merge(base, Section(Fresh(true), lines))) == ExecSection(ExecOf(base), lines)
  {
    var c := Section(Fresh(true), lines);
    SectionTracks(Fresh(true), lines, UNSET);
    SectionTracks(Fresh(true), lines, INCLUDES);
    SectionTracks(Fresh(true), lines, INC_WITH_EXEC);
    SectionDisjoint(Fresh(true), lines);
    RelativeUnset(true, lines);
    SectionSignFrom(INC_WITH_EXEC, SignOf(base, INC_WITH_EXEC), lines);
    MergeTrack(base, lines, INCLUDES);
    MergeExecBits(base, c);
  }

  lemma {:induction false} MergeExecBits(base: Config, c: Config)
    requires Disjoint(base) && Disjoint(c)
    ensures
      var m := Merge(base, c);
      var e, sign := ExecOf(base), SignOf(c, INC_WITH_EXEC);
      if UNSET !in c.opts then m == c
      else
        var now := if sign.Some? then sign else e.sign;
        && SignOf(m, INC_WITH_EXEC) == now
        && ((INC_WITH_EXEC in m.opts) ==
             if e.includes.on && e.on && INCLUDES in c.opts && INC_WITH_EXEC !in c.opts then false
             else if now.Some? then now.value else e.on)
  {
    var both := {INCLUDES, INC_WITH_EXEC};
    assert base.opts * both == both <==> INCLUDES in base.opts && INC_WITH_EXEC in base.opts;
    assert c.opts * both == {INCLUDES} <==> INCLUDES in c.opts && INC_WITH_EXEC !in c.opts by {
      if c.opts * both == {INCLUDES} {
        assert INC_WITH_EXEC !in c.opts * both && INCLUDES in c.opts * both;
      }
    }
  }

  /** Exec in any nest is what its words say by these rules. */
  lemma {:induction false} ExecLaw(base: Config, sections: seq<seq<seq<Word>>>)
    requires Disjoint(base)
    ensures ExecOf(Nest(base, sections)) == ExecNest(ExecOf(base), sections)
    decreases |sections|
  {
    if sections != [] {
      MergeExec(base, sections[0]);
      SectionDisjoint(Fresh(true), sections[0]);
      ExecLaw(Merge(base, Section(Fresh(true), sections[0])), sections[1..]);
    }
  }

  /** The section says nothing about exec and does not name Includes alone. */
  predicate SilentOnExec(lines: seq<seq<Word>>) {
    Relative(lines) && SectionSign(INC_WITH_EXEC, None, lines).None? && !SectionBit(INCLUDES, false, lines)
  }

  lemma {:induction false} SilentKeeps(e: Exec, sections: seq<seq<seq<Word>>>)
    requires sections != [] && forall i | 0 <= i < |sections| :: SilentOnExec(sections[i])
    ensures ExecNest(e, sections).on == (if e.sign.Some? then e.sign.value else e.on)
    decreases |sections|
  {
    var e' := ExecSection(e, sections[0]);
    assert SilentOnExec(sections[0]);
    SectionSignFrom(INC_WITH_EXEC, e.sign, sections[0]);
    assert e'.sign == e.sign && e'.on == if e.sign.Some? then e.sign.value else e.on;
    if |sections| > 1 {
      assert forall i | 0 <= i < |sections[1..]| :: sections[1..][i] == sections[i + 1];
      SilentKeeps(e', sections[1..]);
    } else {
      assert sections[1..] == [];
    }
  }

  /** After exec has been dropped, it stays off in every section inside that says
      nothing about it, if and only if it had not been added by name. */
  lemma {:induction false} ExecStaysOff(base: Config, noExec: seq<seq<Word>>, later: seq<seq<seq<Word>>>)
    requires Disjoint(base)
    requires {INCLUDES, INC_WITH_EXEC} <= base.opts && Relative(noExec)
    requires SectionBit(INCLUDES, false, noExec) && !SectionBit(INC_WITH_EXEC, false, noExec)
    requires SectionSign(INC_WITH_EXEC, None, noExec).None?
    requires later != [] && forall i | 0 <= i < |later| :: SilentOnExec(later[i])
    ensures INC_WITH_EXEC !in Nest(base, [noExec]).opts
    ensures INC_WITH_EXEC !in Nest(base, [noExec] + later).opts <==> INC_WITH_EXEC !in base.add
  {
    var all := [noExec] + later;
    var e := ExecSection(ExecOf(base), noExec);
    SectionSignFrom(INC_WITH_EXEC, SignOf(base, INC_WITH_EXEC), noExec);
    assert [noExec][1..] == [] && all[1..] == later && all[0] == noExec;
    MergeExec(base, noExec);
    ExecLaw(base, all);
    SilentKeeps(e, later);
  }
}
