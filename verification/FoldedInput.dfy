/** A folded line from the socket: ap_rgetline_core with folding on top of
    ap_core_input_filter, which is asked for lines and, between them, to look one
    byte ahead. */
module FoldedInput {
  import opened Flattening
  import opened Buckets
  import opened LineReader
  import opened LineFetch
  import I = InputFilter
  import B = LineBuffer

  // ---- when the bytes are all of a folded line ----

  /** The lines of s that continue line are all there, with the byte behind them, or
      one does not fit; if strict, that one with its line feed. */
  predicate UnfoldDone(s: seq<byte>, line: seq<byte>, n: nat, strict: bool)
    requires |line| < n
    decreases |s|
  {
    s != [] &&
    (IsBlank(s[0]) ==>
      match LineOf(s, n - |line|)
      case RefEof => false
      case RefNoSpace => strict ==> LF in s
      case RefLine(text, more) => UnfoldDone(more, line + Strip(text), n, strict))
  }

  /** The folded line of s is all there. */
  predicate FoldDone(s: seq<byte>, n: nat, strict: bool) {
    match LineOf(s, n)
    case RefEof => false
    case RefNoSpace => strict ==> LF in s
    case RefLine(text, more) => Strip(text) == [] || UnfoldDone(more, Strip(text), n, strict)
  }

  /** The same line, whatever follows it. */
  predicate SameFold(a: RefFolded, b: RefFolded) {
    if a.RefFolded? then b.RefFolded? && a.line == b.line else a == b
  }

  lemma {:induction false} UnfoldMore(s: seq<byte>, x: seq<byte>, line: seq<byte>, n: nat, strict: bool)
    requires |line| < n && UnfoldDone(s, line, n, strict)
    ensures UnfoldDone(s + x, line, n, strict) && SameFold(Unfold(s, line, n), Unfold(s + x, line, n))
    decreases |s|
  {
    LineOfMore(s, x, n - |line|);
    var r := LineOf(s, n - |line|);
    if IsBlank(s[0]) && r.RefLine? {
      UnfoldMore(r.more, x, line + Strip(r.text), n, strict);
    }
  }

  /** What comes after it makes no difference to a folded line that is all there. */
  lemma {:induction false} FoldMore(s: seq<byte>, x: seq<byte>, n: nat, strict: bool)
    requires FoldDone(s, n, strict)
    ensures FoldDone(s + x, n, strict) && SameFold(FoldedLine(s, n), FoldedLine(s + x, n))
  {
    LineOfMore(s, x, n);
    var r := LineOf(s, n);
    if r.RefLine? && Strip(r.text) != [] {
      UnfoldMore(r.more, x, Strip(r.text), n, strict);
    }
  }

  lemma {:induction false} FoldPrefix(s: seq<byte>, t: seq<byte>, n: nat, strict: bool)
    requires FoldDone(s, n, strict) && s <= t
    ensures FoldDone(t, n, strict) && SameFold(FoldedLine(s, n), FoldedLine(t, n))
  {
    assert t == s + t[|s|..];
    FoldMore(s, t[|s|..], n, strict);
  }

  lemma {:induction false} UnfoldStrict(s: seq<byte>, line: seq<byte>, n: nat)
    requires |line| < n && UnfoldDone(s, line, n, true)
    ensures UnfoldDone(s, line, n, false)
    decreases |s|
  {
    var r := LineOf(s, n - |line|);
    if IsBlank(s[0]) && r.RefLine? {
      UnfoldStrict(r.more, line + Strip(r.text), n);
    }
  }

  lemma {:induction false} FoldStrict(s: seq<byte>, n: nat)
    requires FoldDone(s, n, true)
    ensures FoldDone(s, n, false)
  {
    var r := LineOf(s, n);
    if r.RefLine? && Strip(r.text) != [] {
      UnfoldStrict(r.more, Strip(r.text), n);
    }
  }

  lemma {:induction false} UnfoldDoneReads(s: seq<byte>, line: seq<byte>, n: nat)
    requires |line| < n && UnfoldDone(s, line, n, false)
    ensures !Unfold(s, line, n).RefFoldEof?
    decreases |s|
  {
    var r := LineOf(s, n - |line|);
    if IsBlank(s[0]) && r.RefLine? {
      UnfoldDoneReads(r.more, line + Strip(r.text), n);
    }
  }

  lemma {:induction false} FoldDoneReads(s: seq<byte>, n: nat)
    requires FoldDone(s, n, false)
    ensures !FoldedLine(s, n).RefFoldEof?
  {
    var r := LineOf(s, n);
    if r.RefLine? && Strip(r.text) != [] {
      UnfoldDoneReads(r.more, Strip(r.text), n);
    }
  }

  // ---- between two lines ----

  /** Reading on after text is reading on after line. */
  predicate FoldsAt(text: seq<byte>, line: seq<byte>, z: seq<byte>, n: nat)
    requires |line| < n
  {
    && FoldedLine(text + z, n) == Unfold(z, line, n)
    && FoldDone(text + z, n, true) == UnfoldDone(z, line, n, true)
    && FoldDone(text + z, n, false) == UnfoldDone(z, line, n, false)
  }

  /** text is whole lines, which fold to line so far. */
  ghost predicate FoldsTo(text: seq<byte>, line: seq<byte>, n: nat) {
    |line| < n && forall z :: FoldsAt(text, line, z, n)
  }

  /** The text is one line with its line feed. */
  predicate OneLine(text: seq<byte>, n: nat) {
    LineOf(text, n) == RefLine(text, [])
  }

  lemma {:induction false} OneLineThen(text: seq<byte>, z: seq<byte>, n: nat)
    requires OneLine(text, n)
    ensures LineOf(text + z, n) == RefLine(text, z)
  {
    LineOfMore(text, z, n);
    assert [] + z == z;
  }

  lemma {:induction false} FirstFolds(text: seq<byte>, n: nat)
    requires OneLine(text, n) && Strip(text) != []
    ensures FoldsTo(text, Strip(text), n)
  {
    forall z ensures FoldsAt(text, Strip(text), z, n) {
      OneLineThen(text, z, n);
    }
  }

  lemma {:induction false} NextFoldsAt(text: seq<byte>, line: seq<byte>, next: seq<byte>, z: seq<byte>, n: nat)
    requires |line| < n && FoldsAt(text, line, next + z, n) && OneLine(next, n - |line|) && IsBlank(next[0])
    ensures FoldsAt(text + next, line + Strip(next), z, n)
  {
    Assoc(text, next, z);
    OneLineThen(next, z, n - |line|);
  }

  lemma {:induction false} NextFolds(text: seq<byte>, line: seq<byte>, next: seq<byte>, n: nat)
    requires FoldsTo(text, line, n) && OneLine(next, n - |line|) && IsBlank(next[0])
    ensures FoldsTo(text + next, line + Strip(next), n)
  {
    forall z ensures FoldsAt(text + next, line + Strip(next), z, n) {
      assert FoldsAt(text, line, next + z, n);
      NextFoldsAt(text, line, next, z, n);
    }
  }

  /** At the end of the lines that were read. */
  lemma {:induction false} FoldsAtEnd(text: seq<byte>, line: seq<byte>, n: nat)
    requires FoldsTo(text, line, n)
    ensures FoldedLine(text, n) == RefFolded(line, []) && !FoldDone(text, n, true)
  {
    assert text + [] == text;
    assert FoldsAt(text, line, [], n);
  }

  /** With a byte behind them that is no blank. */
  lemma {:induction false} FoldsBefore(text: seq<byte>, line: seq<byte>, z: seq<byte>, n: nat)
    requires FoldsTo(text, line, n) && z != [] && !IsBlank(z[0])
    ensures FoldDone(text + z, n, false) && SameFold(FoldedLine(text + z, n), RefFolded(line, []))
  {
    assert FoldsAt(text, line, z, n);
  }

  /** With a continuation that has no line feed, or does not fit. */
  lemma {:induction false} FoldsInto(text: seq<byte>, line: seq<byte>, z: seq<byte>, n: nat)
    requires FoldsTo(text, line, n) && z != [] && IsBlank(z[0])
    ensures LF !in z ==> !FoldDone(text + z, n, true)
    ensures LineOf(z, n - |line|).RefNoSpace? ==>
      FoldDone(text + z, n, false) && FoldedLine(text + z, n) == RefFoldNoSpace
    ensures LineOf(z, n - |line|).RefEof? ==> FoldedLine(text + z, n) == RefFoldEof
  {
    assert FoldsAt(text, line, z, n);
    var p := FirstLF(z);
  }

  // ---- one line from the socket ----

  function LineEnough(n: nat): seq<byte> -> bool {
    s => !LineOf(s, n).RefEof?
  }

  /** A line to be read, with m bytes and `step` reads before it. */
  function LineJob(inc: I.Incoming, m: nat, step: nat, n: nat): Job {
    Job(inc, Rest(inc, m), step, LineEnough(n), s => LF in s)
  }

  lemma {:induction false} LineSound(inc: I.Incoming, m: nat, step: nat, n: nat)
    ensures Linewise(LineJob(inc, m, step, n)) && Bounded(LineJob(inc, m, step, n), n)
  {
    var j := LineJob(inc, m, step, n);
    forall s | !j.enough(s) ensures LF !in s && |s| <= n {
      var p := FirstLF(s);
    }
  }

  /** A text that ends with its only line feed, or has none. */
  lemma {:induction false} OneLineOnly(s: seq<byte>, x: seq<byte>, n: nat)
    requires LineOf(s, n).RefEof? && forall i | 0 <= i < |x| - 1 :: x[i] != LF
    ensures LineOf(s + x, n).RefLine? ==> OneLine(s + x, n)
  {
    var p := FirstLF(s + x);
    assert forall i | 0 <= i < |s| :: (s + x)[i] == s[i] != LF;
    assert p >= |s| + |x| - 1;
  }

  /** What was fetched for a line: the line, or too much for it, or less. */
  lemma {:induction false} FetchedLine(j: Job, text: seq<byte>, events: seq<Event>, step: nat, n: nat)
    requires Fetched(j, text, events, step) && j.enough(text) && j.enough == LineEnough(n)
    ensures OneLine(text, n) || LineOf(text, n).RefNoSpace?
  {
    if events == [] {
      assert text == [];
    } else {
      var k := |events| - 1;
      assert CleanEvent(events[k]);
      FlattenExtend(EventText, events, k);
      assert events[..k + 1] == events;
      OneLineOnly(AllText(events[..k]), EventText(events[k]), n);
    }
  }

  method FetchLine(f: I.Filter, n: nat) returns (events: seq<Event>, text: seq<byte>, ghost j: Job)
    requires f.Valid()
    modifies f
    ensures f.Valid() && j == LineJob(f.inc, |old(f.taken)|, old(f.step), n) && old(f.step) <= f.step
    ensures Fetched(j, text, events, f.step)
    ensures if j.enough(text) then f.taken == old(f.taken) + text && (OneLine(text, n) || LineOf(text, n).RefNoSpace?)
            else old(f.taken) + text <= f.taken
  {
    j := LineJob(f.inc, |f.taken|, f.step, n);
    LineSound(f.inc, |f.taken|, f.step, n);
    events, text := Fetch(f, LineEnough(n), j, n);
    if j.enough(text) {
      FetchedLine(j, text, events, f.step, n);
    }
  }

  // ---- brigades, and a reply that stops the reading behind them ----

  lemma {:induction false} FoldSnoc(events: seq<Event>, e: Event, line: seq<byte>, n: nat)
    requires CleanEvents(events) && Stops(e) && |line| < n
    ensures
      var r, r' := Fold(events, line, n), Fold(events + [e], line, n);
      && (r.FoldFailed? ==> r' == FoldFailed(StopCode(e)))
      && (r.Folded? && r.rest == [] && e.Error? ==> r' == FoldFailed(e.code))
    decreases |events|
  {
    if events == [] {
      assert [] + [e] == [e];
    } else {
      PeekByBytes(events);
      assert Peek(events + [e]) == Peek(events) && AllText(events)[0] == EventText(events[0])[0];
      if IsBlank(AllText(events)[0]) {
        var m := n - |line|;
        GatherByBytes(events, [], m);
        GatherSnoc(events, e, [], m);
        assert [] + AllText(events) == AllText(events);
        var r := Gather(events, [], false, m);
        if r.Line? {
          FoldSnoc(r.rest, e, line + Strip(r.text), n);
        }
      }
    }
  }

  lemma {:induction false} NoText(events: seq<Event>)
    requires CleanEvents(events) && AllText(events) == []
    ensures events == []
  {
    assert events != [] ==> CleanEvent(events[0]);
  }

  lemma {:induction false} ReadFoldedSnoc(events: seq<Event>, e: Event, n: nat)
    requires CleanEvents(events) && Stops(e)
    ensures
      var ref, r := FoldedLine(AllText(events), n), ReadFolded(events + [e], n);
      && (ref.RefFoldEof? ==> r == FoldFailed(StopCode(e)))
      && (ref.RefFolded? && ref.line != [] && ref.more == [] && e.Error? ==> r == FoldFailed(e.code))
  {
    ChunkingIrrelevant(events, n);
    GatherByBytes(events, [], n);
    GatherSnoc(events, e, [], n);
    assert [] + AllText(events) == AllText(events);
    var r := Gather(events, [], false, n);
    if r.Line? && Strip(r.text) != [] {
      FoldSnoc(r.rest, e, Strip(r.text), n);
      var all := ReadFolded(events, n);
      if all.Folded? && AllText(all.rest) == [] {
        NoText(all.rest);
      }
    }
  }

  // ---- a folded line from the socket ----

  function FoldJob(inc: I.Incoming, m: nat, step: nat, n: nat): Job {
    Job(inc, Rest(inc, m), step, s => FoldDone(s, n, false), s => FoldDone(s, n, true))
  }

  /** The result is that of the bytes. */
  predicate Reads(r: FoldResult, ref: RefFolded) {
    match ref
    case RefFolded(line, _) => r.Folded? && r.line == line
    case RefFoldNoSpace => r.FoldNoSpace?
    case RefFoldEof => r.FoldFailed?
  }

  /** The folded line leaves nothing over. */
  predicate Exhausts(ref: RefFolded) {
    ref.RefFolded? ==> ref.more == []
  }

  /** A result for text, all of it, where more of the stream may have been got: it is
      what the stream says, or there was not enough of that, and nothing more came. */
  predicate Outcome(r: FoldResult, text: seq<byte>, got: seq<byte>, dry: bool, n: nat) {
    && text <= got && (r.FoldFailed? || (Reads(r, FoldedLine(text, n)) && Exhausts(FoldedLine(text, n))))
    && ((FoldDone(got, n, false) && Reads(r, FoldedLine(got, n))) || (dry && !FoldDone(got, n, true)))
  }

  /** What reading the brigades gives. */
  ghost predicate FoldFetched(j: Job, text: seq<byte>, events: seq<Event>, step: nat, n: nat) {
    j.step <= step && Outcome(ReadFolded(events, n), text, j.got(step), Dry(j, step), n)
  }

  lemma {:induction false} BytesRead(events: seq<Event>, n: nat)
    requires CleanEvents(events)
    ensures Reads(ReadFolded(events, n), FoldedLine(AllText(events), n))
  {
    ChunkingIrrelevant(events, n);
  }

  lemma {:induction false} NoLine(s: seq<byte>, n: nat)
    requires LF !in s
    ensures !FoldDone(s, n, true)
  {
    var p := FirstLF(s);
  }

  lemma {:induction false} NoFeeds(text: seq<byte>, got: seq<byte>, n: nat)
    requires LineOf(text, n).RefEof? && text <= got && LF !in got[|text|..]
    ensures LF !in got
  {
    var p := FirstLF(text);
    assert got == text + got[|text|..];
  }

  /** What was read is enough. */
  lemma {:induction false} EnoughRead(r: FoldResult, text: seq<byte>, got: seq<byte>, dry: bool, n: nat)
    requires Reads(r, FoldedLine(text, n)) && Exhausts(FoldedLine(text, n)) && FoldDone(text, n, false) && text <= got
    ensures Outcome(r, text, got, dry, n)
  {
    FoldPrefix(text, got, n, false);
  }

  /** The first line. */
  lemma {:induction false} FirstFetched(j: Job, jl: Job, text: seq<byte>, events: seq<Event>, step: nat, n: nat)
    requires Fetched(jl, text, events, step) && jl.enough == LineEnough(n) && j.step <= step
    requires jl.inc == j.inc && jl.got == j.got && jl.step == j.step
    requires jl.enough(text) ==> OneLine(text, n) || LineOf(text, n).RefNoSpace?
    ensures FoldFetched(j, text, events, step, n) || (OneLine(text, n) && Strip(text) != [])
    ensures !jl.enough(text) ==> ReadFolded(events, n).FoldFailed?
  {
    if jl.enough(text) {
      if LineOf(text, n).RefNoSpace? || Strip(text) == [] {
        BytesRead(events, n);
        EnoughRead(ReadFolded(events, n), text, j.got(step), Dry(j, step), n);
      }
    } else {
      var k := |events| - 1;
      assert events == events[..k] + [events[k]];
      ReadFoldedSnoc(events[..k], events[k], n);
      NoFeeds(text, j.got(step), n);
      NoLine(j.got(step), n);
    }
  }

  lemma {:induction false} RestBehind(inc: I.Incoming, before: seq<byte>, text: seq<byte>, step: nat)
    requires before + text <= I.Stream(inc, step)
    ensures Rest(inc, |before|)(step) == text + Rest(inc, |before + text|)(step)
  {
    var all := I.Stream(inc, step);
    assert all[|before|..] == all[|before|..|before + text|] + all[|before + text|..];
    assert all[|before|..|before + text|] == text;
  }

  /** A continuation line. */
  lemma {:induction false} NextFetched(j: Job, jl: Job, text: seq<byte>, line: seq<byte>, events: seq<Event>,
                                       next: seq<byte>, more: seq<Event>, step: nat, n: nat)
    requires FoldsTo(text, line, n) && line != [] && CleanEvents(events) && AllText(events) == text
    requires Fetched(jl, next, more, step) && jl.enough == LineEnough(n - |line|) && j.step <= jl.step <= step
    requires jl.inc == j.inc && j.got(step) == text + jl.got(step)
    requires jl.got(step) != [] && IsBlank(jl.got(step)[0])
    requires jl.enough(next) ==> OneLine(next, n - |line|) || LineOf(next, n - |line|).RefNoSpace?
    ensures
      if OneLine(next, n - |line|)
      then IsBlank(next[0]) && CleanEvents(events + more) && AllText(events + more) == text + next
      else FoldFetched(j, text + next, events + more, step, n)
    ensures !jl.enough(next) ==> ReadFolded(events + more, n).FoldFailed?
  {
    var z := jl.got(step);
    FlattenConcat(EventText, events, more);
    if jl.enough(next) {
      assert next != [] && next[0] == z[0];
      if LineOf(next, n - |line|).RefNoSpace? {
        FoldsInto(text, line, next, n);
        assert text + next <= j.got(step);
        BytesRead(events + more, n);
        EnoughRead(ReadFolded(events + more, n), text + next, j.got(step), Dry(j, step), n);
      }
    } else {
      NextFailed(j, jl, text, line, events, next, more, step, n);
    }
  }

  /** A continuation without its line feed, of which only next was read. */
  lemma {:induction false} NextShort(text: seq<byte>, line: seq<byte>, next: seq<byte>, z: seq<byte>, n: nat)
    requires FoldsTo(text, line, n) && LineOf(next, n - |line|).RefEof?
    requires next <= z && z != [] && IsBlank(z[0]) && LF !in z[|next|..]
    ensures !FoldDone(text + z, n, true)
    ensures FoldedLine(text + next, n) == if next == [] then RefFolded(line, []) else RefFoldEof
  {
    NoFeeds(next, z, n - |line|);
    FoldsInto(text, line, z, n);
    if next == [] {
      assert text + next == text;
      FoldsAtEnd(text, line, n);
    } else {
      assert next[0] == z[0];
      FoldsInto(text, line, next, n);
    }
  }

  lemma {:induction false} NextFailed(j: Job, jl: Job, text: seq<byte>, line: seq<byte>, events: seq<Event>,
                                      next: seq<byte>, more: seq<Event>, step: nat, n: nat)
    requires FoldsTo(text, line, n) && line != [] && CleanEvents(events) && AllText(events) == text
    requires Fetched(jl, next, more, step) && jl.enough == LineEnough(n - |line|) && j.step <= jl.step <= step
    requires jl.inc == j.inc && j.got(step) == text + jl.got(step)
    requires jl.got(step) != [] && IsBlank(jl.got(step)[0]) && !jl.enough(next)
    ensures FoldFetched(j, text + next, events + more, step, n) && ReadFolded(events + more, n).FoldFailed?
  {
    var k := |more| - 1;
    NextShort(text, line, next, jl.got(step), n);
    StopsAt(events, text, more[..k], next, more[k], n);
    assert more == more[..k] + [more[k]] && (events + more[..k]) + [more[k]] == events + more;
    assert text + next <= text + jl.got(step);
  }

  /** A stop after some of a line, or where one was to follow. */
  lemma {:induction false} StopsAt(events: seq<Event>, text: seq<byte>, more: seq<Event>, next: seq<byte>, e: Event,
                                   n: nat)
    requires CleanEvents(events) && AllText(events) == text && CleanEvents(more) && AllText(more) == next && Stops(e)
    requires
      var ref := FoldedLine(text + next, n);
      ref.RefFoldEof? || (ref.RefFolded? && ref.line != [] && ref.more == [] && e.Error?)
    ensures ReadFolded((events + more) + [e], n).FoldFailed?
  {
    FlattenConcat(EventText, events, more);
    ReadFoldedSnoc(events + more, e, n);
  }

  /** A blocking look at the next byte. It shows nothing only if nothing came. */
  method PeekByte(f: I.Filter) returns (e: Event, x: seq<byte>)
    requires f.Valid()
    modifies f
    ensures f.Valid() && f.taken == old(f.taken) && f.step >= old(f.step)
    ensures |x| <= 1 && (e.Error? ==> x == [])
    ensures x == [] ==> f.Stuck(old(f.step))
    ensures x != [] ==> I.Ahead(f.b) != [] && I.Ahead(f.b)[0] == x[0]
  {
    ghost var ahead := I.Ahead(f.b);
    var status, out := f.ReadBytes(true, Blocking, 1);
    x := Content(out);
    e := EventOf(status, []);
    if x != [] {
      I.AheadHead(f.b);
    } else if I.Sock in old(f.b) {
      I.ReadMore(f.inc, old(f.step), f.taken);
      assert f.taken + I.Ahead(f.b) == f.taken;
    }
  }

  /** Between two lines of a folded line: these were taken, and fold to line. */
  ghost predicate Between(j: Job, before: seq<byte>, text: seq<byte>, line: seq<byte>, events: seq<Event>, f: I.Filter,
                          n: nat)
    reads f
  {
    && Taken(j, before, text, f) && CleanEvents(events) && AllText(events) == text
    && FoldsTo(text, line, n) && line != []
  }

  /** The folded line was fetched. */
  ghost predicate Complete(j: Job, before: seq<byte>, text: seq<byte>, events: seq<Event>, f: I.Filter, n: nat)
    reads f
  {
    && f.Valid() && FoldFetched(j, text, events, f.step, n)
    && (if ReadFolded(events, n).FoldFailed? then before + text <= f.taken else f.taken == before + text)
  }

  /** Nothing came behind the lines that were read, or no blank. */
  lemma {:induction false} EndsHere(j: Job, before: seq<byte>, text: seq<byte>, line: seq<byte>, events: seq<Event>,
                                    f: I.Filter, n: nat)
    requires Between(j, before, text, line, events, f, n)
    requires if I.Ahead(f.b) == [] then Dry(j, f.step) else !IsBlank(I.Ahead(f.b)[0])
    ensures Complete(j, before, text, events, f, n)
  {
    var z := I.Ahead(f.b);
    GotAhead(j, before, text, f);
    BytesRead(events, n);
    FoldsAtEnd(text, line, n);
    if z == [] {
      assert text + z == text;
    } else {
      FoldsBefore(text, line, z, n);
    }
  }

  lemma {:induction false} GotAhead(j: Job, before: seq<byte>, text: seq<byte>, f: I.Filter)
    requires Taken(j, before, text, f)
    ensures j.got(f.step) == text + I.Ahead(f.b)
  {
    var ahead := I.Ahead(f.b);
    Assoc(before, text, ahead);
    assert (before + (text + ahead))[|before|..] == text + ahead;
  }

  /** The look ahead failed. */
  lemma {:induction false} FailsHere(j: Job, before: seq<byte>, text: seq<byte>, line: seq<byte>, events: seq<Event>,
                                     e: Event, f: I.Filter, n: nat)
    requires Between(j, before, text, line, events, f, n) && I.Ahead(f.b) == [] && Dry(j, f.step) && e.Error?
    ensures Complete(j, before, text, events + [e], f, n)
  {
    GotAhead(j, before, text, f);
    assert text + [] == text;
    FoldsAtEnd(text, line, n);
    ReadFoldedSnoc(events, e, n);
  }

  /** What is got for the continuation, and starts with a blank. */
  lemma {:induction false} NextGot(j: Job, before: seq<byte>, text: seq<byte>, ahead: seq<byte>, jl: Job, step: nat)
    requires j.got == Rest(j.inc, |before|) && jl.inc == j.inc && jl.got == Rest(j.inc, |before + text|)
    requires jl.step <= step
    requires (before + text) + ahead == I.Stream(j.inc, jl.step) && ahead != [] && IsBlank(ahead[0])
    ensures j.got(step) == text + jl.got(step) && jl.got(step) != [] && IsBlank(jl.got(step)[0])
  {
    var all := I.Stream(j.inc, step);
    StreamGrows(j.inc, jl.step, step);
    RestBehind(j.inc, before, text, step);
    assert all[|before + text|] == ahead[0];
  }

  /** The continuation line. */
  method FoldLine(f: I.Filter, n: nat, ghost j: Job, ghost before: seq<byte>, ghost text0: seq<byte>, line0: seq<byte>,
                  events0: seq<Event>)
    returns (going: bool, events: seq<Event>, ghost text: seq<byte>, line: seq<byte>)
    requires Between(j, before, text0, line0, events0, f, n) && I.Ahead(f.b) != [] && IsBlank(I.Ahead(f.b)[0])
    modifies f
    ensures if going then Between(j, before, text, line, events, f, n) && |line| > |line0|
            else Complete(j, before, text, events, f, n)
  {
    ghost var ahead := I.Ahead(f.b);
    var more, next;
    ghost var jl;
    more, next, jl := FetchLine(f, n - |line0|);
    NextGot(j, before, text0, ahead, jl, f.step);
    NextFetched(j, jl, text0, line0, events0, next, more, f.step, n);
    Assoc(before, text0, next);
    going := LineOf(next, n - |line0|).RefLine?;
    events, text, line := events0 + more, text0 + next, line0;
    if going {
      LineFolds(text0, line0, next, n);
      line := line0 + Strip(next);
    }
  }

  lemma {:induction false} LineFolds(text: seq<byte>, line: seq<byte>, next: seq<byte>, n: nat)
    requires FoldsTo(text, line, n) && OneLine(next, n - |line|) && IsBlank(next[0])
    ensures FoldsTo(text + next, line + Strip(next), n) && |line + Strip(next)| > |line|
  {
    NextFolds(text, line, next, n);
  }

  /** A look at the next byte, and the continuation line if it starts one. */
  method FoldNext(f: I.Filter, n: nat, ghost j: Job, ghost before: seq<byte>, ghost text0: seq<byte>, line0: seq<byte>,
                  events0: seq<Event>)
    returns (going: bool, events: seq<Event>, ghost text: seq<byte>, line: seq<byte>)
    requires Between(j, before, text0, line0, events0, f, n)
    modifies f
    ensures if going then Between(j, before, text, line, events, f, n) && |line| > |line0|
            else Complete(j, before, text, events, f, n)
  {
    going, events, text, line := false, events0, text0, line0;
    var e, x := PeekByte(f);
    if e.Error? {
      FailsHere(j, before, text, line, events, e, f, n);
      events := events + [e];
    } else if x == [] || !IsBlank(x[0]) {
      EndsHere(j, before, text, line, events, f, n);
    } else {
      going, events, text, line := FoldLine(f, n, j, before, text, line, events);
    }
  }

  /** Ask the filter for a folded line. */
  method FetchFolded(f: I.Filter, n: nat) returns (events: seq<Event>, ghost j: Job, ghost text: seq<byte>)
    requires f.Valid()
    modifies f
    ensures j == FoldJob(f.inc, |old(f.taken)|, old(f.step), n) && Complete(j, old(f.taken), text, events, f, n)
  {
    j := FoldJob(f.inc, |f.taken|, f.step, n);
    ghost var before := f.taken;
    var first;
    ghost var jl;
    events, first, jl := FetchLine(f, n);
    text := first;
    FirstFetched(j, jl, text, events, f.step, n);
    var going := LineOf(first, n).RefLine? && Strip(first) != [];
    var line := first;
    if going {
      FirstFolds(first, n);
      line := Strip(first);
    }
    while going
      invariant if going then Between(j, before, text, line, events, f, n) else Complete(j, before, text, events, f, n)
      decreases going, n - |line|
    {
      going, events, text, line := FoldNext(f, n, j, before, text, line, events);
    }
  }

  /** The result on the buffer. */
  ghost predicate Shows(status: B.Status, s: array?<byte>, read: nat, ref: RefFolded)
    reads s
  {
    match ref
    case RefFolded(line, _) => status.Done? && read == |line| && B.Terminated(s, 0, line)
    case RefFoldNoSpace => status.NoRoom?
    case RefFoldEof => status.Failure?
  }

  /** The buffer code's result for the brigades. */
  ghost predicate Buffered(status: B.Status, s: array?<byte>, read: nat, r: FoldResult)
    reads s
  {
    match r
    case Folded(line, _) => status.Done? && read == |line| && B.Terminated(s, 0, line)
    case FoldNoSpace => status.NoRoom?
    case FoldFailed(code) => status == B.Failure(code)
  }

  lemma {:induction false} ShownAs(status: B.Status, s: array?<byte>, read: nat, r: FoldResult, ref: RefFolded)
    requires Buffered(status, s, read, r) && Reads(r, ref)
    ensures Shows(status, s, read, ref)
  {}

  lemma {:induction false} OutcomeSays(r: FoldResult, text: seq<byte>, got: seq<byte>, dry: bool, n: nat)
    requires Outcome(r, text, got, dry, n)
    ensures r.FoldFailed? ==> dry
    ensures dry || Reads(r, FoldedLine(got, n))
  {
    if FoldDone(got, n, false) {
      FoldDoneReads(got, n);
    }
  }

  lemma {:induction false} ArrivedOutcome(j: Job, k: nat, step: nat, r: FoldResult, text: seq<byte>, n: nat)
    requires Growing(j) && j.step <= step && Outcome(r, text, j.got(step), Dry(j, step), n)
    requires Arrived(j, k) && FoldDone(j.got(k), n, true)
    ensures Reads(r, FoldedLine(j.got(k), n))
  {
    var late := if k < step then step else k;
    if FoldDone(j.got(step), n, false) && Reads(r, FoldedLine(j.got(step), n)) {
      FoldStrict(j.got(k), n);
      FoldPrefix(j.got(k), j.got(late), n, false);
      FoldPrefix(j.got(step), j.got(late), n, false);
    } else {
      DryArrived(j, k, step);
      FoldPrefix(j.got(k), j.got(step), n, true);
      assert false;
    }
  }

  /** The folded line that was fetched, read into a buffer. */
  method ReadFetched(events: seq<Event>, s0: array?<byte>, own: bool, n: nat)
    returns (status: B.Status, s: array?<byte>, read: nat)
    requires if own then s0 == null else s0 != null && 0 < n <= s0.Length
    modifies s0
    ensures Buffered(status, s, read, ReadFolded(events, n))
    ensures if own then s == null || fresh(s) else s == s0
  {
    var src := new B.Source(events);
    status, s, read := B.ReadFoldedLine(src, s0, own, n);
  }

  /** A folded line from the socket, in the caller's buffer or one of its own,
      whatever was read from the connection before: it is that of the bytes taken;
      if it arrives whole, with the byte behind it, it is that of the stream, however
      cut; and it fails only if a read gave nothing or the stream has ended. */
  method ReadFoldedInput(f: I.Filter, s0: array?<byte>, own: bool, n: nat)
    returns (status: B.Status, s: array?<byte>, read: nat, ghost j: Job, ghost text: seq<byte>)
    requires f.Valid() && if own then s0 == null else s0 != null && 0 < n <= s0.Length
    modifies f, s0
    ensures f.Valid() && j == FoldJob(f.inc, |old(f.taken)|, old(f.step), n)
    ensures status.Failure? ||
      (f.taken == old(f.taken) + text && Shows(status, s, read, FoldedLine(text, n)) && Exhausts(FoldedLine(text, n)))
    ensures status.Failure? ==> Dry(j, f.step) && old(f.taken) + text <= f.taken
    ensures Dry(j, f.step) || Shows(status, s, read, FoldedLine(j.got(f.step), n))
    ensures forall k | Arrived(j, k) :: Shows(status, s, read, FoldedLine(j.got(k), n))
    ensures if own then s == null || fresh(s) else s == s0
  {
    var events;
    events, j, text := FetchFolded(f, n);
    ghost var r, got, dry := ReadFolded(events, n), j.got(f.step), Dry(j, f.step);
    assert Outcome(r, text, got, dry, n);
    status, s, read := ReadFetched(events, s0, own, n);
    OutcomeSays(r, text, got, dry, n);
    RestGrows(j, |old(f.taken)|);
    if !r.FoldFailed? {
      ShownAs(status, s, read, r, FoldedLine(text, n));
    }
    if !dry {
      ShownAs(status, s, read, r, FoldedLine(got, n));
    }
    forall k | Arrived(j, k) ensures Shows(status, s, read, FoldedLine(j.got(k), n)) {
      ArrivedOutcome(j, k, f.step, r, text, n);
      ShownAs(status, s, read, r, FoldedLine(j.got(k), n));
    }
  }
}
