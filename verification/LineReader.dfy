/** ap_rgetline_core: a line of a request, however the input filters cut it into
    buckets, in a buffer that is never overrun. */
module LineReader {
  import opened Flattening
  import opened Buckets

  const LF: byte := 10
  const CR: byte := 13
  const MIN_LINE_ALLOC: nat := 80

  datatype Piece = Text(data: seq<byte>) | EosMark

  /** What one call of the input filters for a line gives. */
  datatype Event = Brigade(pieces: seq<Piece>) | Error(code: int)

  const EGENERAL: int := 20014
  const EOF: int := 70014

  datatype LineResult =
    | Line(text: seq<byte>, sawEos: bool, rest: seq<Event>)   // text ends in LF
    | NoSpace(handled: nat)                                    // APR_ENOSPC, after handled bytes
    | Failed(code: int)

  /** The bytes of a brigade up to EOS, appended to acc, as long as they fit in n. */
  datatype Filled = Fits(acc: seq<byte>, sawEos: bool) | Overflow(acc: seq<byte>)

  function Fill(pieces: seq<Piece>, acc: seq<byte>, n: nat): (r: Filled)
    ensures acc <= r.acc
    ensures |acc| <= n ==> |r.acc| <= n
  {
    if pieces == [] then Fits(acc, false)
    else match pieces[0]
      case EosMark => Fits(acc, true)
      case Text(data) =>
        if data != [] && n < |acc| + |data| then Overflow(acc) else Fill(pieces[1..], acc + data, n)
  }

  predicate EndsInLF(s: seq<byte>) {
    s != [] && s[|s| - 1] == LF
  }

  /** Read brigades until the text ends in a line feed. */
  function Gather(events: seq<Event>, acc: seq<byte>, sawEos: bool, n: nat): (r: LineResult)
    ensures r.Line? ==> EndsInLF(r.text) && |r.rest| < |events| && (|acc| <= n ==> |r.text| <= n)
    ensures r.NoSpace? && |acc| <= n ==> r.handled <= n
    decreases |events|
  {
    if events == [] then Failed(EOF)
    else match events[0]
      case Error(code) => Failed(code)
      case Brigade(pieces) =>
        if pieces == [] then Failed(EGENERAL)
        else match Fill(pieces, acc, n)
          case Overflow(acc') => NoSpace(|acc'|)
          case Fits(acc', eos) =>
            if EndsInLF(acc') then Line(acc', sawEos || eos, events[1..])
            else Gather(events[1..], acc', sawEos || eos, n)
  }

  /** The text without its line end. */
  function Strip(text: seq<byte>): (r: seq<byte>)
    requires EndsInLF(text)
    ensures |r| < |text| && r <= text
  {
    var t := text[..|text| - 1];
    if t != [] && t[|t| - 1] == CR then t[..|t| - 1] else t
  }

  /** The bytes that carry a line: the line, then CR LF, or LF unless the line ends in CR. */
  predicate Carries(text: seq<byte>, line: seq<byte>) {
    text == line + [13, 10] || (text == line + [10] && (line == [] || line[|line| - 1] != 13))
  }

  /** A line end is LF or CR LF, and all of it is cut off. */
  lemma {:induction false} StripIff(text: seq<byte>, line: seq<byte>)
    requires EndsInLF(text)
    ensures Strip(text) == line <==> Carries(text, line)
  {
    var r := Strip(text);
    assert text == r + text[|r|..];
    if Carries(text, line) {
      assert r == line;
    }
  }

  /** What looking one byte ahead shows. */
  datatype Peeked = Byte(b: byte) | Nothing | PeekError(code: int)

  function PeekPieces(pieces: seq<Piece>): Peeked {
    if pieces == [] then Nothing
    else if pieces[0].EosMark? then Nothing
    else if pieces[0].data != [] then Byte(pieces[0].data[0])
    else PeekPieces(pieces[1..])
  }

  /** Looking ahead past the last brigade shows nothing; a filter that reports the
      end instead is an Error event. */
  function Peek(events: seq<Event>): Peeked {
    if events == [] then Nothing
    else match events[0]
      case Error(code) => PeekError(code)
      case Brigade(pieces) => PeekPieces(pieces)
  }

  datatype FoldResult = Folded(line: seq<byte>, rest: seq<Event>) | FoldNoSpace | FoldFailed(code: int)

  /** Append continuation lines to line. */
  function Fold(events: seq<Event>, line: seq<byte>, n: nat): (r: FoldResult)
    requires |line| < n
    ensures r.Folded? ==> |r.line| < n && line <= r.line
    decreases |events|
  {
    match Peek(events)
    case PeekError(code) => FoldFailed(code)
    case Nothing => Folded(line, events)
    case Byte(b) =>
      if !IsBlank(b) then Folded(line, events)
      else match Gather(events, [], false, n - |line|)
        case Failed(code) => FoldFailed(code)
        case NoSpace(_) => FoldNoSpace
        case Line(text, _, rest) => Fold(rest, line + Strip(text), n)
  }

  /** ap_rgetline_core with folding. */
  function ReadFolded(events: seq<Event>, n: nat): (r: FoldResult)
    ensures r.Folded? ==> |r.line| < n
  {
    match Gather(events, [], false, n)
    case Failed(code) => FoldFailed(code)
    case NoSpace(_) => FoldNoSpace
    case Line(text, eos, rest) =>
      if Strip(text) == [] || eos then Folded(Strip(text), rest) else Fold(rest, Strip(text), n)
  }

  // ---- the result as a function of the bytes alone ----

  function PieceText(p: Piece): seq<byte> {
    if p.Text? then p.data else []
  }

  function EventText(e: Event): seq<byte> {
    if e.Brigade? then Flatten(PieceText, e.pieces) else []
  }

  function AllText(events: seq<Event>): seq<byte> {
    Flatten(EventText, events)
  }

  /** A brigade as the line mode of the input filters gives it: some bytes, a line
      feed at most at their end. */
  predicate CleanEvent(e: Event) {
    && e.Brigade? && (forall i | 0 <= i < |e.pieces| :: e.pieces[i].Text?)
    && EventText(e) != [] && forall i | 0 <= i < |EventText(e)| - 1 :: EventText(e)[i] != LF
  }

  predicate CleanEvents(events: seq<Event>) {
    forall i | 0 <= i < |events| :: CleanEvent(events[i])
  }

  datatype RefLine = RefLine(text: seq<byte>, more: seq<byte>) | RefNoSpace | RefEof

  function FirstLF(s: seq<byte>): (p: nat)
    ensures p <= |s| && (p < |s| ==> s[p] == LF)
    ensures forall i | 0 <= i < p :: s[i] != LF
  {
    if s == [] || s[0] == LF then 0 else 1 + FirstLF(s[1..])
  }

  /** The first line of s with its line feed, if that fits in n bytes. */
  function LineOf(s: seq<byte>, n: nat): (r: RefLine)
    ensures r.RefLine? ==> EndsInLF(r.text) && |r.text| <= n && r.text + r.more == s
  {
    var p := FirstLF(s);
    if p == |s| then if |s| > n then RefNoSpace else RefEof
    else if p + 1 > n then RefNoSpace else RefLine(s[..p + 1], s[p + 1..])
  }

  lemma {:induction false} FirstLFAt(s: seq<byte>, p: nat)
    requires p <= |s| && (p < |s| ==> s[p] == LF) && forall i | 0 <= i < p :: s[i] != LF
    ensures FirstLF(s) == p
  {
    var q := FirstLF(s);
    assert q < |s| ==> s[q] == LF;
  }

  lemma {:induction false} LineOfMore(s: seq<byte>, x: seq<byte>, n: nat)
    ensures
      match LineOf(s, n)
      case RefLine(text, more) => LineOf(s + x, n) == RefLine(text, more + x)
      case RefNoSpace => LineOf(s + x, n).RefNoSpace?
      case RefEof => LF !in x ==> !LineOf(s + x, n).RefLine? && LF !in s + x
  {
    var p := FirstLF(s);
    if p < |s| {
      FirstLFAt(s + x, p);
      assert (s + x)[..p + 1] == s[..p + 1] && (s + x)[p + 1..] == s[p + 1..] + x;
    } else if LF !in x {
      assert forall i | 0 <= i < |s + x| :: (s + x)[i] != LF;
      FirstLFAt(s + x, |s + x|);
    } else {
      assert forall i | 0 <= i < |s| :: (s + x)[i] == s[i];
    }
  }

  /** The line that t carries is read as such, if it fits. */
  lemma {:induction false} LineCarried(t: seq<byte>, line: seq<byte>, more: seq<byte>, n: nat)
    requires Carries(t, line) && LF !in line
    ensures LineOf(t + more, n) == if |t| <= n then RefLine(t, more) else RefNoSpace
    ensures Strip(t) == line
  {
    var s := t + more;
    StripIff(t, line);
    assert forall i | 0 <= i < |line| :: s[i] == line[i];
    FirstLFAt(s, |t| - 1);
    assert s[..|t|] == t && s[|t|..] == more;
  }

  lemma {:induction false} FillText(pieces: seq<Piece>, acc: seq<byte>, n: nat)
    requires (forall i | 0 <= i < |pieces| :: pieces[i].Text?) && |acc| <= n
    ensures
      var all := acc + Flatten(PieceText, pieces);
      if |all| <= n then Fill(pieces, acc, n) == Fits(all, false) else Fill(pieces, acc, n).Overflow?
    decreases |pieces|
  {
    if pieces == [] {
      assert acc + [] == acc;
    } else {
      var d := pieces[0].data;
      Assoc(acc, d, Flatten(PieceText, pieces[1..]));
      if |acc| + |d| <= n {
        FillText(pieces[1..], acc + d, n);
      }
    }
  }

  /** Reading a line depends on the bytes, not on how they are cut. */
  lemma {:induction false} GatherByBytes(events: seq<Event>, acc: seq<byte>, n: nat)
    requires CleanEvents(events) && |acc| <= n && forall i | 0 <= i < |acc| :: acc[i] != LF
    ensures
      var r := Gather(events, acc, false, n);
      match LineOf(acc + AllText(events), n)
      case RefLine(text, more) => r.Line? && r.text == text && !r.sawEos && CleanEvents(r.rest)
        && AllText(r.rest) == more
      case RefNoSpace => r.NoSpace?
      case RefEof => r == Failed(EOF)
    decreases |events|
  {
    var s := acc + AllText(events);
    if events == [] {
      assert s == acc;
      FirstLFAt(s, |s|);
    } else {
      var t, more := EventText(events[0]), AllText(events[1..]);
      var all := acc + t;
      Assoc(acc, t, more);
      FillText(events[0].pieces, acc, n);
      assert s == all + more;
      LineStart(acc, t, more);
      if |all| <= n {
        if EndsInLF(all) {
          assert s[..|all|] == all && s[|all|..] == more;
        } else {
          GatherByBytes(events[1..], all, n);
        }
      }
    }
  }

  /** Where the first line feed can be, behind acc and one clean brigade t. */
  lemma {:induction false} LineStart(acc: seq<byte>, t: seq<byte>, more: seq<byte>)
    requires t != [] && (forall i | 0 <= i < |acc| :: acc[i] != LF) && forall i | 0 <= i < |t| - 1 :: t[i] != LF
    ensures EndsInLF(acc + t) ==> FirstLF((acc + t) + more) == |acc + t| - 1
    ensures !EndsInLF(acc + t) ==>
      FirstLF((acc + t) + more) >= |acc + t| && forall i | 0 <= i < |acc + t| :: (acc + t)[i] != LF
  {
    var all := acc + t;
    var s := all + more;
    var p := FirstLF(s);
    forall i | 0 <= i < |all| - 1 ensures s[i] != LF && all[i] != LF {
      if i >= |acc| { assert all[i] == t[i - |acc|]; }
    }
    assert s[|all| - 1] == all[|all| - 1];
    if EndsInLF(all) {
      FirstLFAt(s, |all| - 1);
    }
  }

  datatype RefFolded = RefFolded(line: seq<byte>, more: seq<byte>) | RefFoldNoSpace | RefFoldEof

  /** Append to line the lines of s that start with a blank or tab. */
  function Unfold(s: seq<byte>, line: seq<byte>, n: nat): RefFolded
    requires |line| < n
    decreases |s|
  {
    if s == [] || !IsBlank(s[0]) then RefFolded(line, s)
    else match LineOf(s, n - |line|)
      case RefEof => RefFoldEof
      case RefNoSpace => RefFoldNoSpace
      case RefLine(text, more) => Unfold(more, line + Strip(text), n)
  }

  lemma {:induction false} PeekText(pieces: seq<Piece>)
    requires forall i | 0 <= i < |pieces| :: pieces[i].Text?
    ensures
      var t := Flatten(PieceText, pieces);
      PeekPieces(pieces) == if t == [] then Nothing else Byte(t[0])
    decreases |pieces|
  {
    if pieces != [] { PeekText(pieces[1..]); }
  }

  lemma {:induction false} PeekByBytes(events: seq<Event>)
    requires CleanEvents(events)
    ensures Peek(events) == if AllText(events) == [] then Nothing else Byte(AllText(events)[0])
  {
    if events != [] {
      PeekText(events[0].pieces);
      assert CleanEvent(events[0]) && AllText(events)[0] == EventText(events[0])[0];
    }
  }

  /** The folding loop depends on the bytes only. */
  lemma {:induction false} FoldByBytes(events: seq<Event>, line: seq<byte>, n: nat)
    requires CleanEvents(events) && |line| < n
    ensures Agrees(Fold(events, line, n), Unfold(AllText(events), line, n))
    decreases |events|
  {
    var s := AllText(events);
    PeekByBytes(events);
    if s != [] && IsBlank(s[0]) {
      GatherByBytes(events, [], n - |line|);
      assert [] + s == s;
      var r := Gather(events, [], false, n - |line|);
      if r.Line? {
        FoldByBytes(r.rest, line + Strip(r.text), n);
      }
    }
  }

  predicate Agrees(r: FoldResult, ref: RefFolded) {
    match ref
    case RefFolded(line, more) => r.Folded? && r.line == line && CleanEvents(r.rest) && AllText(r.rest) == more
    case RefFoldNoSpace => r.FoldNoSpace?
    case RefFoldEof => r == FoldFailed(EOF)
  }

  /** The folded line of s, and what follows it. */
  function FoldedLine(s: seq<byte>, n: nat): RefFolded {
    match LineOf(s, n)
    case RefEof => RefFoldEof
    case RefNoSpace => RefFoldNoSpace
    case RefLine(text, more) => if Strip(text) == [] then RefFolded([], more) else Unfold(more, Strip(text), n)
  }

  /** Reading a folded line gives the folded line of the bytes: how the filters
      cut them into brigades and buckets does not matter. */
  lemma {:induction false} ChunkingIrrelevant(events: seq<Event>, n: nat)
    requires CleanEvents(events)
    ensures Agrees(ReadFolded(events, n), FoldedLine(AllText(events), n))
  {
    GatherByBytes(events, [], n);
    assert [] + AllText(events) == AllText(events);
    var r := Gather(events, [], false, n);
    if r.Line? && Strip(r.text) != [] {
      FoldByBytes(r.rest, Strip(r.text), n);
    }
  }

  // ---- what a peer sends and what is read ----

  lemma {:induction false} GatherMore(events: seq<Event>, more: seq<Event>, acc: seq<byte>, sawEos: bool, n: nat)
    ensures
      var r := Gather(events, acc, sawEos, n);
      r.Line? ==> Gather(events + more, acc, sawEos, n) == r.(rest := r.rest + more)
    decreases |events|
  {
    if events != [] && events[0].Brigade? && events[0].pieces != [] {
      assert (events + more)[1..] == events[1..] + more;
      var f := Fill(events[0].pieces, acc, n);
      if f.Fits? {
        GatherMore(events[1..], more, f.acc, sawEos || f.sawEos, n);
      }
    }
  }

  /** After the end of the stream nothing is looked at: what follows is left alone,
      even if it would continue the line. */
  lemma {:induction false} EosEndsLine(events: seq<Event>, more: seq<Event>, n: nat)
    requires Gather(events, [], false, n).Line? && Gather(events, [], false, n).sawEos
    ensures ReadFolded(events, n).Folded?
    ensures
      var r := ReadFolded(events, n);
      ReadFolded(events + more, n) == r.(rest := r.rest + more)
  {
    GatherMore(events, more, [], false, n);
  }

  /** text carries line, a line that is not empty, in n bytes at most. */
  predicate CarriesSome(text: seq<byte>, line: seq<byte>, n: nat) {
    Carries(text, line) && line != [] && LF !in line && |text| <= n
  }

  ghost predicate CarryAll(texts: seq<seq<byte>>, lines: seq<seq<byte>>, n: nat) {
    |texts| == |lines| && forall i | 0 <= i < |lines| :: CarriesSome(texts[i], lines[i], n)
  }

  /** A line that starts with a space or a tab. */
  predicate Indented(line: seq<byte>) {
    line != [] && (line[0] == 32 || line[0] == 9)
  }

  function Bytes(text: seq<byte>): seq<byte> {
    text
  }

  /** Lines that start with a blank or tab are appended, each without its end. */
  lemma {:induction false} UnfoldCarried(texts: seq<seq<byte>>, lines: seq<seq<byte>>, line: seq<byte>,
                                         more: seq<byte>, n: nat)
    requires CarryAll(texts, lines, n) && (forall i | 0 <= i < |lines| :: Indented(lines[i]))
    requires !Indented(more)
    requires |line + Flatten(Bytes, lines)| + 2 <= n
    ensures Unfold(Flatten(Bytes, texts) + more, line, n) == RefFolded(line + Flatten(Bytes, lines), more)
    decreases |lines|
  {
    var s := Flatten(Bytes, texts) + more;
    if lines == [] {
      assert s == more && line + [] == line;
    } else {
      var t, rest := texts[0], Flatten(Bytes, texts[1..]) + more;
      assert CarriesSome(t, lines[0], n);
      Assoc(t, Flatten(Bytes, texts[1..]), more);
      Assoc(line, lines[0], Flatten(Bytes, lines[1..]));
      LineCarried(t, lines[0], rest, n - |line|);
      assert s[0] == lines[0][0];
      UnfoldCarried(texts[1..], lines[1..], line + lines[0], more, n);
    }
  }

  /** A line and its continuations are read as one line, joined, and what follows
      them is left. */
  lemma {:induction false} FoldedCarried(texts: seq<seq<byte>>, lines: seq<seq<byte>>, more: seq<byte>, n: nat)
    requires lines != [] && CarryAll(texts, lines, n) && (forall i | 0 < i < |lines| :: Indented(lines[i]))
    requires !Indented(more)
    requires |Flatten(Bytes, lines)| + 2 <= n
    ensures FoldedLine(Flatten(Bytes, texts) + more, n) == RefFolded(Flatten(Bytes, lines), more)
  {
    var t, rest := texts[0], Flatten(Bytes, texts[1..]) + more;
    assert CarriesSome(t, lines[0], n);
    Assoc(t, Flatten(Bytes, texts[1..]), more);
    LineCarried(t, lines[0], rest, n);
    UnfoldCarried(texts[1..], lines[1..], lines[0], more, n);
  }
}
