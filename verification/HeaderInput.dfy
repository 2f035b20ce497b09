/** From the socket to the header table: ap_core_input_filter, ap_rgetline_core and
    ap_get_mime_headers_core together. What they make of a header depends on its
    bytes, not on how these arrive. */
module HeaderInput {
  import opened Flattening
  import opened Buckets
  import opened LineReader
  import opened LineFetch
  import I = InputFilter
  import B = LineBuffer
  import H = HeaderSpec
  import P = HeaderParser
  import T = HeaderText

  // ---- the lines of a header, from brigades and from bytes ----

  /** What ap_get_mime_headers_core gets to see of the brigades. */
  function HeaderCalls(events: seq<Event>, n: nat): seq<H.Read>
    decreases |events|
  {
    match Gather(events, [], false, n)
    case Failed(code) => [H.Failed(code == TIMEUP)]
    case NoSpace(_) => [H.Failed(false)]
    case Line(text, _, rest) =>
      if Strip(text) == [] then [H.Line([])] else [H.Line(Strip(text))] + HeaderCalls(rest, n)
  }

  /** The lines of s up to the empty one, or to one that does not fit in n. */
  function HeaderReads(s: seq<byte>, n: nat): seq<H.Read>
    decreases |s|
  {
    match LineOf(s, n)
    case RefEof => []
    case RefNoSpace => [H.Failed(false)]
    case RefLine(text, more) =>
      if Strip(text) == [] then [H.Line([])] else [H.Line(Strip(text))] + HeaderReads(more, n)
  }

  /** After s the reader asks for more. */
  predicate Wants(s: seq<byte>, n: nat)
    decreases |s|
  {
    match LineOf(s, n)
    case RefEof => true
    case RefNoSpace => false
    case RefLine(text, more) => Strip(text) != [] && Wants(more, n)
  }

  /** s holds a whole header: all lines up to the empty one, or to one that does
      not fit, each with its line feed. */
  predicate Settled(s: seq<byte>, n: nat)
    decreases |s|
  {
    match LineOf(s, n)
    case RefEof => false
    case RefNoSpace => LF in s
    case RefLine(text, more) => Strip(text) == [] || Settled(more, n)
  }

  /** What comes after the header makes no difference. */
  lemma {:induction false} ReadsMore(s: seq<byte>, x: seq<byte>, n: nat)
    requires !Wants(s, n)
    ensures HeaderReads(s + x, n) == HeaderReads(s, n) && !Wants(s + x, n)
    decreases |s|
  {
    LineOfMore(s, x, n);
    var r := LineOf(s, n);
    if r.RefLine? && Strip(r.text) != [] {
      ReadsMore(r.more, x, n);
    }
  }

  lemma {:induction false} SettledMore(s: seq<byte>, x: seq<byte>, n: nat)
    requires Settled(s, n)
    ensures Settled(s + x, n) && !Wants(s + x, n)
    decreases |s|
  {
    LineOfMore(s, x, n);
    var r := LineOf(s, n);
    if r.RefLine? && Strip(r.text) != [] {
      SettledMore(r.more, x, n);
    }
  }

  lemma {:induction false} SettledPrefix(s: seq<byte>, t: seq<byte>, n: nat)
    requires Settled(s, n) && s <= t
    ensures Settled(t, n) && !Wants(t, n)
  {
    assert t == s + t[|s|..];
    SettledMore(s, t[|s|..], n);
  }

  /** Any beginning of the stream gives the lines of a header in it, or some of them. */
  lemma {:induction false} WholeReads(text: seq<byte>, whole: seq<byte>, all: seq<byte>, n: nat)
    requires text <= all && whole <= all && Settled(whole, n)
    ensures if Wants(text, n) then HeaderReads(text, n) <= HeaderReads(whole, n)
            else HeaderReads(text, n) == HeaderReads(whole, n)
  {
    assert all == whole + all[|whole|..] && all == text + all[|text|..];
    SettledPrefix(whole, whole, n);
    ReadsMore(whole, all[|whole|..], n);
    if Wants(text, n) {
      ReadsPrefix(text, all[|text|..], n);
    } else {
      ReadsMore(text, all[|text|..], n);
    }
  }

  /** An unfinished header is not finished by bytes without a line feed. */
  lemma {:induction false} WantsMore(s: seq<byte>, x: seq<byte>, n: nat)
    requires Wants(s, n) && LF !in x
    ensures !Settled(s + x, n)
    decreases |s|
  {
    LineOfMore(s, x, n);
    var r := LineOf(s, n);
    if r.RefLine? {
      WantsMore(r.more, x, n);
    }
  }

  lemma {:induction false} WantsBefore(s: seq<byte>, x: seq<byte>, t: seq<byte>, n: nat)
    requires Wants(s, n) && LF !in x && t <= s + x
    ensures !Settled(t, n)
  {
    WantsMore(s, x, n);
    if Settled(t, n) {
      SettledPrefix(t, s + x, n);
    }
  }

  /** s is a header up to and with its empty line, and nothing more. */
  predicate Exactly(s: seq<byte>, n: nat)
    decreases |s|
  {
    var r := LineOf(s, n);
    r.RefLine? && if Strip(r.text) == [] then r.more == [] else Exactly(r.more, n)
  }

  /** Nothing beyond the empty line was read. */
  predicate NotBeyond(s: seq<byte>, n: nat) {
    H.Complete(HeaderReads(s, n)) ==> Exactly(s, n)
  }

  /** As long as brigades end at a line feed, reading stops at the empty line. */
  lemma {:induction false} NotBeyondMore(s: seq<byte>, x: seq<byte>, n: nat)
    requires Wants(s, n) && forall i | 0 <= i < |x| - 1 :: x[i] != LF
    ensures NotBeyond(s + x, n)
    decreases |s|
  {
    LineOfMore(s, x, n);
    var r, t := LineOf(s, n), LineOf(s + x, n);
    if r.RefLine? {
      NotBeyondMore(r.more, x, n);
      CompleteTail(Strip(r.text), HeaderReads(r.more + x, n));
    } else {
      var p := FirstLF(s + x);
      assert forall i | 0 <= i < |s| :: (s + x)[i] == s[i] != LF;
      assert p >= |s| + |x| - 1;
      if t.RefLine? && Strip(t.text) != [] {
        assert t.more == [];
        assert Wants([], n);
        CompleteTail(Strip(t.text), HeaderReads([], n));
      }
    }
  }

  lemma {:induction false} CompleteTail(line: T.Text, calls: seq<H.Read>)
    requires line != []
    ensures H.Complete([H.Line(line)] + calls) ==> H.Complete(calls)
  {
    assert ([H.Line(line)] + calls)[1..] == calls;
  }

  // ---- what a peer sends ----

  /** Lines on the wire, each with its end, and then LF or CR LF alone: that is a
      header of these lines, and it ends there. */
  lemma {:induction false} HeaderCarried(texts: seq<seq<byte>>, lines: seq<T.Text>, end: seq<byte>, more: seq<byte>,
                                         n: nat)
    requires CarryAll(texts, lines, n) && Carries(end, []) && |end| <= n
    ensures
      var s := Flatten(Bytes, texts) + end;
      && Exactly(s, n) && Settled(s + more, n) && HeaderReads(s + more, n) == HeaderReads(s, n)
      && H.Complete(HeaderReads(s, n)) && H.Header(HeaderReads(s, n)) == lines
    decreases |lines|
  {
    var s := Flatten(Bytes, texts) + end;
    if lines == [] {
      assert s == end && end + [] == end;
      LineCarried(end, [], [], n);
      LineCarried(end, [], more, n);
    } else {
      var t, rest := texts[0], Flatten(Bytes, texts[1..]) + end;
      assert CarriesSome(t, lines[0], n);
      Assoc(t, Flatten(Bytes, texts[1..]), end);
      Assoc(t, rest, more);
      LineCarried(t, lines[0], rest, n);
      LineCarried(t, lines[0], rest + more, n);
      HeaderCarried(texts[1..], lines[1..], end, more, n);
      HeaderCons(lines[0], HeaderReads(rest, n));
      CompleteCons(lines[0], HeaderReads(rest, n));
    }
  }

  /** And every header that is read to its end is of this form. */
  lemma {:induction false} ExactlyCarried(s: seq<byte>, n: nat)
    returns (texts: seq<seq<byte>>, lines: seq<T.Text>, end: seq<byte>)
    requires Exactly(s, n)
    ensures CarryAll(texts, lines, n) && Carries(end, []) && |end| <= n && s == Flatten(Bytes, texts) + end
    decreases |s|
  {
    var r := LineOf(s, n);
    if Strip(r.text) == [] {
      texts, lines, end := [], [], r.text;
      StripIff(end, []);
      assert s == [] + end;
    } else {
      texts, lines, end := ExactlyCarried(r.more, n);
      texts, lines := CarryMore(r.text, Strip(r.text), texts, lines, end, n);
    }
  }

  lemma {:induction false} CarryMore(text: seq<byte>, line: T.Text, texts: seq<seq<byte>>, lines: seq<T.Text>,
                                     end: seq<byte>, n: nat)
    returns (texts': seq<seq<byte>>, lines': seq<T.Text>)
    requires CarryAll(texts, lines, n) && EndsInLF(text) && line == Strip(text) != [] && |text| <= n && LF !in line
    ensures CarryAll(texts', lines', n)
    ensures Flatten(Bytes, texts') + end == text + (Flatten(Bytes, texts) + end)
  {
    StripIff(text, line);
    texts', lines' := [text] + texts, [line] + lines;
    assert CarriesSome(text, line, n) && texts'[1..] == texts;
    Assoc(text, Flatten(Bytes, texts), end);
  }

  lemma {:induction false} CompleteCons(line: T.Text, calls: seq<H.Read>)
    requires line != []
    ensures H.Complete(calls) ==> H.Complete([H.Line(line)] + calls)
  {
    assert ([H.Line(line)] + calls)[1..] == calls;
  }

  // ---- refusing a header before its end ----

  /** Reading on adds lines to those of an unfinished header. */
  lemma {:induction false} ReadsPrefix(s: seq<byte>, x: seq<byte>, n: nat)
    requires Wants(s, n)
    ensures HeaderReads(s, n) <= HeaderReads(s + x, n)
    decreases |s|
  {
    LineOfMore(s, x, n);
    var r := LineOf(s, n);
    if r.RefLine? {
      ReadsPrefix(r.more, x, n);
    }
  }

  /** None of its lines is empty. */
  lemma {:induction false} ReadsOpen(s: seq<byte>, n: nat)
    requires Wants(s, n)
    ensures H.End(HeaderReads(s, n)) == |HeaderReads(s, n)|
    decreases |s|
  {
    var r := LineOf(s, n);
    if r.RefLine? {
      ReadsOpen(r.more, n);
      assert ([H.Line(Strip(r.text))] + HeaderReads(r.more, n))[1..] == HeaderReads(r.more, n);
    }
  }

  /** The lines in s. */
  function LinesOf(s: seq<byte>, limitSize: nat): seq<T.Text> {
    H.Header(HeaderReads(s, limitSize + 2))
  }

  /** The lines exceed a limit or hold a complete field without a colon. */
  predicate Improper(lines: seq<T.Text>, limitFields: nat, limitSize: nat) {
    var fields := H.Unfold(lines);
    fields != [] && !H.Passes(T.Split, fields, |fields| - 1, limitFields, limitSize)
  }

  lemma {:induction false} ImproperMore(lines: seq<T.Text>, i: nat, limitFields: nat, limitSize: nat)
    requires i <= |lines| && Improper(lines[..i], limitFields, limitSize)
    ensures Improper(lines, limitFields, limitSize)
  {
    var n, m := |H.Unfold(lines[..i])| - 1, |H.Unfold(lines)| - 1;
    H.UnfoldGrows(lines, i);
    if H.Passes(T.Split, H.Unfold(lines), m, limitFields, limitSize) {
      H.PassedBefore(T.Split, lines, i, n, m, limitFields, limitSize);
    }
  }

  predicate Refused(s: seq<byte>, limitFields: nat, limitSize: nat) {
    Improper(LinesOf(s, limitSize), limitFields, limitSize)
  }

  /** After s nothing more is read. */
  predicate Enough(s: seq<byte>, limitFields: nat, limitSize: nat) {
    !Wants(s, limitSize + 2) || Refused(s, limitFields, limitSize)
  }

  lemma {:induction false} HeaderPrefix(some: seq<H.Read>, all: seq<H.Read>)
    requires some <= all && H.End(some) == |some|
    ensures |some| <= H.End(all) && H.Header(all)[..|some|] == H.Header(some)
  {
    assert forall i | 0 <= i < |some| :: all[i] == some[i];
  }

  /** What is refused before its end is refused in the end. */
  lemma {:induction false} RefusedVerdict(s: seq<byte>, calls: seq<H.Read>, limitFields: nat, limitSize: nat)
    requires Wants(s, limitSize + 2) && Refused(s, limitFields, limitSize) && HeaderReads(s, limitSize + 2) <= calls
    ensures H.Verdict(T.Split, calls, limitFields, limitSize) == H.BadRequest
  {
    var seen := HeaderReads(s, limitSize + 2);
    ReadsOpen(s, limitSize + 2);
    HeaderPrefix(seen, calls);
    H.Rejected(T.Split, calls, |seen|, |H.Unfold(H.Header(seen))| - 1, limitFields, limitSize);
  }

  lemma {:induction false} EnoughMore(s: seq<byte>, t: seq<byte>, limitFields: nat, limitSize: nat)
    requires Enough(s, limitFields, limitSize) && s <= t
    ensures Enough(t, limitFields, limitSize)
  {
    var n, x := limitSize + 2, t[|s|..];
    assert t == s + x;
    if !Wants(s, n) {
      ReadsMore(s, x, n);
    } else if Wants(t, n) {
      ReadsPrefix(s, x, n);
      ReadsOpen(s, n);
      HeaderPrefix(HeaderReads(s, n), HeaderReads(t, n));
      ImproperMore(LinesOf(t, limitSize), |HeaderReads(s, n)|, limitFields, limitSize);
    }
  }

  /** The lines of s are in its fields, each with two bytes for its end. */
  lemma {:induction false} RawSize(s: seq<byte>, n: nat)
    requires Wants(s, n)
    ensures
      var lines := H.Header(HeaderReads(s, n));
      && |s| <= 3 * |Flatten(H.Identity, lines)| + n
      && forall i | 0 <= i < |lines| :: |lines[i]| < n
    decreases |s|
  {
    var r := LineOf(s, n);
    if r.RefLine? {
      RawSize(r.more, n);
      HeaderCons(Strip(r.text), HeaderReads(r.more, n));
    }
  }

  lemma {:induction false} HeaderCons(line: T.Text, calls: seq<H.Read>)
    requires line != []
    ensures
      var lines, more := H.Header([H.Line(line)] + calls), H.Header(calls);
      lines == [line] + more && Flatten(H.Identity, lines) == line + Flatten(H.Identity, more)
  {
    var all, more := [H.Line(line)] + calls, H.Header(calls);
    assert all[1..] == calls && H.Header(all) == [line] + more && ([line] + more)[1..] == more;
  }

  lemma {:induction false} FieldSizes(lines: seq<T.Text>, n: nat, i: nat)
    requires (forall j | 0 <= j < |lines| :: |lines[j]| < n) && i < |H.Unfold(lines)|
    ensures !H.Unfold(lines)[i].folded ==> |H.Unfold(lines)[i].text| < n
    decreases |lines|
  {
    var k := H.Run(lines[1..]);
    if i > 0 {
      FieldSizes(lines[k + 1..], n, i - 1);
    } else if k == 0 {
      assert lines[..1] == [lines[0]];
      FlattenOne(H.Identity, lines[0]);
    }
  }

  lemma {:induction false} TotalSize(fields: seq<H.Field>, size: nat)
    requires forall i | 0 <= i < |fields| :: |fields[i].text| <= size
    ensures |Flatten(H.TextOf, fields)| <= |fields| * size
  {
    if fields != [] {
      TotalSize(fields[1..], size);
      assert |fields| * size == size + |fields[1..]| * size;
    }
  }

  /** How long a header can get while it is read on, with a limit on its fields. */
  function Limit(limitFields: nat, limitSize: nat): nat {
    3 * ((limitFields + 1) * (limitSize + 1)) + limitSize + 2
  }

  /** The limits bound what is read of a header. */
  lemma {:induction false} LimitsHold(s: seq<byte>, limitFields: nat, limitSize: nat)
    requires !Enough(s, limitFields, limitSize) && limitFields > 0
    ensures |s| <= Limit(limitFields, limitSize)
  {
    var lines := LinesOf(s, limitSize);
    var fields := H.Unfold(lines);
    RawSize(s, limitSize + 2);
    H.UnfoldConserves(lines);
    forall i | 0 <= i < |fields| ensures |fields[i].text| <= limitSize + 1 {
      FieldSizes(lines, limitSize + 2, i);
      assert H.Fits(fields[i], limitSize);
    }
    TotalSize(fields, limitSize + 1);
    Times(|fields|, limitFields + 1, limitSize + 1);
  }

  lemma {:induction false} Times(a: nat, b: nat, c: nat)
    requires a <= b
    ensures a * c <= b * c
  {}

  // ---- brigades against bytes ----

  /** With enough brigades the parser sees the lines of their bytes. */
  lemma {:induction false} CallsByBytes(events: seq<Event>, n: nat)
    requires CleanEvents(events) && !Wants(AllText(events), n)
    ensures HeaderCalls(events, n) == HeaderReads(AllText(events), n)
    decreases |events|
  {
    GatherByBytes(events, [], n);
    assert [] + AllText(events) == AllText(events);
    var r := Gather(events, [], false, n);
    if r.Line? && Strip(r.text) != [] {
      CallsByBytes(r.rest, n);
    }
  }

  /** When the filters give up too early, it sees the lines so far and a failure. */
  lemma {:induction false} CallsStop(events: seq<Event>, e: Event, n: nat)
    requires CleanEvents(events) && Wants(AllText(events), n) && Stops(e)
    ensures HeaderCalls(events + [e], n) == HeaderReads(AllText(events), n) + [H.Failed(StopCode(e) == TIMEUP)]
    decreases |events|
  {
    GatherByBytes(events, [], n);
    GatherSnoc(events, e, [], n);
    assert [] + AllText(events) == AllText(events);
    var r := Gather(events, [], false, n);
    if r.Line? {
      CallsStop(r.rest, e, n);
      Assoc([H.Line(Strip(r.text))], HeaderReads(AllText(r.rest), n), [H.Failed(StopCode(e) == TIMEUP)]);
    }
  }

  /** The parser itself stops early at a header it refuses. */
  lemma {:induction false} CallsRunOut(events: seq<Event>, n: nat)
    requires CleanEvents(events) && Wants(AllText(events), n)
    ensures HeaderCalls(events, n) == HeaderReads(AllText(events), n) + [H.Failed(false)]
    decreases |events|
  {
    GatherByBytes(events, [], n);
    assert [] + AllText(events) == AllText(events);
    var r := Gather(events, [], false, n);
    if r.Line? {
      CallsRunOut(r.rest, n);
      Assoc([H.Line(Strip(r.text))], HeaderReads(AllText(r.rest), n), [H.Failed(false)]);
    }
  }

  /** One line for ap_get_mime_headers_core, in a new buffer. */
  method ReadCall(src: B.Source, n: nat) returns (call: H.Read, going: bool)
    modifies src
    ensures HeaderCalls(old(src.rest), n) == [call] + if going then HeaderCalls(src.rest, n) else []
    ensures going ==> |src.rest| < |old(src.rest)|
  {
    var status, s, read, eos := B.ReadLine(src, null, true, 0, n);
    call := H.Failed(status == B.Failure(TIMEUP));
    if status.Done? {
      call := H.Line(s[..read]);
      assert s[0..read] == s[..read];
    }
    going := status.Done? && read > 0;
  }

  /** The lines as ap_get_mime_headers_core reads them. */
  method ReadCalls(src: B.Source, n: nat) returns (calls: seq<H.Read>)
    modifies src
    ensures calls == HeaderCalls(old(src.rest), n)
  {
    calls := [];
    var going := true;
    ghost var all := HeaderCalls(src.rest, n);
    assert [] + all == all;
    while going
      invariant all == calls + if going then HeaderCalls(src.rest, n) else []
      decreases going, |src.rest|
    {
      var call;
      ghost var before := calls;
      call, going := ReadCall(src, n);
      calls := calls + [call];
      Assoc(before, [call], if going then HeaderCalls(src.rest, n) else []);
    }
    assert calls + [] == calls;
  }

  // ---- from the socket to the table ----

  /** A header to be read, with n bytes and `step` reads before it. */
  function HeaderJob(inc: I.Incoming, n: nat, step: nat, limitFields: nat, limitSize: nat): Job {
    Job(inc, Rest(inc, n), step, EnoughFor(limitFields, limitSize), s => Settled(s, limitSize + 2))
  }

  function EnoughFor(limitFields: nat, limitSize: nat): seq<byte> -> bool {
    s => Enough(s, limitFields, limitSize)
  }

  lemma {:induction false} HeaderLinewise(inc: I.Incoming, n: nat, step: nat, limitFields: nat, limitSize: nat)
    ensures Linewise(HeaderJob(inc, n, step, limitFields, limitSize))
  {
    var j := HeaderJob(inc, n, step, limitFields, limitSize);
    forall s, x, t | !j.enough(s) && LF !in x && t <= s + x ensures !j.whole(t) {
      WantsBefore(s, x, t, limitSize + 2);
    }
  }

  /** Reading comes to an end: the number of fields is limited, or by read m the
      peer has sent enough, or it sends nothing from then on. */
  ghost predicate Ends(inc: I.Incoming, n: nat, m: nat, limitFields: nat, limitSize: nat) {
    || limitFields > 0
    || Enough(Behind(inc, n, m), limitFields, limitSize)
    || forall k | k >= m :: I.EventBytes(inc(k)) == []
  }

  lemma {:induction false} Silence(inc: I.Incoming, m: nat, k: nat)
    requires m <= k && forall k | k >= m :: I.EventBytes(inc(k)) == []
    ensures I.Stream(inc, k) == I.Stream(inc, m)
    decreases k
  {
    if m < k { Silence(inc, m, k - 1); }
  }

  ghost function Bound(inc: I.Incoming, n: nat, m: nat, limitFields: nat, limitSize: nat): nat {
    if limitFields > 0 then Limit(limitFields, limitSize) else |Behind(inc, n, m)|
  }

  /** An unfinished header is no longer than what bounds it. */
  lemma {:induction false} HeaderBounded(inc: I.Incoming, n: nat, step: nat, m: nat, limitFields: nat, limitSize: nat)
    requires Ends(inc, n, m, limitFields, limitSize)
    ensures Bounded(HeaderJob(inc, n, step, limitFields, limitSize), Bound(inc, n, m, limitFields, limitSize))
  {
    var j := HeaderJob(inc, n, step, limitFields, limitSize);
    RestGrows(j, n);
    forall s, k: nat | !j.enough(s) && s <= j.got(k) ensures |s| <= Bound(inc, n, m, limitFields, limitSize) {
      if limitFields > 0 {
        LimitsHold(s, limitFields, limitSize);
      } else if k <= m {
        assert j.got(k) <= j.got(m);
      } else if j.enough(j.got(m)) {
        NotEnoughYet(s, j.got(m), j.got(k), limitFields, limitSize);
      } else {
        Silence(inc, m, k);
      }
    }
  }

  lemma {:induction false} NotEnoughYet(s: seq<byte>, t: seq<byte>, all: seq<byte>, limitFields: nat, limitSize: nat)
    requires s <= all && t <= all && !Enough(s, limitFields, limitSize) && Enough(t, limitFields, limitSize)
    ensures |s| <= |t|
  {
    if |s| > |t| {
      EnoughMore(t, s, limitFields, limitSize);
    }
  }

  /** The lines the parser sees are those of the text, and a failure behind them if
      that is not a whole header. */
  ghost predicate SeesLines(text: seq<byte>, n: nat, timedOut: bool, calls: seq<H.Read>) {
    calls == HeaderReads(text, n) + if Wants(text, n) then [H.Failed(timedOut)] else []
  }

  lemma {:induction false} SeesBrigades(events: seq<Event>, n: nat)
    requires CleanEvents(events)
    ensures SeesLines(AllText(events), n, false, HeaderCalls(events, n))
  {
    if Wants(AllText(events), n) {
      CallsRunOut(events, n);
    } else {
      CallsByBytes(events, n);
      NoneBehind(HeaderReads(AllText(events), n));
    }
  }

  lemma {:induction false} NoneBehind(calls: seq<H.Read>)
    ensures calls + [] == calls
  {}

  lemma {:induction false} SeesFailure(events: seq<Event>, e: Event, n: nat)
    requires CleanEvents(events) && Wants(AllText(events), n) && Stops(e)
    ensures SeesLines(AllText(events), n, StopCode(e) == TIMEUP, HeaderCalls(events + [e], n))
  {
    CallsStop(events, e, n);
  }

  /** What the parser sees of what was fetched. */
  lemma {:induction false} SeenLines(j: Job, text: seq<byte>, events: seq<Event>, step: nat, n: nat)
    requires Fetched(j, text, events, step) && forall s :: !j.enough(s) ==> Wants(s, n)
    ensures SeesLines(text, n, !j.enough(text) && TimedOut(j, step), HeaderCalls(events, n))
  {
    if j.enough(text) {
      SeesBrigades(events, n);
    } else {
      var k := |events| - 1;
      assert events == events[..k] + [events[k]];
      SeesFailure(events[..k], events[k], n);
    }
  }

  /** The answer to a header, and the table if it is accepted. */
  ghost predicate Answers(calls: seq<H.Read>, limitFields: nat, limitSize: nat, status: H.Status, table: seq<P.Entry>)
    reads set i | 0 <= i < |table| :: table[i].buffer
  {
    && status == H.Verdict(T.Split, calls, limitFields, limitSize)
    && (status.Accepted? ==>
          var fields := H.Unfold(H.Header(calls));
          H.Splits(T.Split, fields) && P.Stored(table, H.Pairs(T.Split, fields)))
  }

  /** Lines of a text give the answer to a whole header of the same stream. */
  lemma {:induction false} WholeHeader(text: seq<byte>, whole: seq<byte>, all: seq<byte>, timedOut: bool,
                                       calls: seq<H.Read>, limitFields: nat, limitSize: nat)
    requires text <= all && whole <= all && Settled(whole, limitSize + 2) && Enough(text, limitFields, limitSize)
    requires SeesLines(text, limitSize + 2, timedOut, calls)
    ensures
      var whole' := HeaderReads(whole, limitSize + 2);
      || calls == whole'
      || H.Verdict(T.Split, calls, limitFields, limitSize) == H.BadRequest
         == H.Verdict(T.Split, whole', limitFields, limitSize)
  {
    var n := limitSize + 2;
    WholeReads(text, whole, all, n);
    if Wants(text, n) {
      RefusedVerdict(text, HeaderReads(whole, n), limitFields, limitSize);
      RefusedVerdict(text, calls, limitFields, limitSize);
    } else {
      NoneBehind(HeaderReads(text, n));
    }
  }

  /** An accepted header was read to its end. */
  lemma {:induction false} AcceptedWhole(text: seq<byte>, timedOut: bool, calls: seq<H.Read>, limitFields: nat,
                                         limitSize: nat)
    requires SeesLines(text, limitSize + 2, timedOut, calls)
    requires H.Verdict(T.Split, calls, limitFields, limitSize).Accepted?
    ensures !Wants(text, limitSize + 2) && H.Complete(HeaderReads(text, limitSize + 2))
  {
    var n := limitSize + 2;
    if Wants(text, n) {
      ReadsOpen(text, n);
      HeaderPrefix(HeaderReads(text, n), calls);
    } else {
      NoneBehind(HeaderReads(text, n));
    }
  }

  /** And no further: brigades end at line feeds. */
  lemma {:induction false} FetchedExactly(j: Job, text: seq<byte>, events: seq<Event>, step: nat, n: nat)
    requires Fetched(j, text, events, step) && j.enough(text) && forall s :: !j.enough(s) ==> Wants(s, n)
    ensures NotBeyond(text, n)
  {
    if events == [] {
      assert text == [];
    } else {
      var k := |events| - 1;
      assert CleanEvent(events[k]);
      FlattenExtend(EventText, events, k);
      assert events[..k + 1] == events;
      NotBeyondMore(AllText(events[..k]), EventText(events[k]), n);
    }
  }

  /** What the parser sees of a header is what it sees of the header's bytes. */
  lemma {:induction false} FetchedWhole(j: Job, text: seq<byte>, step: nat, k: nat, calls: seq<H.Read>, timedOut: bool,
                                        status: H.Status, table: seq<P.Entry>, limitFields: nat, limitSize: nat)
    requires Growing(j) && text <= j.got(step) && Enough(text, limitFields, limitSize)
    requires Settled(j.got(k), limitSize + 2)
    requires SeesLines(text, limitSize + 2, timedOut, calls) && Answers(calls, limitFields, limitSize, status, table)
    ensures Answers(HeaderReads(j.got(k), limitSize + 2), limitFields, limitSize, status, table)
  {
    var late := if k < step then step else k;
    WholeHeader(text, j.got(k), j.got(late), timedOut, calls, limitFields, limitSize);
  }

  /** Fetch the brigades of a header, whatever was read from the connection before. */
  method FetchHeader(f: I.Filter, limitFields: nat, limitSize: nat, ghost m: nat)
    returns (events: seq<Event>, ghost j: Job, ghost text: seq<byte>)
    requires f.Valid() && Ends(f.inc, |f.taken|, m, limitFields, limitSize)
    modifies f
    ensures f.Valid() && j == HeaderJob(f.inc, |old(f.taken)|, old(f.step), limitFields, limitSize)
    ensures Fetched(j, text, events, f.step)
    ensures if j.enough(text) then f.taken == old(f.taken) + text else old(f.taken) + text <= f.taken
  {
    j := HeaderJob(f.inc, |f.taken|, f.step, limitFields, limitSize);
    HeaderLinewise(f.inc, |f.taken|, f.step, limitFields, limitSize);
    HeaderBounded(f.inc, |f.taken|, f.step, m, limitFields, limitSize);
    events, text := Fetch(f, EnoughFor(limitFields, limitSize), j, Bound(f.inc, |f.taken|, m, limitFields, limitSize));
  }

  /** The header of a request, from the socket to the table, whatever was read from
      the connection before. If it arrives whole, it is judged by its bytes, however
      they were cut; if it is accepted, nothing beyond its empty line is taken. */
  method ReadHeader(f: I.Filter, limitFields: nat, limitSize: nat, ghost m: nat)
    returns (status: H.Status, table: seq<P.Entry>, ghost j: Job, ghost text: seq<byte>, ghost calls: seq<H.Read>)
    requires f.Valid() && Ends(f.inc, |f.taken|, m, limitFields, limitSize)
    modifies f
    ensures f.Valid() && j == HeaderJob(f.inc, |old(f.taken)|, old(f.step), limitFields, limitSize)
    ensures text <= j.got(f.step) && SeesLines(text, limitSize + 2, !j.enough(text) && TimedOut(j, f.step), calls)
    ensures Answers(calls, limitFields, limitSize, status, table)
    ensures forall k | Arrived(j, k) ::
      Answers(HeaderReads(j.got(k), limitSize + 2), limitFields, limitSize, status, table)
    ensures old(f.taken) + text <= f.taken && (!j.enough(text) ==> Dry(j, f.step))
    ensures status.Accepted? ==> f.taken == old(f.taken) + text && Exactly(text, limitSize + 2)
  {
    var events;
    events, j, text := FetchHeader(f, limitFields, limitSize, m);
    var src := new B.Source(events);
    var seen := ReadCalls(src, limitSize + 2);
    calls := seen;
    status, table := P.GetMimeHeaders(seen, limitFields, limitSize);
    ghost var timedOut := !j.enough(text) && TimedOut(j, f.step);
    SeenLines(j, text, events, f.step, limitSize + 2);
    RestGrows(j, |old(f.taken)|);
    forall k | Arrived(j, k)
      ensures Answers(HeaderReads(j.got(k), limitSize + 2), limitFields, limitSize, status, table)
    {
      assert j.enough(text);
      FetchedWhole(j, text, f.step, k, calls, timedOut, status, table, limitFields, limitSize);
    }
    if status.Accepted? {
      AcceptedWhole(text, timedOut, calls, limitFields, limitSize);
      FetchedExactly(j, text, events, f.step, limitSize + 2);
    }
  }
}
