/** Header fields of a request: joining folded lines (RFC 2616, section 2.2) and
    the limits on them, for any way of splitting a field. */
module HeaderSpec {
  import opened Flattening
  import opened Basics
  import opened Buckets
  import opened HeaderText

  type Splitter = Text -> Option<Pair>

  /** A header field: its lines joined, and whether there were several. */
  datatype Field = Field(text: Text, folded: bool)

  predicate Continues(line: Text) {
    line != [] && IsBlank(line[0])
  }

  /** How many lines at the front continue the line before them. */
  function Run(lines: seq<Text>): (n: nat)
    ensures n <= |lines|
  {
    if lines != [] && Continues(lines[0]) then 1 + Run(lines[1..]) else 0
  }

  function Identity(line: Text): Text {
    line
  }

  /** The fields of a header: a line and the lines that continue it, joined. A
      first line is never a continuation. */
  function Unfold(lines: seq<Text>): seq<Field> {
    if lines == [] then []
    else
      var n := Run(lines[1..]);
      [Field(Flatten(Identity, lines[..n + 1]), n > 0)] + Unfold(lines[n + 1..])
  }

  function TextOf(field: Field): Text {
    field.text
  }

  /** Unfolding neither loses nor adds a byte. */
  lemma {:induction false} UnfoldConserves(lines: seq<Text>)
    ensures Flatten(TextOf, Unfold(lines)) == Flatten(Identity, lines)
    decreases |lines|
  {
    if lines != [] {
      var n := Run(lines[1..]);
      var first := Field(Flatten(Identity, lines[..n + 1]), n > 0);
      UnfoldConserves(lines[n + 1..]);
      FlattenSplit(Identity, lines, n + 1);
      assert ([first] + Unfold(lines[n + 1..]))[1..] == Unfold(lines[n + 1..]);
    }
  }

  /** One more line after the fields so far. */
  function Extend(fields: seq<Field>, line: Text): seq<Field> {
    if fields != [] && Continues(line)
    then fields[..|fields| - 1] + [Field(fields[|fields| - 1].text + line, true)]
    else fields + [Field(line, false)]
  }

  lemma {:induction false} RunSnoc(lines: seq<Text>, line: Text)
    ensures Run(lines + [line]) ==
      if Run(lines) == |lines| && Continues(line) then |lines| + 1 else Run(lines)
  {
    if lines == [] {
      assert lines + [line] == [line];
    } else {
      assert (lines + [line])[1..] == lines[1..] + [line];
      RunSnoc(lines[1..], line);
    }
  }

  lemma {:induction false} ExtendLater(field: Field, rest: seq<Field>, line: Text)
    requires rest != [] || !Continues(line)
    ensures Extend([field] + rest, line) == [field] + Extend(rest, line)
  {
    var fields := [field] + rest;
    if rest != [] && Continues(line) {
      assert fields[..|fields| - 1] == [field] + rest[..|rest| - 1];
    }
  }

  /** The whole input is one field. */
  lemma {:induction false} UnfoldOne(lines: seq<Text>)
    requires lines != [] && Run(lines[1..]) == |lines| - 1
    ensures Unfold(lines) == [Field(Flatten(Identity, lines), |lines| > 1)]
  {
    assert lines[..|lines|] == lines && lines[|lines|..] == [];
  }

  /** The first field is complete before the last line. */
  lemma {:induction false} UnfoldFirst(lines: seq<Text>, line: Text, n: nat)
    requires lines != [] && n == Run(lines[1..]) && (n + 1 == |lines| ==> !Continues(line))
    ensures
      var f, rest := Field(Flatten(Identity, lines[..n + 1]), n > 0), lines[n + 1..];
      Unfold(lines) == [f] + Unfold(rest) && Unfold(lines + [line]) == [f] + Unfold(rest + [line])
  {
    var all := lines + [line];
    assert all[1..] == lines[1..] + [line];
    RunSnoc(lines[1..], line);
    assert all[..n + 1] == lines[..n + 1] && all[n + 1..] == lines[n + 1..] + [line];
  }

  /** Reading one more line extends the fields read so far. */
  lemma {:induction false} UnfoldSnoc(lines: seq<Text>, line: Text)
    ensures Unfold(lines + [line]) == Extend(Unfold(lines), line)
    decreases |lines|
  {
    if lines == [] {
      assert [] + [line] == [line];
      UnfoldOne([line]);
      FlattenOne(Identity, line);
    } else {
      var n := Run(lines[1..]);
      if n + 1 == |lines| && Continues(line) {
        UnfoldAll(lines, line);
      } else {
        UnfoldFirst(lines, line, n);
        UnfoldSnoc(lines[n + 1..], line);
        ExtendLater(Field(Flatten(Identity, lines[..n + 1]), n > 0), Unfold(lines[n + 1..]), line);
      }
    }
  }

  /** All lines so far are one field, and the last line continues it. */
  lemma {:induction false} UnfoldAll(lines: seq<Text>, line: Text)
    requires lines != [] && Run(lines[1..]) == |lines| - 1 && Continues(line)
    ensures Unfold(lines + [line]) == Extend(Unfold(lines), line)
  {
    var all := lines + [line];
    assert all[1..] == lines[1..] + [line];
    RunSnoc(lines[1..], line);
    UnfoldOne(lines);
    UnfoldOne(all);
    FlattenAppend(Identity, lines, line);
  }

  /** A line continues the one before it exactly if it starts with a space or a tab. */
  lemma {:induction false} FoldsIff(a: Text, b: Text)
    ensures Unfold([a, b]) ==
      if b != [] && (b[0] == 32 || b[0] == 9) then [Field(a + b, true)] else [Field(a, false), Field(b, false)]
  {
    UnfoldOne([a]);
    FlattenOne(Identity, a);
    UnfoldSnoc([a], b);
    assert [a, b] == [a] + [b];
  }

  /** One call to the line reader: a line, or a failure. */
  datatype Read = Line(text: Text) | Failed(timeUp: bool)

  datatype Status = Accepted | BadRequest | RequestTimeOut

  /** Where reading stops: at the empty line or at a failure. */
  function End(calls: seq<Read>): (k: nat)
    ensures k <= |calls|
    ensures forall i | 0 <= i < k :: calls[i].Line? && calls[i].text != []
    ensures k < |calls| ==> calls[k].Failed? || calls[k].text == []
  {
    if calls == [] || calls[0].Failed? || calls[0].text == [] then 0 else 1 + End(calls[1..])
  }

  function Header(calls: seq<Read>): (lines: seq<Text>)
    ensures |lines| == End(calls) && forall i | 0 <= i < |lines| :: lines[i] == calls[i].text
  {
    seq(End(calls), i requires 0 <= i < End(calls) => calls[i].text)
  }

  predicate Fits(field: Field, limitSize: nat) {
    field.folded ==> |field.text| + 1 < limitSize
  }

  /** The limits and the form of the first n fields, and the size of all. */
  predicate Passes(split: Splitter, fields: seq<Field>, n: nat, limitFields: nat, limitSize: nat) {
    && n <= |fields|
    && (limitFields == 0 || n <= limitFields)
    && Splits(split, fields[..n])
    && (forall i | 0 <= i < |fields| :: Fits(fields[i], limitSize))
  }

  predicate Complete(calls: seq<Read>) {
    End(calls) < |calls| && calls[End(calls)].Line?
  }

  /** A field is complete when a line that does not continue it has been read. */
  function Completed(calls: seq<Read>): (n: nat)
    ensures n <= |Unfold(Header(calls))| <= n + 1
  {
    var all := |Unfold(Header(calls))|;
    if Complete(calls) || all == 0 then all else all - 1
  }

  /** What a header is answered with. */
  function Verdict(split: Splitter, calls: seq<Read>, limitFields: nat, limitSize: nat): Status {
    var k := End(calls);
    if !Passes(split, Unfold(Header(calls)), Completed(calls), limitFields, limitSize) then BadRequest
    else if Complete(calls) then Accepted
    else if k < |calls| && calls[k] == Failed(true) then RequestTimeOut
    else BadRequest
  }

  predicate Splits(split: Splitter, fields: seq<Field>) {
    forall i | 0 <= i < |fields| :: split(fields[i].text).Some?
  }

  function Pairs(split: Splitter, fields: seq<Field>): (r: seq<Pair>)
    requires Splits(split, fields)
    ensures |r| == |fields|
  {
    if fields == [] then []
    else Pairs(split, fields[..|fields| - 1]) + [split(fields[|fields| - 1].text).value]
  }

  /** A line more can only make things worse. */
  lemma {:induction false} PassesBefore(split: Splitter, fields: seq<Field>, line: Text, n: nat,
          limitFields: nat, limitSize: nat)
    requires n < |fields| && Passes(split, Extend(fields, line), n, limitFields, limitSize)
    ensures Passes(split, fields, n, limitFields, limitSize)
  {
    var last := |fields| - 1;
    var after := Extend(fields, line);
    assert Fits(after[last], limitSize);
    forall i | 0 <= i < |fields| ensures Fits(fields[i], limitSize) {
      if i < last {
        assert after[i] == fields[i];
      }
    }
    assert after[..n] == fields[..n];
  }

  lemma {:induction false} UnfoldNext(lines: seq<Text>, i: nat)
    requires i < |lines|
    ensures Unfold(lines[..i + 1]) == Extend(Unfold(lines[..i]), lines[i])
  {
    assert lines[..i + 1] == lines[..i] + [lines[i]];
    UnfoldSnoc(lines[..i], lines[i]);
  }

  /** If the whole header passes, so did every part of it. */
  lemma {:induction false} PassedBefore(split: Splitter, lines: seq<Text>, i: nat, n: nat, m: nat,
          limitFields: nat, limitSize: nat)
    requires i <= |lines| && Passes(split, Unfold(lines), m, limitFields, limitSize)
    requires n <= m && n < |Unfold(lines[..i])|
    ensures Passes(split, Unfold(lines[..i]), n, limitFields, limitSize)
    decreases |lines| - i
  {
    if i == |lines| {
      assert lines[..i] == lines;
    } else {
      UnfoldNext(lines, i);
      PassedBefore(split, lines, i + 1, n, m, limitFields, limitSize);
      PassesBefore(split, Unfold(lines[..i]), lines[i], n, limitFields, limitSize);
    }
  }

  lemma {:induction false} UnfoldGrows(lines: seq<Text>, i: nat)
    requires i <= |lines|
    ensures |Unfold(lines[..i])| <= |Unfold(lines)|
    decreases |lines| - i
  {
    if i == |lines| {
      assert lines[..i] == lines;
    } else {
      UnfoldNext(lines, i);
      UnfoldGrows(lines, i + 1);
    }
  }

  /** What cannot pass in the middle cannot pass at the end. */
  lemma {:induction false} Rejected(split: Splitter, calls: seq<Read>, i: nat, n: nat, limitFields: nat, limitSize: nat)
    requires i <= End(calls) && n < |Unfold(Header(calls)[..i])|
    requires !Passes(split, Unfold(Header(calls)[..i]), n, limitFields, limitSize)
    ensures Verdict(split, calls, limitFields, limitSize) == BadRequest
  {
    var lines := Header(calls);
    UnfoldGrows(lines, i);
    if Passes(split, Unfold(lines), Completed(calls), limitFields, limitSize) {
      PassedBefore(split, lines, i, n, Completed(calls), limitFields, limitSize);
      assert false;
    }
  }

  lemma {:induction false} PassesFolded(split: Splitter, fields: seq<Field>, line: Text, n: nat,
          limitFields: nat, limitSize: nat)
    requires |fields| == n + 1 && Passes(split, fields, n, limitFields, limitSize) && Continues(line)
    ensures Passes(split, Extend(fields, line), n, limitFields, limitSize) <==>
      |fields[n].text| + |line| + 1 < limitSize
  {
    var after := Extend(fields, line);
    assert after[..n] == fields[..n];
    assert !Fits(after[n], limitSize) <==> |fields[n].text| + |line| + 1 >= limitSize;
    forall i | 0 <= i < n ensures Fits(after[i], limitSize) {
      assert after[i] == fields[i];
    }
  }

  lemma {:induction false} SplitsMore(split: Splitter, fields: seq<Field>, n: nat)
    requires n < |fields| && Splits(split, fields[..n])
    ensures Splits(split, fields[..n + 1]) <==> split(fields[n].text).Some?
  {
    var more := fields[..n + 1];
    assert more[n] == fields[n];
    forall i | 0 <= i < n ensures split(more[i].text).Some? {
      assert more[i] == fields[..n][i];
    }
  }

  /** One field more is complete. */
  lemma {:induction false} PassesComplete(split: Splitter, fields: seq<Field>, n: nat, limitFields: nat, limitSize: nat)
    requires |fields| == n + 1 && Passes(split, fields, n, limitFields, limitSize)
    ensures Passes(split, fields, n + 1, limitFields, limitSize) <==>
      (limitFields == 0 || n < limitFields) && split(fields[n].text).Some?
  {
    SplitsMore(split, fields, n);
  }

  lemma {:induction false} PassesNew(split: Splitter, fields: seq<Field>, line: Text, limitFields: nat, limitSize: nat)
    requires !Continues(line)
    ensures Passes(split, Extend(fields, line), |fields|, limitFields, limitSize) <==>
      Passes(split, fields, |fields|, limitFields, limitSize)
  {
    var n := |fields|;
    var after := Extend(fields, line);
    assert after[..n] == fields[..n] && Fits(after[n], limitSize);
    if Passes(split, after, n, limitFields, limitSize) {
      forall i | 0 <= i < n ensures Fits(fields[i], limitSize) {
        assert after[i] == fields[i];
      }
    }
  }

  /** Where the parser is after i lines: the fields so far, all but the last
      complete and split. */
  ghost predicate Progress(split: Splitter, calls: seq<Read>, i: nat, fields: seq<Field>, pairs: seq<Pair>,
          limitFields: nat, limitSize: nat) {
    && i <= End(calls) && fields == Unfold(Header(calls)[..i])
    && |fields| == |pairs| + (if i == 0 then 0 else 1)
    && Passes(split, fields, |pairs|, limitFields, limitSize)
    && pairs == Pairs(split, fields[..|pairs|])
  }

  lemma {:induction false} Start(split: Splitter, calls: seq<Read>, limitFields: nat, limitSize: nat)
    ensures Progress(split, calls, 0, [], [], limitFields, limitSize)
  {
  }

  lemma {:induction false} First(split: Splitter, calls: seq<Read>, limitFields: nat, limitSize: nat)
    requires calls != [] && calls[0].Line?
    ensures calls[0].text == [] ==>
      Verdict(split, calls, limitFields, limitSize) == Accepted && Unfold(Header(calls)) == []
    ensures calls[0].text != [] ==> Progress(split, calls, 1, [Field(calls[0].text, false)], [], limitFields, limitSize)
  {
    if calls[0].text != [] {
      assert Header(calls)[..1] == [calls[0].text];
      assert Header(calls)[..0] == [];
      UnfoldNext(Header(calls), 0);
    }
  }

  lemma {:induction false} ReadFailed(split: Splitter, calls: seq<Read>, i: nat, fields: seq<Field>, pairs: seq<Pair>,
          limitFields: nat, limitSize: nat)
    requires Progress(split, calls, i, fields, pairs, limitFields, limitSize)
    requires i < |calls| ==> calls[i].Failed?
    ensures Verdict(split, calls, limitFields, limitSize) ==
      if i < |calls| && calls[i].timeUp then RequestTimeOut else BadRequest
  {
    assert Header(calls)[..i] == Header(calls);
  }

  lemma {:induction false} Continued(split: Splitter, calls: seq<Read>, i: nat, fields: seq<Field>, pairs: seq<Pair>,
          limitFields: nat, limitSize: nat)
    requires Progress(split, calls, i, fields, pairs, limitFields, limitSize) && 0 < i < |calls|
    requires calls[i].Line? && Continues(calls[i].text)
    ensures
      if |fields[|pairs|].text| + |calls[i].text| + 1 < limitSize
      then Progress(split, calls, i + 1, Extend(fields, calls[i].text), pairs, limitFields, limitSize)
      else Verdict(split, calls, limitFields, limitSize) == BadRequest
  {
    var n := |pairs|;
    UnfoldNext(Header(calls), i);
    PassesFolded(split, fields, calls[i].text, n, limitFields, limitSize);
    if |fields[n].text| + |calls[i].text| + 1 < limitSize {
      assert Extend(fields, calls[i].text)[..n] == fields[..n];
    } else {
      Rejected(split, calls, i + 1, n, limitFields, limitSize);
    }
  }

  lemma {:induction false} NextField(split: Splitter, calls: seq<Read>, i: nat, fields: seq<Field>, pairs: seq<Pair>,
          limitFields: nat, limitSize: nat)
    requires Progress(split, calls, i, fields, pairs, limitFields, limitSize) && 0 < i < |calls|
    requires calls[i].Line? && calls[i].text != [] && !Continues(calls[i].text)
    ensures
      if (limitFields == 0 || |pairs| < limitFields) && split(fields[|pairs|].text).Some?
      then Progress(split, calls, i + 1, Extend(fields, calls[i].text), pairs + [split(fields[|pairs|].text).value],
        limitFields, limitSize)
      else Verdict(split, calls, limitFields, limitSize) == BadRequest
  {
    var n := |pairs|;
    var line := calls[i].text;
    UnfoldNext(Header(calls), i);
    PassesComplete(split, fields, n, limitFields, limitSize);
    PassesNew(split, fields, line, limitFields, limitSize);
    if (limitFields == 0 || n < limitFields) && split(fields[n].text).Some? {
      assert Extend(fields, line)[..n + 1] == fields == fields[..n + 1];
    } else {
      Rejected(split, calls, i + 1, n + 1, limitFields, limitSize);
    }
  }

  lemma {:induction false} LastField(split: Splitter, calls: seq<Read>, i: nat, fields: seq<Field>, pairs: seq<Pair>,
          limitFields: nat, limitSize: nat)
    requires Progress(split, calls, i, fields, pairs, limitFields, limitSize) && 0 < i < |calls|
    requires calls[i] == Line([])
    ensures
      if (limitFields == 0 || |pairs| < limitFields) && split(fields[|pairs|].text).Some?
      then
        && Verdict(split, calls, limitFields, limitSize) == Accepted
        && Splits(split, Unfold(Header(calls)))
        && Pairs(split, Unfold(Header(calls))) == pairs + [split(fields[|pairs|].text).value]
      else Verdict(split, calls, limitFields, limitSize) == BadRequest
  {
    var n := |pairs|;
    assert Header(calls)[..i] == Header(calls);
    PassesComplete(split, fields, n, limitFields, limitSize);
    assert fields[..n + 1] == fields;
  }
}
