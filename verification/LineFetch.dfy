/** Asking ap_core_input_filter for lines until a reader has enough. */
module LineFetch {
  import opened Flattening
  import opened Buckets
  import opened LineReader
  import I = InputFilter

  const TIMEUP: int := 70007

  function PieceOf(b: Bucket): Piece {
    Text(Data(b))
  }

  /** A reply of ap_core_input_filter as the line reader sees it. */
  function EventOf(status: I.Status, out: seq<Bucket>): Event {
    match status
    case Success => Brigade(seq(|out|, i requires 0 <= i < |out| => PieceOf(out[i])))
    case EndOfFile => Error(EOF)
    case Fails(why) => Error(if why.Broken? then why.code else EGENERAL)
  }

  /** A reply of the filters that ends the reading of lines. */
  predicate Stops(e: Event) {
    e.Error? || e.pieces == []
  }

  function StopCode(e: Event): int
    requires Stops(e)
  {
    if e.Error? then e.code else EGENERAL
  }

  /** One reply more, behind those that were enough or were not. */
  lemma {:induction false} GatherSnoc(events: seq<Event>, e: Event, acc: seq<byte>, n: nat)
    requires CleanEvents(events) && Stops(e)
    ensures
      var r := Gather(events, acc, false, n);
      match r
      case Line(text, eos, rest) => !eos ==> Gather(events + [e], acc, false, n) == Line(text, false, rest + [e])
      case NoSpace(_) => Gather(events + [e], acc, false, n) == r
      case Failed(code) => Gather(events + [e], acc, false, n) == Failed(StopCode(e))
    decreases |events|
  {
    if events == [] {
      assert [] + [e] == [e];
    } else {
      assert CleanEvent(events[0]);
      assert (events + [e])[1..] == events[1..] + [e];
      FillClean(events[0].pieces, acc, n);
      var r := Fill(events[0].pieces, acc, n);
      if r.Fits? && !EndsInLF(r.acc) {
        GatherSnoc(events[1..], e, r.acc, n);
      }
    }
  }

  lemma {:induction false} FillClean(pieces: seq<Piece>, acc: seq<byte>, n: nat)
    requires forall i | 0 <= i < |pieces| :: pieces[i].Text?
    ensures Fill(pieces, acc, n).Fits? ==> !Fill(pieces, acc, n).sawEos
    decreases |pieces|
  {
    if pieces != [] {
      FillClean(pieces[1..], acc + pieces[0].data, n);
    }
  }

  lemma {:induction false} EventBytes(out: seq<Bucket>)
    ensures EventText(EventOf(I.Success, out)) == Content(out)
    decreases |out|
  {
    var e := EventOf(I.Success, out);
    if out != [] {
      EventBytes(out[1..]);
      assert e.pieces[1..] == EventOf(I.Success, out[1..]).pieces;
    }
  }

  lemma {:induction false} CleanMore(events: seq<Event>, out: seq<Bucket>)
    requires CleanEvents(events) && Content(out) != [] && I.LineShape(Content(out))
    ensures
      var e := EventOf(I.Success, out);
      CleanEvents(events + [e]) && AllText(events + [e]) == AllText(events) + Content(out) && !Stops(e)
  {
    var e := EventOf(I.Success, out);
    EventBytes(out);
    FlattenAppend(EventText, events, e);
    assert CleanEvent(e);
  }

  lemma {:induction false} StreamGrows(inc: I.Incoming, j: nat, k: nat)
    requires j <= k
    ensures I.Stream(inc, j) <= I.Stream(inc, k)
    decreases k
  {
    if j < k { StreamGrows(inc, j, k - 1); }
  }

  /** What the first k reads gave beyond the first n bytes. */
  function Behind(inc: I.Incoming, n: nat, k: nat): seq<byte> {
    var all := I.Stream(inc, k);
    if n <= |all| then all[n..] else []
  }

  function Rest(inc: I.Incoming, n: nat): nat -> seq<byte> {
    (k: nat) => Behind(inc, n, k)
  }

  /** Lines to be read: from which socket, what any number of reads has got for
      them, how many reads came before, which bytes are enough for the reader, and
      which are all it needs. */
  datatype Job = Job(inc: I.Incoming, got: nat -> seq<byte>, step: nat,
                     enough: seq<byte> -> bool, whole: seq<byte> -> bool)

  ghost predicate Growing(j: Job) {
    forall k: nat, m: nat | k <= m :: j.got(k) <= j.got(m)
  }

  lemma {:induction false} RestGrows(j: Job, n: nat)
    requires j.got == Rest(j.inc, n)
    ensures Growing(j)
  {
    forall k: nat, m: nat | k <= m ensures j.got(k) <= j.got(m) {
      StreamGrows(j.inc, k, m);
    }
  }

  /** What is not enough is not made whole by bytes without a line feed. */
  ghost predicate Linewise(j: Job) {
    forall s, x, t | !j.enough(s) && LF !in x && t <= s + x :: !j.whole(t)
  }

  /** What is got and not enough is no longer than this. */
  ghost predicate Bounded(j: Job, bound: nat) {
    forall s, k | !j.enough(s) && s <= j.got(k) :: |s| <= bound
  }

  /** All the reader needs was among what the first k reads gave: it had been read
      ahead, or every read since then gave more of a stream that had not ended. */
  ghost predicate Arrived(j: Job, k: nat) {
    j.whole(j.got(k)) && (k <= j.step || (!I.Ended(j.inc, j.step) && I.FedFrom(j.inc, j.step, k)))
  }

  /** A read for these lines gave nothing, or the stream has ended. */
  predicate Dry(j: Job, step: nat) {
    I.Ended(j.inc, step) || !I.FedFrom(j.inc, j.step, step)
  }

  /** The last read ran into the timeout. */
  predicate TimedOut(j: Job, step: nat) {
    j.step < step && j.inc(step - 1) == I.Broken(TIMEUP)
  }

  /** What the filters gave so far spells text, and it took all of it. */
  ghost predicate Spells(j: Job, text: seq<byte>, events: seq<Event>, step: nat) {
    && text <= j.got(step) && CleanEvents(events) && AllText(events) == text
    && (events != [] ==> !j.enough(AllText(events[..|events| - 1])))
  }

  /** The filters gave up after text: there was no line feed behind it, and a read
      gave nothing, or the stream has ended. */
  ghost predicate Failing(j: Job, text: seq<byte>, e: Event, step: nat) {
    && Stops(e) && (StopCode(e) == TIMEUP <==> TimedOut(j, step))
    && text <= j.got(step) && LF !in j.got(step)[|text|..] && Dry(j, step)
    && (e.Brigade? ==> j.got(step) == text)
    && forall k :: !Arrived(j, k)
  }

  /** What the filters gave: brigades, and a failure behind them if they gave up
      before it was enough. */
  ghost predicate Fetched(j: Job, text: seq<byte>, events: seq<Event>, step: nat) {
    if j.enough(text) then Spells(j, text, events, step)
    else
      var n := |events| - 1;
      n >= 0 && Spells(j, text, events[..n], step) && Failing(j, text, events[n], step)
  }

  /** A read that gives nothing leaves the reader short only if all that came
      before it does. */
  lemma {:induction false} NeverArrived(j: Job, k: nat, text: seq<byte>, lost: seq<byte>, step: nat)
    requires Growing(j) && Linewise(j) && !j.enough(text) && LF !in lost
    requires text + lost == j.got(step) && j.step <= step && Dry(j, step)
    ensures !Arrived(j, k)
  {
    assert k <= step ==> j.got(k) <= text + lost;
  }

  /** Nothing arrives after a read that gave nothing. */
  lemma {:induction false} DryArrived(j: Job, k: nat, step: nat)
    requires Arrived(j, k) && j.step <= step && Dry(j, step)
    ensures k <= step
  {}

  lemma {:induction false} GivenUp(j: Job, text: seq<byte>, events: seq<Event>, step0: nat, step: nat,
                                   lost: seq<byte>, e: Event)
    requires Growing(j) && Linewise(j) && Spells(j, text, events, step0) && step0 <= step && !j.enough(text)
    requires LF !in lost && text + lost == j.got(step) && j.step <= step && Dry(j, step)
    requires Stops(e) && (StopCode(e) == TIMEUP <==> TimedOut(j, step)) && (e.Brigade? ==> lost == [])
    ensures Fetched(j, text, events + [e], step)
  {
    forall k ensures !Arrived(j, k) {
      NeverArrived(j, k, text, lost, step);
    }
    assert (events + [e])[..|events|] == events;
    assert (text + lost)[|text|..] == lost;
  }

  /** The bytes, as they are taken off the filter. */
  ghost predicate Taken(j: Job, before: seq<byte>, text: seq<byte>, f: I.Filter)
    reads f
  {
    && f.Valid() && f.inc == j.inc && j.got == Rest(j.inc, |before|) && j.step <= f.step
    && f.taken == before + text
  }

  lemma {:induction false} TakenFrom(j: Job, before: seq<byte>, text: seq<byte>, f: I.Filter)
    requires Taken(j, before, text, f)
    ensures text <= j.got(f.step) && (I.Ahead(f.b) == [] ==> text == j.got(f.step))
  {
    var ahead := I.Ahead(f.b);
    Assoc(before, text, ahead);
    assert (before + (text + ahead))[|before|..] == text + ahead;
    assert text + [] == text;
  }

  /** Ask the filter for one more line. */
  method FetchOne(f: I.Filter, ghost j: Job, ghost before: seq<byte>, ghost text: seq<byte>, events0: seq<Event>)
    returns (more: seq<byte>, events: seq<Event>, going: bool)
    requires Growing(j) && Linewise(j) && Taken(j, before, text, f)
    requires Spells(j, text, events0, f.step) && !j.enough(text) && f.Quiet(j.step, f.step)
    modifies f
    ensures Taken(j, before, text + more, f)
    ensures if going then more != [] && Spells(j, text + more, events, f.step) && f.Quiet(j.step, f.step)
            else Fetched(j, text, events, f.step)
  {
    ghost var step0 := f.step;
    var status, out := f.GetLine();
    more := Content(out);
    var e := EventOf(status, out);
    events := events0 + [e];
    going := status.Success? && out != [];
    Assoc(before, text, more);
    TakenFrom(j, before, text + more, f);
    if going {
      CleanMore(events0, out);
      assert events[..|events| - 1] == events0;
    } else {
      GivenUp(j, text, events0, step0, f.step, more, e);
    }
  }

  /** Ask the filter for lines as long as the reader does. */
  method Fetch(f: I.Filter, enough: seq<byte> -> bool, ghost j: Job, ghost bound: nat)
    returns (events: seq<Event>, text: seq<byte>)
    requires f.Valid() && j.inc == f.inc && j.got == Rest(f.inc, |f.taken|) && j.step == f.step && j.enough == enough
    requires Linewise(j) && Bounded(j, bound)
    modifies f
    ensures f.Valid() && f.step >= j.step && Fetched(j, text, events, f.step)
    ensures if j.enough(text) then f.taken == old(f.taken) + text else old(f.taken) + text <= f.taken
  {
    ghost var before := f.taken;
    var going := true;
    events, text := [], [];
    assert before + [] == before;
    RestGrows(j, |before|);
    TakenFrom(j, before, [], f);
    while going && !enough(text)
      invariant f.Valid() && f.step >= j.step
      invariant going ==> Taken(j, before, text, f) && Spells(j, text, events, f.step) && f.Quiet(j.step, f.step)
      invariant !going ==> !j.enough(text) && Fetched(j, text, events, f.step) && before + text <= f.taken
      decreases going, bound - |text|
    {
      var more;
      more, events, going := FetchOne(f, j, before, text, events);
      Assoc(before, text, more);
      if going {
        text := text + more;
      }
    }
  }
}
