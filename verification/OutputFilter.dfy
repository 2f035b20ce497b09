/** ap_core_output_filter over the life of a connection: whatever the buckets,
    the short writes and the faults, bytes reach the wire in order, once each. */
module OutputFilter {
  import opened Flattening
  import opened Buckets
  import opened Senders
  import opened Gathering

  datatype Reply = Ok | ConnAborted

  /** What the wire, after `before`, shows of `all` when a call ends. */
  ghost predicate Delivered(sched: Schedule, from: nat, to: nat, before: seq<byte>, after: seq<byte>,
                            all: seq<byte>, kept: seq<byte>, status: Status)
  {
    && Outcomes(sched, from, to, status)
    && before <= after
    && (status.Success? ==> after[|before|..] + kept == all)
    && (status.Failed? ==> kept == [] && after[|before|..] <= all)
    && (to == from ==> after == before)
    && (to == from + 1 && sched(from).Fault? && sched(from).n == 0 ==> after == before)
    && (status.Failed? && sched(to - 1).n == 0 ==> |after| - |before| < |all|)
  }

  /** A call goes on: x went out whole, y is still to come. */
  lemma {:induction false} DeliveredMore(sched: Schedule, a: nat, b: nat, c: nat, w0: seq<byte>, w1: seq<byte>,
                                         w2: seq<byte>, all: seq<byte>, x: seq<byte>, y: seq<byte>)
    requires Delivered(sched, a, b, w0, w1, all, x + y, Success)
    requires Pushed(sched, b, c, w1, w2, x, Success, |x|)
    ensures Delivered(sched, a, c, w0, w2, all, y, Success)
  {
    var d := w1[|w0|..];
    CleanThen(sched, a, b, c, Success);
    assert x[..|x|] == x;
    assert w2[|w0|..] == d + x;
    Assoc(d, x, y);
  }

  /** A call breaks off: n bytes of x went out, the rest is lost. */
  lemma {:induction false} DeliveredFault(sched: Schedule, a: nat, b: nat, c: nat, w0: seq<byte>, w1: seq<byte>,
                                          w2: seq<byte>,
                       all: seq<byte>, x: seq<byte>, y: seq<byte>, status: Status, n: nat)
    requires Delivered(sched, a, b, w0, w1, all, x + y, Success)
    requires status.Failed? && Pushed(sched, b, c, w1, w2, x, status, n) && Short(sched, c, |x|, status, n)
    ensures Delivered(sched, a, c, w0, w2, all, [], status)
  {
    var d := w1[|w0|..];
    CleanThen(sched, a, b, c, status);
    assert w2[|w0|..] == d + x[..n];
    assert d + x[..n] <= d + (x + y);
  }

  lemma {:induction false} WorkPositive(bs: seq<Bucket>)
    requires bs != []
    ensures Work(bs) > 0
  {}

  /** Reading every bucket but the first file before a keep-alive brigade is set
      aside finds nothing left to read. */
  method Settle(bs: seq<Bucket>) returns (r: seq<Bucket>)
    requires Settled(bs)
    ensures r == bs
  {
    r := bs;
    var k, fileSaved := 0, false;
    ghost var at := 0;
    while k < |r|
      invariant 0 <= k <= |r| && r == bs
      invariant fileSaved ==> at < k && bs[at].File?
    {
      if r[k].File? && !fileSaved {
        fileSaved, at := true, k;
      } else {
        assert InMemory(r[k]);
        r := r[..k] + ReadBucket(r[k], Blocking).value + r[k + 1..];
      }
      k := k + 1;
    }
  }

  /** The brigade ends in FLUSH or EOC. */
  predicate Closing(b: seq<Bucket>) {
    b != [] && (b[|b| - 1].Flush? || b[|b| - 1].Eoc?)
  }

  /** One call of the filter: the brigade passed and c->keepalive at that time. */
  datatype Call = Call(brigade: seq<Bucket>, keepalive: bool)

  /** What a call keeps back: less than a write is worth, with nothing that forces
      it out, and with a file to send only at the end of a response on a
      connection that is kept alive. */
  ghost predicate Held(b: seq<Bucket>, keepalive: bool) {
    && |Content(b)| < MIN_BYTES_TO_WRITE && Rest(b, false, 0)
    && (NoBigFiles(b) || (keepalive && b[|b| - 1].Eos?))
  }

  /** What is set aside is at rest, with a file to send only at the end of a
      response that has one, on such a connection. */
  ghost predicate Kept(b: seq<Bucket>, keepalive: bool, kept: seq<Bucket>) {
    Settled(kept) && (NoBigFiles(kept) || (keepalive && !NoBigFiles(b) && b[|b| - 1].Eos?))
  }

  /** How system calls and bytes go together at the end of a call that began with
      b1. Without files, a system call moves bytes, or it fails and loses some; a
      file at the front that goes by sendfile moves even if the call then fails. */
  ghost predicate Pace(sched: Schedule, b1: seq<Bucket>, from: nat, to: nat, total: nat, status: Status, sent: int) {
    && (NoBigFiles(b1) ==> Brisk(from, to, total, status, sent))
    && (b1 != [] && BySendfile(b1[0]) && to > from ==> Mute(sched(from)) || sent > 0)
  }

  /** The same between two passes, b being what is left. */
  ghost predicate Paced(sched: Schedule, b1: seq<Bucket>, b: seq<Bucket>, from: nat, to: nat, sent: int) {
    && from <= to && 0 <= sent
    && (NoBigFiles(b1) ==> NoBigFiles(b) && to - from <= sent)
    && (b1 != [] && BySendfile(b1[0]) ==> if to == from then b == b1 || b == [] else Mute(sched(from)) || sent > 0)
  }

  /** The connection's output side: ctx->b, c->aborted and the socket. */
  class Filter {
    const socket: Socket
    var deferred: seq<Bucket>       // ctx->b; an absent brigade is an empty one
    var aborted: bool

    ghost predicate Valid()
      reads this
    {
      Settled(deferred) && |Content(deferred)| < MIN_BYTES_TO_WRITE
    }

    constructor (sched: Schedule)
      ensures Valid() && fresh(socket) && socket.sched == sched
      ensures socket.step == 0 && socket.wire == [] && deferred == [] && !aborted
    {
      socket := new Socket(sched);
      deferred, aborted := [], false;
    }

    /** One pass of the outer loop: collect a batch, then either set it aside or
        send it. `left` is the brigade for the next pass. */
    method Pass(b: seq<Bucket>, eblock0: ReadType, keepalive: bool)
      returns (saved: bool, status: Status, left: seq<Bucket>, eblock: ReadType,
               ghost x: seq<byte>, ghost sent: nat)
      requires b != [] && WellFormed(b) && deferred == [] && (eblock0.Blocking? ==> b[0].Pipe?)
      modifies this`deferred, socket
      ensures Went(socket.sched, b, keepalive, old(Now()), Now(), saved, left, x, status, sent)
      ensures saved ==> Valid()
      ensures !saved ==>
                && Work(left) <= Work(b)
                && (Work(left) == Work(b) ==> eblock0.Nonblocking? && eblock.Blocking?)
                && (eblock.Blocking? ==> left != [] && left[0].Pipe?)
    {
      saved, x, sent := false, [], 0;
      status, left := Success, [];
      var batch := new Batch();
      var front, more, last;
      front, more, last, eblock := Gather(b, eblock0, batch);
      batch.SizeIsLength();
      if batch.Size() < MIN_BYTES_TO_WRITE && !last.Eoc?
         && ((batch.file.None? && more.None? && !last.Flush?) || (last.Eos? && keepalive)) {
        if last.Eos? {
          front := Settle(front);
        }
        saved, deferred := true, front;
        assert Content(front) + [] == Content(front);
      } else {
        status, sent := batch.Send(socket);
        left := if more.Some? then more.value else [];
        x := Content(front);
        WorkPositive(b);
      }
    }

    ghost function Now(): Conn
      reads this, socket
    {
      Conn(socket.step, socket.wire, deferred, aborted)
    }

    /** A pass, and what a call that found the connection in state s and made c
        has delivered after it. */
    method Advance(b: seq<Bucket>, eblock0: ReadType, keepalive: bool, ghost s: Conn, ghost c: Call)
      returns (status: Status, left: seq<Bucket>, eblock: ReadType)
      requires b != [] && c.keepalive == keepalive && Underway(socket.sched, s, c, b, Now())
      requires eblock0.Blocking? ==> b[0].Pipe?
      modifies this`deferred, socket
      ensures Valid() && aborted == old(aborted)
      ensures status.Success? ==> Underway(socket.sched, s, c, left, Now())
      ensures status.Failed? ==> BrokenOff(socket.sched, s, c, Now(), status)
      ensures Work(left) < Work(b) || (Work(left) == Work(b) && eblock0.Nonblocking? && eblock.Blocking?)
      ensures eblock.Blocking? && left != [] ==> left[0].Pipe?
    {
      ghost var sched, t := socket.sched, Now();
      var saved;
      ghost var x, sent;
      saved, status, left, eblock, x, sent := Pass(b, eblock0, keepalive);
      WorkPositive(b);
      AfterPass(sched, s, c, b, t, Now(), saved, left, x, status, sent);
    }

    /** The outer loop. */
    method Drain(b1: seq<Bucket>, keepalive: bool, ghost s: Conn, ghost c: Call) returns (status: Status)
      requires Valid() && c.keepalive == keepalive && Underway(socket.sched, s, c, b1, Now())
      modifies this`deferred, socket
      ensures Valid()
      ensures status.Success? ==> Underway(socket.sched, s, c, [], Now())
      ensures status.Failed? ==> BrokenOff(socket.sched, s, c, Now(), status)
    {
      var b, eblock := b1, Nonblocking;
      status := Success;
      while status.Success? && b != []
        invariant Valid() && aborted == old(aborted)
        invariant status.Success? ==> Underway(socket.sched, s, c, b, Now())
        invariant status.Failed? ==> BrokenOff(socket.sched, s, c, Now(), status)
        invariant eblock.Blocking? && b != [] ==> b[0].Pipe?
        decreases status.Success?, Work(b), eblock.Nonblocking?
      {
        status, b, eblock := Advance(b, eblock, keepalive, s, c);
      }
    }

    /** ap_core_output_filter. */
    method Write(b0: seq<Bucket>, keepalive: bool) returns (reply: Reply, ghost status: Status)
      requires Valid() && WellFormed(b0)
      modifies this, socket
      ensures Valid()
      ensures Called(socket.sched, old(Now()), Call(b0, keepalive), Now(), status)
      ensures reply.ConnAborted? <==> aborted
    {
      if aborted {
        return ConnAborted, Success;
      }
      ghost var s, c := Now(), Call(b0, keepalive);
      var b := deferred + b0;
      deferred := [];
      CallStarts(socket.sched, s, c);
      var st := Drain(b, keepalive, s, c);
      if st.Failed? {
        CallFails(socket.sched, s, c, Now(), st);
        aborted := !st.why.Again?;
        return if aborted then ConnAborted else Ok, st;
      }
      CallEnds(socket.sched, s, c, Now());
      return Ok, Success;
    }
  }

  /** In the middle of a call: b is left to do. */
  ghost predicate Underway(sched: Schedule, s: Conn, c: Call, b: seq<Bucket>, t: Conn) {
    var b0, b1 := c.brigade, s.deferred + c.brigade;
    && !s.aborted && !t.aborted && WellFormed(b)
    && (b != [] ==> t.deferred == [] && SameEnd(b1, b))
    && (Closing(b0) ==> t.deferred == [])
    && Delivered(sched, s.step, t.step, s.wire, t.wire, Content(b1),
                 if b != [] then Content(b) else Content(t.deferred), Success)
    && Paced(sched, b1, b, s.step, t.step, |t.wire| - |s.wire|)
    && Kept(b1, c.keepalive, t.deferred) && (Held(b1, c.keepalive) ==> t.step == s.step && (b == [] || b == b1))
  }

  /** A system call failed, and the rest of the data is dropped. */
  ghost predicate BrokenOff(sched: Schedule, s: Conn, c: Call, t: Conn, status: Status) {
    var b0 := c.brigade;
    && !s.aborted && t.deferred == [] && !Held(s.deferred + b0, c.keepalive)
    && Delivered(sched, s.step, t.step, s.wire, t.wire, Content(s.deferred + b0), [], status)
    && Pace(sched, s.deferred + b0, s.step, t.step, |Content(s.deferred + b0)|, status, |t.wire| - |s.wire|)
  }

  /** How a pass over b went, x being what it pushed and left what it left. */
  ghost predicate Passed(sched: Schedule, b: seq<Bucket>, t: Conn, t': Conn, left: seq<Bucket>, x: seq<byte>,
                         status: Status, sent: nat)
  {
    && t'.deferred == [] && t'.aborted == t.aborted
    && Pushed(sched, t.step, t'.step, t.wire, t'.wire, x, status, sent) && Short(sched, t'.step, |x|, status, sent)
    && x + Content(left) == Content(b)
    && WellFormed(left) && (left != [] ==> SameEnd(b, left))
    && (NoBigFiles(b) ==> NoBigFiles(left) && Brisk(t.step, t'.step, |x|, status, sent))
    && (b != [] && BySendfile(b[0]) ==> t'.step > t.step && (Mute(sched(t.step)) || sent > 0))
  }

  /** A pass over b saves all of it or pushes some, and saves what is to be held. */
  ghost predicate Went(sched: Schedule, b: seq<Bucket>, keepalive: bool, t: Conn, t': Conn, saved: bool,
                       left: seq<Bucket>, x: seq<byte>, status: Status, sent: nat)
  {
    if saved then
      && status.Success? && left == [] && t' == t.(deferred := t'.deferred)
      && Content(t'.deferred) == Content(b) && !Closing(b) && Kept(b, keepalive, t'.deferred)
    else Passed(sched, b, t, t', left, x, status, sent) && !Held(b, keepalive)
  }

  lemma {:induction false} AfterPass(sched: Schedule, s: Conn, c: Call, b: seq<Bucket>, t: Conn, t': Conn, saved: bool,
                                     left: seq<Bucket>, x: seq<byte>, status: Status, sent: nat)
    requires b != [] && Underway(sched, s, c, b, t)
    requires Went(sched, b, c.keepalive, t, t', saved, left, x, status, sent)
    ensures status.Success? ==> Underway(sched, s, c, left, t')
    ensures status.Failed? ==> BrokenOff(sched, s, c, t', status)
    ensures !saved ==> t'.deferred == []
    ensures t'.aborted == t.aborted && (saved ==> left == [])
  {
    if saved {
      PassSaved(sched, s, c, b, t, t'.deferred);
    } else if status.Success? {
      assert sent == |x|;
      PassSent(sched, s, c, b, t, t', left, x);
    } else {
      PassFailed(sched, s, c, b, t, t', left, x, status, sent);
    }
  }

  lemma {:induction false} PassSent(sched: Schedule, s: Conn, c: Call, b: seq<Bucket>, t: Conn, t': Conn,
                                    left: seq<Bucket>, x: seq<byte>)
    requires b != [] && Underway(sched, s, c, b, t) && Passed(sched, b, t, t', left, x, Success, |x|)
    requires !Held(b, c.keepalive)
    ensures Underway(sched, s, c, left, t')
  {
    DeliveredMore(sched, s.step, t.step, t'.step, s.wire, t.wire, t'.wire, Content(s.deferred + c.brigade), x,
                  Content(left));
  }

  lemma {:induction false} PassFailed(sched: Schedule, s: Conn, c: Call, b: seq<Bucket>, t: Conn, t': Conn,
                                      left: seq<Bucket>, x: seq<byte>, status: Status, sent: nat)
    requires b != [] && Underway(sched, s, c, b, t) && status.Failed? && Passed(sched, b, t, t', left, x, status, sent)
    requires !Held(b, c.keepalive)
    ensures BrokenOff(sched, s, c, t', status)
  {
    DeliveredFault(sched, s.step, t.step, t'.step, s.wire, t.wire, t'.wire, Content(s.deferred + c.brigade),
                   x, Content(left), status, sent);
    assert |t.wire| - |s.wire| + |x| + |Content(left)| == |Content(s.deferred + c.brigade)|;
  }

  lemma {:induction false} PassSaved(sched: Schedule, s: Conn, c: Call, b: seq<Bucket>, t: Conn,
                                     kept: seq<Bucket>)
    requires b != [] && Underway(sched, s, c, b, t) && Content(kept) == Content(b) && !Closing(b)
    requires Kept(b, c.keepalive, kept)
    ensures Underway(sched, s, c, [], t.(deferred := kept))
  {}

  lemma {:induction false} CallStarts(sched: Schedule, s: Conn, c: Call)
    requires !s.aborted && WellFormed(c.brigade) && Settled(s.deferred)
    ensures Underway(sched, s, c, s.deferred + c.brigade, s.(deferred := []))
  {
    assert s.wire[|s.wire|..] == [];
  }

  lemma {:induction false} CallFails(sched: Schedule, s: Conn, c: Call, t: Conn, status: Status)
    requires BrokenOff(sched, s, c, t, status) && status.Failed?
    ensures Called(sched, s, c, t.(aborted := !status.why.Again?), status)
  {
    FlattenConcat(Data, s.deferred, c.brigade);
  }

  lemma {:induction false} CallEnds(sched: Schedule, s: Conn, c: Call, t: Conn)
    requires Underway(sched, s, c, [], t)
    ensures Called(sched, s, c, t, Success)
  {
    FlattenConcat(Data, s.deferred, c.brigade);
  }

  /** A connection as far as its output goes. */
  datatype Conn = Conn(step: nat, wire: seq<byte>, deferred: seq<Bucket>, aborted: bool)

  /** What a call may do to a connection. */
  ghost predicate Called(sched: Schedule, s: Conn, c: Call, t: Conn, status: Status) {
    if s.aborted then t == s
    else
      var b0, b := c.brigade, s.deferred + c.brigade;
      && Delivered(sched, s.step, t.step, s.wire, t.wire, Content(s.deferred) + Content(b0), Content(t.deferred),
        status)
      && (t.aborted <==> status.Failed? && !status.why.Again?)
      && (status.Failed? || Closing(b0) ==> t.deferred == [])
      && Pace(sched, b, s.step, t.step, |Content(b)|, status, |t.wire| - |s.wire|)
      && Kept(b, c.keepalive, t.deferred)
      && (Held(b, c.keepalive) ==> t.step == s.step && t.wire == s.wire && Content(t.deferred) == Content(b))
  }

  function CallBytes(c: Call): seq<byte> {
    Content(c.brigade)
  }

  /** All data passed to the filter. */
  function Accepted(calls: seq<Call>): seq<byte> {
    Flatten(CallBytes, calls)
  }

  /** a is b with some elements left out; at[i] is where a[i] sits in b. */
  ghost predicate Embeds(at: seq<nat>, a: seq<byte>, b: seq<byte>) {
    && |at| == |a|
    && (forall i | 0 <= i < |a| :: at[i] < |b| && a[i] == b[at[i]])
    && (forall i, j | 0 <= i < j < |a| :: at[i] < at[j])
  }

  lemma {:induction false} EmbedsGrow(at: seq<nat>, a: seq<byte>, b: seq<byte>, c: seq<byte>) returns (at': seq<nat>)
    requires Embeds(at, a, b)
    ensures Embeds(at', a + c, b + c)
  {
    at' := at + seq(|c|, i requires 0 <= i => |b| + i);
  }

  /** No call numbered below n reports EAGAIN. */
  ghost predicate NeverAgain(sched: Schedule, n: nat) {
    forall k | 0 <= k < n :: sched(k).Fault? ==> !sched(k).why.Again?
  }

  /** A call that fails for good. */
  predicate GivesUp(o: Outcome) {
    o.Fault? && !o.why.Again?
  }

  /** Once a call has reported EAGAIN, none moves a byte. */
  ghost predicate Silenced(sched: Schedule, n: nat) {
    forall k, m | 0 <= k < m < n && sched(k).Fault? && sched(k).why.Again? :: Mute(sched(m))
  }

  /** No call below n fails after moving bytes. */
  ghost predicate AllOrNothing(sched: Schedule, n: nat) {
    forall k | 0 <= k < n && sched(k).Fault? :: Mute(sched(k))
  }

  /** What a connection has to show after some calls that passed `all`. */
  ghost predicate Faithful(sched: Schedule, steps: nat, wire: seq<byte>, kept: seq<byte>, all: seq<byte>,
                           aborted: bool, at: seq<nat>)
  {
    // bytes come out in order, once each, whatever happens
    && Embeds(at, wire + kept, all)
    // nothing is lost unless a call failed
    && (Clean(sched, 0, steps) ==> wire + kept == all)
    // and something is lost if a call failed before moving bytes
    && (AllOrNothing(sched, steps) && !Clean(sched, 0, steps) ==> |wire + kept| < |all|)
    // without bytes after an EAGAIN there is no gap
    && (Silenced(sched, steps) ==> wire <= all)
    // and without EAGAIN only a missing tail after an abort
    && (NeverAgain(sched, steps) && !aborted ==> wire + kept == all)
    // after a call that failed for good there is no other
    && (forall k | 0 <= k < steps - 1 :: !GivesUp(sched(k)))
    // the connection is aborted exactly when a call failed for good
    && (aborted <==> !(forall k | 0 <= k < steps :: sched(k).Fault? ==> sched(k).why.Again?))
  }

  lemma {:induction false} FaithfulAfterAbort(sched: Schedule, steps: nat, wire: seq<byte>, kept: seq<byte>,
                                              all: seq<byte>, at: seq<nat>, more: seq<byte>)
    requires Faithful(sched, steps, wire, kept, all, true, at)
    ensures Faithful(sched, steps, wire, kept, all + more, true, at)
  {
    assert !Clean(sched, 0, steps);
    if wire <= all {
      assert all + more == wire + (all[|wire|..] + more);
    }
  }

  lemma {:induction false} SilencedStep(sched: Schedule, steps: nat, steps': nat, wire: seq<byte>, wire': seq<byte>,
                     kept: seq<byte>, all: seq<byte>, more: seq<byte>, status: Status)
    requires steps <= steps' && Silenced(sched, steps') && Outcomes(sched, steps, steps', status)
    requires wire <= all && (NeverAgain(sched, steps) ==> wire + kept == all)
    requires wire <= wire' && wire'[|wire|..] <= kept + more
    requires steps' == steps || (steps' == steps + 1 && Mute(sched(steps))) ==> wire' == wire
    ensures wire' <= all + more
  {
    if NeverAgain(sched, steps) {
      var d := wire'[|wire|..];
      assert wire' == wire + d && all + more == wire + (kept + more);
    } else {
      var k :| 0 <= k < steps && sched(k).Fault? && sched(k).why.Again?;
      if steps < steps' {
        assert Mute(sched(steps));
      }
      assert wire' == wire && all + more == wire + (all[|wire|..] + more);
    }
  }

  /** A delivered call keeps the connection faithful. */
  lemma {:induction false} FaithfulStep(sched: Schedule, steps: nat, steps': nat, wire: seq<byte>, wire': seq<byte>,
                     kept: seq<byte>, kept': seq<byte>, all: seq<byte>, more: seq<byte>, at: seq<nat>, status: Status)
    returns (at': seq<nat>)
    requires Faithful(sched, steps, wire, kept, all, false, at)
    requires Delivered(sched, steps, steps', wire, wire', kept + more, kept', status)
    ensures Faithful(sched, steps', wire', kept', all + more, status.Failed? && !status.why.Again?, at')
  {
    at' := EmbedsGrow(at, wire + kept, all, more);
    var d := wire'[|wire|..];
    assert wire' == wire + d;
    Assoc(wire, kept, more);
    if status.Success? {
      Assoc(wire, d, kept');
      assert wire' + kept' == (wire + kept) + more;
    } else {
      var n := |wire'|;
      assert d <= kept + more;
      assert wire' + kept' == wire' == ((wire + kept) + more)[..n];
      at' := at'[..n];
      assert sched(steps' - 1).Fault?;
    }
    if Silenced(sched, steps') {
      SilencedStep(sched, steps, steps', wire, wire', kept, all, more, status);
    }
  }

  /** A run of a connection: the states between calls, and how each call ended. */
  ghost predicate Run(sched: Schedule, calls: seq<Call>, log: seq<Conn>, how: seq<Status>) {
    && |log| == |calls| + 1 && |how| == |calls| && log[0] == Conn(0, [], [], false)
    && forall i | 0 <= i < |calls| :: Called(sched, log[i], calls[i], log[i + 1], how[i])
  }

  ghost predicate FaithfulConn(sched: Schedule, c: Conn, all: seq<byte>, at: seq<nat>) {
    Faithful(sched, c.step, c.wire, Content(c.deferred), all, c.aborted, at)
  }

  /** A call keeps the connection faithful. */
  lemma {:induction false} FaithfulCall(sched: Schedule, s: Conn, c: Call, t: Conn, status: Status,
                                        all: seq<byte>, at: seq<nat>) returns (at': seq<nat>)
    requires FaithfulConn(sched, s, all, at) && Called(sched, s, c, t, status)
    ensures FaithfulConn(sched, t, all + Content(c.brigade), at')
  {
    if s.aborted {
      at' := at;
      FaithfulAfterAbort(sched, s.step, s.wire, Content(s.deferred), all, at, Content(c.brigade));
    } else {
      at' := FaithfulStep(sched, s.step, t.step, s.wire, t.wire, Content(s.deferred), Content(t.deferred),
                          all, Content(c.brigade), at, status);
    }
  }

  /** Every run is faithful in each of its states. */
  lemma {:induction false} RunFaithful(sched: Schedule, calls: seq<Call>, log: seq<Conn>, how: seq<Status>, i: nat)
    returns (at: seq<nat>)
    requires Run(sched, calls, log, how) && i <= |calls|
    ensures FaithfulConn(sched, log[i], Accepted(calls[..i]), at)
    decreases i
  {
    if i == 0 {
      at := [];
    } else {
      at := RunFaithful(sched, calls, log, how, i - 1);
      FlattenExtend(CallBytes, calls, i - 1);
      at := FaithfulCall(sched, log[i - 1], calls[i - 1], log[i], how[i - 1], Accepted(calls[..i - 1]), at);
    }
  }

  /** No bucket makes the filter write: no flush, no end of connection, no pipe and
      no file to send. */
  ghost predicate Calm(b: seq<Bucket>) {
    forall i | 0 <= i < |b| ::
      !b[i].Pipe? && !b[i].Flush? && !b[i].Eoc? && (b[i].File? ==> b[i].range.length < 256)
  }

  /** Calls that pass less than a write is worth do nothing to the socket. */
  lemma {:induction false} RunQuiet(sched: Schedule, calls: seq<Call>, log: seq<Conn>, how: seq<Status>, i: nat)
    requires Run(sched, calls, log, how) && i <= |calls|
    requires (forall c | c in calls :: Calm(c.brigade)) && |Accepted(calls)| < 8000
    ensures log[i].step == 0 && log[i].wire == [] && !log[i].aborted
    ensures Content(log[i].deferred) == Accepted(calls[..i]) && Calm(log[i].deferred)
    decreases i
  {
    if i > 0 {
      RunQuiet(sched, calls, log, how, i - 1);
      var s, c, t := log[i - 1], calls[i - 1], log[i];
      assert Called(sched, s, c, t, how[i - 1]);
      FlattenExtend(CallBytes, calls, i - 1);
      FlattenSplit(CallBytes, calls, i);
      FlattenConcat(Data, s.deferred, c.brigade);
      CalmHeld(s.deferred, c.brigade, c.keepalive);
    }
  }

  lemma {:induction false} CalmHeld(a: seq<Bucket>, b: seq<Bucket>, keepalive: bool)
    requires Calm(a) && Calm(b)
    ensures Calm(a + b) && (|Content(a + b)| < 8000 ==> Held(a + b, keepalive))
  {}

  /** A whole connection: any sequence of calls under any schedule. */
  method Serve(sched: Schedule, calls: seq<Call>)
    returns (conn: Conn, ghost log: seq<Conn>, ghost how: seq<Status>, ghost at: seq<nat>)
    requires forall c | c in calls :: WellFormed(c.brigade)
    ensures Run(sched, calls, log, how) && conn == log[|calls|]
    ensures FaithfulConn(sched, conn, Accepted(calls), at)
    ensures Settled(conn.deferred) && |Content(conn.deferred)| < 8000
    ensures |Accepted(calls)| < 8000 && (forall c | c in calls :: Calm(c.brigade)) ==>
              conn.step == 0 && conn.wire == [] && Content(conn.deferred) == Accepted(calls)
  {
    var f := new Filter(sched);
    log, how := [f.Now()], [];
    var i := 0;
    while i < |calls|
      invariant 0 <= i <= |calls| && f.Valid() && fresh(f) && fresh(f.socket) && f.socket.sched == sched
      invariant |log| == i + 1 && Run(sched, calls[..i], log, how) && log[i] == f.Now()
    {
      ghost var status;
      var reply;
      reply, status := f.Write(calls[i].brigade, calls[i].keepalive);
      RunMore(sched, calls, i, log, how, f.Now(), status);
      log, how := log + [f.Now()], how + [status];
      i := i + 1;
    }
    assert calls[..i] == calls;
    at := RunFaithful(sched, calls, log, how, i);
    if |Accepted(calls)| < 8000 && forall c | c in calls :: Calm(c.brigade) {
      RunQuiet(sched, calls, log, how, i);
    }
    conn := Conn(f.socket.step, f.socket.wire, f.deferred, f.aborted);
  }

  lemma {:induction false} RunMore(sched: Schedule, calls: seq<Call>, i: nat, log: seq<Conn>, how: seq<Status>,
                                   t: Conn, status: Status)
    requires i < |calls| && Run(sched, calls[..i], log, how) && Called(sched, log[i], calls[i], t, status)
    ensures Run(sched, calls[..i + 1], log + [t], how + [status])
  {
    var log', how' := log + [t], how + [status];
    forall j | 0 <= j < i + 1 ensures Called(sched, log'[j], calls[..i + 1][j], log'[j + 1], how'[j]) {
      if j < i {
        assert Called(sched, log[j], calls[..i][j], log[j + 1], how[j]);
      }
    }
  }

  /** Call k reports EAGAIN, and call m then moves a byte. */
  ghost predicate GapAt(sched: Schedule, k: nat, m: nat) {
    && k < m && sched(k).Fault? && sched(k).why.Again?
    && (forall i | 0 <= i < m :: !GivesUp(sched(i)))
    && !Mute(sched(m))
  }

  /** These calls, all well formed, leave a gap on the wire. */
  ghost predicate LeaveGap(sched: Schedule, calls: seq<Call>, log: seq<Conn>, how: seq<Status>) {
    && Run(sched, calls, log, how) && (forall c | c in calls :: WellFormed(c.brigade))
    && !(log[|calls|].wire <= Accepted(calls))
  }

  /** There is no gap unless a byte can move after an EAGAIN. */
  lemma {:induction false} GapNeeds(sched: Schedule, calls: seq<Call>, log: seq<Conn>, how: seq<Status>)
    returns (k: nat, m: nat)
    requires LeaveGap(sched, calls, log, how)
    ensures GapAt(sched, k, m)
  {
    var n := |calls|;
    var at := RunFaithful(sched, calls, log, how, n);
    assert calls[..n] == calls;
    assert !Silenced(sched, log[n].step);
    k, m :| 0 <= k < m < log[n].step && sched(k).Fault? && sched(k).why.Again? && !Mute(sched(m));
  }

  function FlushedCall(x: byte): Call {
    Call([Mem([x]), Flush], false)
  }

  function Same(x: byte, n: nat): (s: seq<byte>)
    ensures |s| == n && forall i | 0 <= i < n :: s[i] == x
  {
    seq(n, _ => x)
  }

  /** A file of twos, sent by sendfile and flushed. */
  function FileCall(): Call {
    Call([File(FileRange(Same(2, 256), 0, 256), true), Flush], false)
  }

  lemma {:induction false} CallContent(x: byte)
    ensures Content(FlushedCall(x).brigade) == [x] && Content(FileCall().brigade) == Same(2, 256)
  {
    PairContent(Mem([x]), Flush);
    PairContent(FileCall().brigade[0], Flush);
    assert FileBytes(FileRange(Same(2, 256), 0, 256)) == Same(2, 256);
  }

  /** What a flushed byte does to an idle connection: it takes one system call and
      goes out, or is lost. */
  function ByteSent(sched: Schedule, s: Conn, x: byte): Conn {
    Conn(s.step + 1, if sched(s.step).Moved? then s.wire + [x] else s.wire, [], GivesUp(sched(s.step)))
  }

  function Ending(o: Outcome): Status {
    if o.Moved? then Success else Failed(o.why)
  }

  lemma {:induction false} ByteCall(sched: Schedule, s: Conn, x: byte, t: Conn, status: Status)
    requires !s.aborted && s.deferred == [] && Called(sched, s, FlushedCall(x), t, status)
    ensures t == ByteSent(sched, s, x)
  {
    var b := FlushedCall(x).brigade;
    CallContent(x);
    assert [] + b == b && Content([]) + Content(b) == [x] && NoBigFiles(b);
    assert t.wire == s.wire + t.wire[|s.wire|..];
  }

  lemma {:induction false} ByteCallPossible(sched: Schedule, s: Conn, x: byte)
    requires !s.aborted && s.deferred == []
    ensures Called(sched, s, FlushedCall(x), ByteSent(sched, s, x), Ending(sched(s.step)))
  {
    var b := FlushedCall(x).brigade;
    CallContent(x);
    assert [] + b == b && Content([]) + Content(b) == [x] && NoBigFiles(b);
    assert (s.wire + [x])[|s.wire|..] == [x] && s.wire[|s.wire|..] == [];
  }

  /** What a file does to an idle connection when the first call fails after
      moving bytes. */
  function FileSent(sched: Schedule, s: Conn): Conn {
    var o := sched(s.step);
    Conn(s.step + 1, s.wire + Same(2, Min(o.n, 256)), [], GivesUp(o))
  }

  lemma {:induction false} FileCallMoves(sched: Schedule, s: Conn, t: Conn, status: Status)
    requires !s.aborted && s.deferred == [] && Called(sched, s, FileCall(), t, status)
    requires !Mute(sched(s.step))
    ensures |t.wire| > |s.wire| && t.wire[..|s.wire|] == s.wire && t.wire[|s.wire|] == 2
  {
    var b := FileCall().brigade;
    CallContent(2);
    assert [] + b == b && Content([]) + Content(b) == Same(2, 256) && BySendfile(b[0]);
    var d := t.wire[|s.wire|..];
    assert t.wire[|s.wire|] == d[0];
    if status.Success? {
      assert d + Content(t.deferred) == d;
    }
  }

  lemma {:induction false} FileCallPossible(sched: Schedule, s: Conn)
    requires !s.aborted && s.deferred == [] && sched(s.step).Fault? && sched(s.step).n > 0
    ensures Called(sched, s, FileCall(), FileSent(sched, s), Ending(sched(s.step)))
  {
    var b := FileCall().brigade;
    CallContent(2);
    assert [] + b == b && Content([]) + Content(b) == Same(2, 256) && b[0].File?;
    var d := Same(2, Min(sched(s.step).n, 256));
    assert (s.wire + d)[|s.wire|..] == d && d <= Same(2, 256);
  }

  /** How many of the first i system calls move a byte. */
  function Moves(sched: Schedule, i: nat): (p: nat)
    ensures p <= i
  {
    if i == 0 then 0 else Moves(sched, i - 1) + if sched(i - 1).Moved? then 1 else 0
  }

  lemma {:induction false} MovesFewer(sched: Schedule, k: nat, i: nat)
    requires k < i && !sched(k).Moved?
    ensures Moves(sched, i) < i
  {
    if k < i - 1 {
      MovesFewer(sched, k, i - 1);
    }
  }

  /** The connection after i flushed ones. */
  function AfterOnes(sched: Schedule, i: nat): Conn {
    Conn(i, Same(1, Moves(sched, i)), [], false)
  }

  lemma {:induction false} OneMore(sched: Schedule, i: nat)
    requires !GivesUp(sched(i))
    ensures ByteSent(sched, AfterOnes(sched, i), 1) == AfterOnes(sched, i + 1)
  {
    assert Same(1, Moves(sched, i)) + [1] == Same(1, Moves(sched, i) + 1);
  }

  /** The last call: a byte, or a file if system call m fails after moving some. */
  function LastCall(sched: Schedule, m: nat): Call {
    if sched(m).Moved? then FlushedCall(2) else FileCall()
  }

  /** Ones until system call m is due, then twos. */
  function GapCalls(sched: Schedule, m: nat): (calls: seq<Call>)
    ensures |calls| == m + 1 && calls[m] == LastCall(sched, m)
    ensures forall i | 0 <= i < m :: calls[i] == FlushedCall(1)
    ensures forall c | c in calls :: WellFormed(c.brigade)
  {
    seq(m, _ => FlushedCall(1)) + [LastCall(sched, m)]
  }

  lemma {:induction false} GapBytes(sched: Schedule, m: nat, i: nat)
    requires i <= m
    ensures Accepted(GapCalls(sched, m)[..i]) == Same(1, i)
  {
    if i > 0 {
      GapBytes(sched, m, i - 1);
      FlattenExtend(CallBytes, GapCalls(sched, m), i - 1);
      CallContent(1);
    }
  }

  lemma {:induction false} OnesRun(sched: Schedule, m: nat, log: seq<Conn>, how: seq<Status>, i: nat)
    requires Run(sched, GapCalls(sched, m), log, how) && i <= m && forall j | 0 <= j < m :: !GivesUp(sched(j))
    ensures log[i] == AfterOnes(sched, i)
  {
    if i > 0 {
      OnesRun(sched, m, log, how, i - 1);
      assert GapCalls(sched, m)[i - 1] == FlushedCall(1);
      ByteCall(sched, log[i - 1], 1, log[i], how[i - 1]);
      OneMore(sched, i - 1);
    }
  }

  /** The byte after the ones on the wire is a two, and there were more ones. */
  lemma {:induction false} GapRun(sched: Schedule, k: nat, m: nat, log: seq<Conn>, how: seq<Status>)
    requires GapAt(sched, k, m) && Run(sched, GapCalls(sched, m), log, how)
    ensures LeaveGap(sched, GapCalls(sched, m), log, how)
  {
    var calls := GapCalls(sched, m);
    var s, t, p := log[m], log[m + 1], Moves(sched, m);
    OnesRun(sched, m, log, how, m);
    MovesFewer(sched, k, m);
    if sched(m).Moved? {
      ByteCall(sched, s, 2, t, how[m]);
    } else {
      FileCallMoves(sched, s, t, how[m]);
    }
    assert t.wire[p] == 2;
    GapBytes(sched, m, m);
    FlattenExtend(CallBytes, calls, m);
    assert calls[..m + 1] == calls;
    assert Accepted(calls)[p] == 1;
  }

  function LastSent(sched: Schedule, m: nat): Conn {
    if sched(m).Moved? then ByteSent(sched, AfterOnes(sched, m), 2) else FileSent(sched, AfterOnes(sched, m))
  }

  lemma {:induction false} LastPossible(sched: Schedule, m: nat)
    requires !Mute(sched(m))
    ensures Called(sched, AfterOnes(sched, m), LastCall(sched, m), LastSent(sched, m), Ending(sched(m)))
  {
    if sched(m).Moved? {
      ByteCallPossible(sched, AfterOnes(sched, m), 2);
    } else {
      FileCallPossible(sched, AfterOnes(sched, m));
    }
  }

  lemma {:induction false} GapRunPossible(sched: Schedule, k: nat, m: nat) returns (log: seq<Conn>, how: seq<Status>)
    requires GapAt(sched, k, m)
    ensures Run(sched, GapCalls(sched, m), log, how)
  {
    var calls := GapCalls(sched, m);
    log := seq(m + 1, i requires 0 <= i <= m => AfterOnes(sched, i)) + [LastSent(sched, m)];
    how := seq(m + 1, i requires 0 <= i <= m => Ending(sched(i)));
    forall i | 0 <= i <= m ensures Called(sched, log[i], calls[i], log[i + 1], how[i]) {
      if i < m {
        ByteCallPossible(sched, AfterOnes(sched, i), 1);
        OneMore(sched, i);
      } else {
        LastPossible(sched, m);
      }
    }
  }

  /** Some calls leave a gap on the wire if and only if some system call can move
      a byte after another has reported EAGAIN. */
  lemma {:induction false} GapIff(sched: Schedule)
    ensures (exists calls, log, how :: LeaveGap(sched, calls, log, how)) <==> (exists k, m :: GapAt(sched, k, m))
  {
    if calls, log, how :| LeaveGap(sched, calls, log, how) {
      var k, m := GapNeeds(sched, calls, log, how);
    }
    if k, m :| GapAt(sched, k, m) {
      var log, how := GapRunPossible(sched, k, m);
      GapRun(sched, k, m, log, how);
    }
  }

  /** The filter does leave that gap. */
  method FindGap(sched: Schedule, ghost k: nat, m: nat) returns (calls: seq<Call>, wire: seq<byte>)
    requires GapAt(sched, k, m)
    ensures (forall c | c in calls :: WellFormed(c.brigade)) && !(wire <= Accepted(calls))
  {
    calls := GapCalls(sched, m);
    var conn;
    ghost var log, how, at;
    conn, log, how, at := Serve(sched, calls);
    GapRun(sched, k, m, log, how);
    wire := conn.wire;
  }

  /** EAGAIN breaks the stream: both calls report success, yet the first byte is
      lost and the second one follows it on the wire. */
  method AgainLeavesGap() returns (first: Reply, second: Reply, wire: seq<byte>, all: seq<byte>)
    ensures first.Ok? && second.Ok?
    ensures all == [1, 2] && wire == [2] && !(wire <= all)
  {
    var sched := (k: nat) => if k == 0 then Fault(0, Again) else Moved(1);
    var f := new Filter(sched);
    ghost var status;
    ghost var s := f.Now();
    first, status := f.Write(FlushedCall(1).brigade, false);
    ByteCall(sched, s, 1, f.Now(), status);
    s := f.Now();
    second, status := f.Write(FlushedCall(2).brigade, false);
    ByteCall(sched, s, 2, f.Now(), status);
    wire, all := f.socket.wire, [1, 2];
    assert wire[0] != all[0];
  }
}
